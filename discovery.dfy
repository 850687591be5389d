/** findDirectivesInModule: the element directives a module registers. */
module Discovery {
  import opened Wrappers
  import opened Seqs
  import opened Ng

  /** What the AngularDirective lookups throw. */
  datatype DiscoveryError =
    | UnknownModule(moduleName: string)   // angular.module(name) for a module never registered
    | UnknownProvider(provider: string)   // injector.get(provider) for a provider never registered

  /** `.filter(instruction => instruction[1] === 'directive').map(instruction => instruction[2][0])`. */
  function DirectiveNames(queue: seq<Instruction>): seq<string>
  {
    if |queue| == 0 then []
    else (if queue[0].call == "directive" then [queue[0].name] else []) + DirectiveNames(queue[1..])
  }

  /** The names are those of the directive registrations, in queue order. */
  lemma {:induction false} DirectiveNamesAppend(a: seq<Instruction>, b: seq<Instruction>)
    ensures DirectiveNames(a + b) == DirectiveNames(a) + DirectiveNames(b)
  {
    if |a| == 0 {
      assert a + b == b;
    } else {
      assert (a + b)[0] == a[0];
      assert (a + b)[1..] == a[1..] + b;
      DirectiveNamesAppend(a[1..], b);
    }
  }

  /** `.map(name => injector.get(`${name}Directive`)[0])`: the first lookup that fails throws. */
  function Resolve(names: seq<string>, injector: string -> Option<Directive>): (r: Result<seq<Directive>, DiscoveryError>)
    ensures r.Ok? <==> forall i :: 0 <= i < |names| ==> injector(names[i] + "Directive").Some?
    ensures r.Ok? ==> |r.value| == |names|
    ensures r.Ok? ==> forall i :: 0 <= i < |names| ==> injector(names[i] + "Directive") == Some(r.value[i])
    ensures r.Err? ==> exists i :: (0 <= i < |names| && r.error == UnknownProvider(names[i] + "Directive") &&
      injector(names[i] + "Directive").None? &&
      forall j :: 0 <= j < i ==> injector(names[j] + "Directive").Some?)
  {
    if |names| == 0 then Ok([])
    else match injector(names[0] + "Directive")
      case None => Err(UnknownProvider(names[0] + "Directive"))
      case Some(d) =>
        match Resolve(names[1..], injector)
        case Err(e) =>
          assert forall i :: 1 <= i < |names| ==> names[1..][i - 1] == names[i];
          Err(e)
        case Ok(ds) => Ok([d] + ds)
  }

  lemma {:induction false} ResolveAppend(a: seq<string>, b: seq<string>, injector: string -> Option<Directive>)
    requires Resolve(a, injector).Ok? && Resolve(b, injector).Ok?
    ensures Resolve(a + b, injector) == Ok(Resolve(a, injector).value + Resolve(b, injector).value)
  {
    var r := Resolve(a + b, injector);
    assert forall i :: 0 <= i < |a + b| ==> injector((a + b)[i] + "Directive").Some? by {
      forall i | 0 <= i < |a + b|
        ensures injector((a + b)[i] + "Directive").Some?
      {
        if i >= |a| {
          assert (a + b)[i] == b[i - |a|];
        }
      }
    }
    var ab := Resolve(a, injector).value + Resolve(b, injector).value;
    assert r.Ok? && |r.value| == |ab|;
    forall i | 0 <= i < |a + b|
      ensures r.value[i] == ab[i]
    {
      if i >= |a| {
        assert (a + b)[i] == b[i - |a|];
      }
    }
    assert r.value == ab;
  }

  /** `(/E/).test(directive.restrict)`. */
  predicate IsElementDirective(d: Directive)
  {
    'E' in d.restrict
  }

  /** findDirectivesInModule over a module's queue and injector. */
  function FindDirectivesInModule(queue: seq<Instruction>, injector: string -> Option<Directive>): Result<seq<Directive>, DiscoveryError>
  {
    match Resolve(DirectiveNames(queue), injector)
    case Err(e) => Err(e)
    case Ok(ds) => Ok(Filter(ds, IsElementDirective))
  }

  /**
   * Discovery yields only element directives, each the definition the injector
   * gives for a directive registration, and every registered element directive.
   */
  lemma Discovered(queue: seq<Instruction>, injector: string -> Option<Directive>)
    requires FindDirectivesInModule(queue, injector).Ok?
    ensures forall d :: d in FindDirectivesInModule(queue, injector).value ==>
      IsElementDirective(d) && exists n :: n in DirectiveNames(queue) && injector(n + "Directive") == Some(d)
    ensures forall n :: (n in DirectiveNames(queue) && injector(n + "Directive").Some? &&
      IsElementDirective(injector(n + "Directive").value)) ==>
      injector(n + "Directive").value in FindDirectivesInModule(queue, injector).value
  {
    var names := DirectiveNames(queue);
    var ds := Resolve(names, injector).value;
    forall d | d in FindDirectivesInModule(queue, injector).value
      ensures IsElementDirective(d) && exists n :: n in names && injector(n + "Directive") == Some(d)
    {
      var k :| 0 <= k < |Filter(ds, IsElementDirective)| && Filter(ds, IsElementDirective)[k] == d;
      var i :| 0 <= i < |ds| && ds[i] == d;
      assert names[i] in names;
    }
    forall n | n in names && injector(n + "Directive").Some? && IsElementDirective(injector(n + "Directive").value)
      ensures injector(n + "Directive").value in FindDirectivesInModule(queue, injector).value
    {
      var i :| 0 <= i < |names| && names[i] == n;
      assert ds[i] == injector(n + "Directive").value;
    }
  }

  /** Discovery keeps queue order: a queue's result is its parts' results, one after the other. */
  lemma DiscoveryAppend(a: seq<Instruction>, b: seq<Instruction>, injector: string -> Option<Directive>)
    requires FindDirectivesInModule(a, injector).Ok? && FindDirectivesInModule(b, injector).Ok?
    ensures FindDirectivesInModule(a + b, injector) ==
      Ok(FindDirectivesInModule(a, injector).value + FindDirectivesInModule(b, injector).value)
  {
    DirectiveNamesAppend(a, b);
    ResolveAppend(DirectiveNames(a), DirectiveNames(b), injector);
    FilterAppend(Resolve(DirectiveNames(a), injector).value, Resolve(DirectiveNames(b), injector).value, IsElementDirective);
  }

  /** A directive not restricted to elements is dropped. */
  lemma DiscoveryDropsAttributeDirective(tabs: Directive, pane: Directive)
    requires tabs.restrict == "EA" && pane.restrict == "A"
    ensures FindDirectivesInModule([Register("tabs"), Register("pane")], ExampleInjector(tabs, pane)) == Ok([tabs])
  {
    var inj := ExampleInjector(tabs, pane);
    assert tabs.restrict[0] == 'E';
    assert !IsElementDirective(pane);
    assert "paneDirective"[0] != "tabsDirective"[0];
    var q := [Register("tabs"), Register("pane")];
    assert q[1..] == [Register("pane")] && q[1..][1..] == [];
    assert DirectiveNames(q) == ["tabs", "pane"];
    ResolveEach(["tabs", "pane"], inj, [tabs, pane]);
    assert [tabs, pane][1..] == [pane];
    assert Filter([tabs, pane], IsElementDirective) == [tabs];
  }

  /** A name registered twice is looked up twice under one provider: its first definition appears twice. */
  lemma DiscoveryRepeatsFirstDefinition(tabs: Directive, pane: Directive)
    requires tabs.restrict == "EA"
    ensures FindDirectivesInModule([Register("tabs"), Instruction("$controllerProvider", "register", "tabs"), Register("tabs")],
      ExampleInjector(tabs, pane)) == Ok([tabs, tabs])
  {
    var inj := ExampleInjector(tabs, pane);
    assert tabs.restrict[0] == 'E';
    var q := [Register("tabs"), Instruction("$controllerProvider", "register", "tabs"), Register("tabs")];
    assert q[1..][1..] == [Register("tabs")];
    assert DirectiveNames(q) == ["tabs", "tabs"];
    ResolveEach(["tabs", "tabs"], inj, [tabs, tabs]);
    assert [tabs, tabs][1..] == [tabs];
    assert Filter([tabs, tabs], IsElementDirective) == [tabs, tabs];
  }

  /** A registration the injector cannot resolve throws its provider error. */
  lemma DiscoveryUnknownProvider(tabs: Directive, pane: Directive)
    ensures FindDirectivesInModule([Register("missing")], ExampleInjector(tabs, pane)) == Err(UnknownProvider("missingDirective"))
  {
    assert DirectiveNames([Register("missing")]) == ["missing"];
    assert "missing" + "Directive" == "missingDirective";
  }

  lemma ResolveEach(names: seq<string>, injector: string -> Option<Directive>, ds: seq<Directive>)
    requires |ds| == |names|
    requires forall i :: 0 <= i < |names| ==> injector(names[i] + "Directive") == Some(ds[i])
    ensures Resolve(names, injector) == Ok(ds)
  {
    var r := Resolve(names, injector);
    assert r.Ok?;
    assert forall i :: 0 <= i < |names| ==> Some(r.value[i]) == Some(ds[i]);
    assert r.value == ds;
  }

  function Register(name: string): Instruction
  {
    Instruction("$compileProvider", "directive", name)
  }

  function ExampleInjector(tabs: Directive, pane: Directive): string -> Option<Directive>
  {
    (p: string) => if p == "tabsDirective" then Some(tabs) else if p == "paneDirective" then Some(pane) else None
  }
}
