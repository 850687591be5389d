/**
 * The custom elements the loader synthesizes: one per element directive,
 * keyed by hyphenated name, and the loader hook that builds the table for
 * the module named by a resource address.
 */
module Elements {
  import opened Wrappers
  import opened Text
  import opened Ng
  import opened ScopeBindings
  import opened Discovery

  /** Aurelia's `bindingMode.oneWay`. */
  const OneWay: nat := 1
  /** Aurelia's `bindingMode.twoWay`. */
  const TwoWay: nat := 2

  /** The options one `bindable({...})` decorator declares. */
  datatype BindableProperty = BindableProperty(name: string, attribute: string, changeHandler: string, defaultBindingMode: nat)

  /** The declaration for one bindable. */
  function PropertyFor(b: Bindable, hyphenate: string -> string): BindableProperty
  {
    BindableProperty(b.name, hyphenate(b.name), "attrChanged", if b.kind == Some('=') then TwoWay else OneWay)
  }

  /**
   * One declaration per bindable, in order: it keeps the name, exposes the
   * hyphenated name as attribute, notifies `attrChanged`, and binds two-way
   * exactly for '=' bindables and one-way for all others.
   */
  function BindableProperties(bindables: seq<Bindable>, hyphenate: string -> string): (ps: seq<BindableProperty>)
    ensures |ps| == |bindables|
    ensures forall i :: 0 <= i < |bindables| ==>
      && ps[i].name == bindables[i].name
      && ps[i].attribute == hyphenate(bindables[i].name)
      && ps[i].changeHandler == "attrChanged"
      && (ps[i].defaultBindingMode == TwoWay <==> bindables[i].kind == Some('='))
      && (ps[i].defaultBindingMode == OneWay <==> bindables[i].kind != Some('='))
  {
    seq(|bindables|, i requires 0 <= i < |bindables| => PropertyFor(bindables[i], hyphenate))
  }

  /** The decorated class createDirectiveCustomElement returns, as a record. */
  datatype CustomElement = CustomElement(
    elementName: string,
    moduleName: string,
    bindables: seq<Bindable>,
    properties: seq<BindableProperty>)

  /** The element createDirectiveCustomElement builds for a directive. */
  function DirectiveElement(d: Directive, elementName: string, moduleName: string, hyphenate: string -> string): CustomElement
  {
    var bindables := DeclaredBindables(d);
    CustomElement(elementName, moduleName, bindables, BindableProperties(bindables, hyphenate))
  }

  /** createDirectiveCustomElement. */
  method CreateDirectiveCustomElement(d: Directive, elementName: string, moduleName: string, hyphenate: string -> string)
    returns (element: CustomElement)
    ensures element == DirectiveElement(d, elementName, moduleName, hyphenate)
    ensures element.elementName == elementName && element.moduleName == moduleName
    ensures |element.properties| == |element.bindables|
  {
    var scope := ScopeDefinition(d);
    var bindables: seq<Bindable> := [];
    if IsIsolateScope(scope) && scope.Object? {
      var found := GetBindables(scope.entries);
      bindables := bindables + found;
      assert bindables == ClassifyAll(scope.entries);
    }
    element := CustomElement(elementName, moduleName, bindables, BindableProperties(bindables, hyphenate));
  }

  /** The `elements` object after the loop over `definitions`: each one stored under its hyphenated name. */
  function ElementTable(definitions: seq<Directive>, moduleName: string, hyphenate: string -> string): map<string, CustomElement>
  {
    if |definitions| == 0 then map[]
    else
      var last := definitions[|definitions| - 1];
      var elementName := hyphenate(last.name);
      ElementTable(definitions[..|definitions| - 1], moduleName, hyphenate)[elementName := DirectiveElement(last, elementName, moduleName, hyphenate)]
  }

  /** getCustomElements. */
  method GetCustomElements(definitions: seq<Directive>, moduleName: string, hyphenate: string -> string)
    returns (elements: map<string, CustomElement>)
    ensures elements == ElementTable(definitions, moduleName, hyphenate)
  {
    elements := map[];
    for i := 0 to |definitions|
      invariant elements == ElementTable(definitions[..i], moduleName, hyphenate)
    {
      var elementName := hyphenate(definitions[i].name);
      var element := CreateDirectiveCustomElement(definitions[i], elementName, moduleName, hyphenate);
      assert definitions[..i + 1][..i] == definitions[..i];
      elements := elements[elementName := element];
    }
    assert definitions[..|definitions|] == definitions;
  }

  /** The table's keys are exactly the hyphenated directive names. */
  lemma {:induction false} ElementTableKeys(definitions: seq<Directive>, moduleName: string, hyphenate: string -> string)
    ensures ElementTable(definitions, moduleName, hyphenate).Keys == set i | 0 <= i < |definitions| :: hyphenate(definitions[i].name)
  {
    if |definitions| > 0 {
      var n := |definitions| - 1;
      var front := definitions[..n];
      ElementTableKeys(front, moduleName, hyphenate);
      var all := set i | 0 <= i < |definitions| :: hyphenate(definitions[i].name);
      var before := set i | 0 <= i < |front| :: hyphenate(front[i].name);
      assert all == before + {hyphenate(definitions[n].name)} by {
        forall k | k in all ensures k in before + {hyphenate(definitions[n].name)} {
          var i :| 0 <= i < |definitions| && k == hyphenate(definitions[i].name);
          if i < n {
            assert front[i] == definitions[i];
          }
        }
        forall k | k in before ensures k in all {
          var i :| 0 <= i < |front| && k == hyphenate(front[i].name);
          assert front[i] == definitions[i];
        }
      }
    }
  }

  /** Under each name the table holds the element of the last definition with that name. */
  lemma {:induction false} ElementTableLastWins(definitions: seq<Directive>, moduleName: string, hyphenate: string -> string, j: nat)
    requires j < |definitions|
    requires forall k :: j < k < |definitions| ==> hyphenate(definitions[k].name) != hyphenate(definitions[j].name)
    ensures hyphenate(definitions[j].name) in ElementTable(definitions, moduleName, hyphenate)
    ensures ElementTable(definitions, moduleName, hyphenate)[hyphenate(definitions[j].name)]
      == DirectiveElement(definitions[j], hyphenate(definitions[j].name), moduleName, hyphenate)
  {
    var n := |definitions| - 1;
    if j < n {
      var front := definitions[..n];
      assert front[j] == definitions[j];
      forall k | j < k < |front|
        ensures hyphenate(front[k].name) != hyphenate(front[j].name)
      {
        assert front[k] == definitions[k];
      }
      ElementTableLastWins(front, moduleName, hyphenate, j);
    }
  }

  /** The last definition with the same hyphenated name as `definitions[i]`. */
  lemma {:induction false} LastWithName(definitions: seq<Directive>, hyphenate: string -> string, i: nat) returns (j: nat)
    requires i < |definitions|
    ensures i <= j < |definitions| && hyphenate(definitions[j].name) == hyphenate(definitions[i].name)
    ensures forall k :: j < k < |definitions| ==> hyphenate(definitions[k].name) != hyphenate(definitions[i].name)
    decreases |definitions| - i
  {
    var key := hyphenate(definitions[i].name);
    if forall k :: i < k < |definitions| ==> hyphenate(definitions[k].name) != key {
      j := i;
    } else {
      var k :| i < k < |definitions| && hyphenate(definitions[k].name) == key;
      j := LastWithName(definitions, hyphenate, k);
    }
  }

  /**
   * A directive `userCard` with scope `{name: '@', onSelect: '&', active: '='}`
   * becomes an element with three bindables, only the last bound two-way.
   */
  lemma UserCardElement(hyphenate: string -> string)
    ensures var d := Directive("userCard", "EA", Undefined,
        Object([Entry("name", "@"), Entry("onSelect", "&"), Entry("active", "=")]));
      var element := DirectiveElement(d, "user-card", "acme", hyphenate);
      && element.bindables == [Bindable("name", Some('@')), Bindable("onSelect", Some('&')), Bindable("active", Some('='))]
      && |element.properties| == 3
      && element.properties[0].defaultBindingMode == OneWay
      && element.properties[1].defaultBindingMode == OneWay
      && element.properties[2].defaultBindingMode == TwoWay
      && element.properties[1].attribute == hyphenate("onSelect")
  {
    var entries := [Entry("name", "@"), Entry("onSelect", "&"), Entry("active", "=")];
    ClassifyWithSymbol(entries[0], 0, 1);
    ClassifyWithSymbol(entries[1], 0, 1);
    ClassifyWithSymbol(entries[2], 0, 1);
    assert ClassifyAll(entries) == [Bindable("name", Some('@')), Bindable("onSelect", Some('&')), Bindable("active", Some('='))];
  }

  /** The module name the loader reads from an address: the text after its last '/'. */
  function LoaderModuleName(address: string): (moduleName: string)
    ensures '/' !in moduleName
    ensures |moduleName| <= |address| && address[|address| - |moduleName|..] == moduleName
    ensures |moduleName| < |address| ==> address[|address| - |moduleName| - 1] == '/'
  {
    LastSegmentIsTail(address, '/');
    LastSegment(address, '/')
  }

  /** The element directives of a registered module, or what the module or injector lookup throws. */
  function ModuleDirectives(moduleName: string, registry: string -> Option<Module>): Result<seq<Directive>, DiscoveryError>
  {
    match registry(moduleName)
    case None => Err(UnknownModule(moduleName))
    case Some(m) => FindDirectivesInModule(m.invokeQueue, m.injector)
  }

  /** getAngularDirectives: the element table of a registered module, or what the lookups throw. */
  function AngularDirectives(moduleName: string, registry: string -> Option<Module>, hyphenate: string -> string)
    : Result<map<string, CustomElement>, DiscoveryError>
  {
    match ModuleDirectives(moduleName, registry)
    case Err(e) => Err(e)
    case Ok(definitions) => Ok(ElementTable(definitions, moduleName, hyphenate))
  }

  /**
   * Every element in a loaded table belongs to the module the address names,
   * comes from a discovered element directive, and is keyed by its hyphenated name.
   */
  lemma LoadedElements(address: string, registry: string -> Option<Module>, hyphenate: string -> string, key: string)
    requires AngularDirectives(LoaderModuleName(address), registry, hyphenate).Ok?
    requires key in AngularDirectives(LoaderModuleName(address), registry, hyphenate).value
    ensures var m := registry(LoaderModuleName(address)).value;
      var definitions := FindDirectivesInModule(m.invokeQueue, m.injector).value;
      var element := AngularDirectives(LoaderModuleName(address), registry, hyphenate).value[key];
      && element.moduleName == LoaderModuleName(address)
      && exists j :: (0 <= j < |definitions| && key == hyphenate(definitions[j].name) && IsElementDirective(definitions[j])
        && element == DirectiveElement(definitions[j], key, LoaderModuleName(address), hyphenate))
  {
    var name := LoaderModuleName(address);
    var m := registry(name).value;
    var definitions := FindDirectivesInModule(m.invokeQueue, m.injector).value;
    Discovered(m.invokeQueue, m.injector);
    ElementTableKeys(definitions, name, hyphenate);
    var i :| 0 <= i < |definitions| && key == hyphenate(definitions[i].name);
    var j := LastWithName(definitions, hyphenate, i);
    ElementTableLastWins(definitions, name, hyphenate, j);
    assert definitions[j] in definitions;
  }

  /** The loader plugin's `fetch(address)`. */
  method Fetch(address: string, registry: string -> Option<Module>, hyphenate: string -> string)
    returns (r: Result<map<string, CustomElement>, DiscoveryError>)
    ensures r == AngularDirectives(LoaderModuleName(address), registry, hyphenate)
  {
    var moduleName := LoaderModuleName(address);
    var found := ModuleDirectives(moduleName, registry);
    if found.Err? {
      r := Err(found.error);
    } else {
      var elements := GetCustomElements(found.value, moduleName, hyphenate);
      r := Ok(elements);
    }
  }
}
