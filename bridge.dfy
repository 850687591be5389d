/**
 * The runtime side: the AngularDirective class each synthesized element
 * instantiates, and the module-level counter that names its host modules.
 */
module Bridge {
  import opened Wrappers
  import opened Seqs
  import opened Text
  import opened ScopeBindings
  import opened Template
  import opened Elements

  /** `aureliaHost${id}`. */
  function HostModuleName(id: nat): string
  {
    "aureliaHost" + DecimalString(id)
  }

  /** Different ids name different host modules. */
  lemma HostModuleNamesDistinct(i: nat, j: nat)
    requires i != j
    ensures HostModuleName(i) != HostModuleName(j)
  {
    var prefix := "aureliaHost";
    if HostModuleName(i) == HostModuleName(j) {
      assert HostModuleName(i)[|prefix|..] == DecimalString(i);
      assert HostModuleName(j)[|prefix|..] == DecimalString(j);
      DecimalStringInjective(i, j);
    }
  }

  /** The module-level `let hostId = 0`, with the ids it has handed out. */
  class HostIdCounter {
    var hostId: nat
    ghost var issued: set<nat>

    ghost predicate Valid()
      reads this
    {
      forall i :: i in issued ==> i < hostId
    }

    constructor ()
      ensures Valid() && hostId == 0 && issued == {}
    {
      hostId := 0;
      issued := {};
    }

    /** `hostId++`: the current id, never handed out before. */
    method Next() returns (id: nat)
      requires Valid()
      modifies this
      ensures Valid()
      ensures id == old(hostId) && hostId == old(hostId) + 1
      ensures id !in old(issued) && issued == old(issued) + {id}
    {
      id := hostId;
      hostId := hostId + 1;
      issued := issued + {id};
    }
  }

  /** What bind hands to `angular.bootstrap`. */
  datatype Bootstrap =
    | WholeElement(modules: seq<string>)
    | BridgeElement(hostModule: string, dependencies: seq<string>, template: string)

  predicate IsTwoWay(b: Bindable)
  {
    b.kind == Some('=')
  }

  /** The names the link function watches: those of `bindables.filter(x => x.type === '=')`. */
  function TwoWayNames(bindables: seq<Bindable>): seq<string>
  {
    var twoWay := Filter(bindables, IsTwoWay);
    seq(|twoWay|, i requires 0 <= i < |twoWay| => twoWay[i].name)
  }

  function NameSet(bindables: seq<Bindable>): set<string>
  {
    set i | 0 <= i < |bindables| :: bindables[i].name
  }

  /** Reading `obj[name]`: a missing property is undefined. */
  function Get<V>(obj: map<string, Option<V>>, name: string): Option<V>
  {
    if name in obj then obj[name] else None
  }

  /** getBoundValues: each bindable's name mapped to the host's current value. */
  function BoundValues<V>(bindables: seq<Bindable>, props: map<string, Option<V>>): map<string, Option<V>>
  {
    map name | name in NameSet(bindables) :: Get(props, name)
  }

  /**
   * `Object.assign($scope, this.getBoundValues())`: every bindable's host value
   * lands in the scope, every other scope property stays as it was.
   */
  function AssignBound<V>(scope: map<string, Option<V>>, bindables: seq<Bindable>, props: map<string, Option<V>>)
    : (s: map<string, Option<V>>)
    ensures forall i :: 0 <= i < |bindables| ==> bindables[i].name in s && s[bindables[i].name] == Get(props, bindables[i].name)
    ensures forall k :: k !in NameSet(bindables) ==> (k in s <==> k in scope)
    ensures forall k :: k !in NameSet(bindables) && k in scope ==> s[k] == scope[k]
  {
    scope + BoundValues(bindables, props)
  }

  /** The effect of a `$watch` listener on the host: only a changed '=' binding is written back. */
  function WriteBack<V(==)>(props: map<string, Option<V>>, bindables: seq<Bindable>, name: string, newValue: Option<V>, oldValue: Option<V>)
    : (r: map<string, Option<V>>)
    ensures forall k :: k != name ==> Get(r, k) == Get(props, k)
    ensures Get(r, name) == if name in TwoWayNames(bindables) && newValue != oldValue then newValue else Get(props, name)
  {
    if name in TwoWayNames(bindables) && newValue != oldValue then props[name := newValue] else props
  }

  /** Every watched name is a bindable name whose declaration binds two-way, and conversely. */
  lemma WatchedIffTwoWay(bindables: seq<Bindable>, hyphenate: string -> string, name: string)
    ensures name in TwoWayNames(bindables) <==>
      exists i :: 0 <= i < |bindables| && bindables[i].name == name &&
        BindableProperties(bindables, hyphenate)[i].defaultBindingMode == TwoWay
  {
    var twoWay := Filter(bindables, IsTwoWay);
    var props := BindableProperties(bindables, hyphenate);
    if name in TwoWayNames(bindables) {
      var k :| 0 <= k < |twoWay| && twoWay[k].name == name;
      var i :| 0 <= i < |bindables| && bindables[i] == twoWay[k];
      assert props[i].defaultBindingMode == TwoWay;
    }
    if exists i :: 0 <= i < |bindables| && bindables[i].name == name && props[i].defaultBindingMode == TwoWay {
      var i :| 0 <= i < |bindables| && bindables[i].name == name && props[i].defaultBindingMode == TwoWay;
      assert bindables[i] in twoWay;
      var k :| 0 <= k < |twoWay| && twoWay[k] == bindables[i];
      assert TwoWayNames(bindables)[k] == name;
    }
  }

  /**
   * A host change copied into the scope and watched back out writes the host
   * the value it already holds: the round trip changes nothing on the host.
   */
  lemma WriteBackOfCopyIsIdentity<V>(scope: map<string, Option<V>>, bindables: seq<Bindable>, props: map<string, Option<V>>,
                                           name: string, oldValue: Option<V>)
    requires name in TwoWayNames(bindables)
    ensures var copied := AssignBound(scope, bindables, props);
      forall k :: Get(WriteBack(props, bindables, name, copied[name], oldValue), k) == Get(props, k)
  {
    var twoWay := Filter(bindables, IsTwoWay);
    var k :| 0 <= k < |twoWay| && twoWay[k].name == name;
    var i :| 0 <= i < |bindables| && bindables[i] == twoWay[k];
    assert bindables[i].name == name;
  }

  /** One instance of the class createCustomElementClass returns. */
  class AngularDirective<V(==)> {
    const elementName: string
    const moduleName: string
    const bindables: seq<Bindable>
    const hyphenate: string -> string

    /** The bindable properties `this[name]` the host binds; a missing one is undefined. */
    var props: map<string, Option<V>>
    /** The bridge directive's isolate scope, as far as the bridge writes it. */
    var scope: map<string, Option<V>>
    /** False while `attrChanged` is the initial `() => null`, true once link has replaced it. */
    var linked: bool
    /** The expressions `$watch`ed on the scope, one per two-way bindable. */
    var watchers: seq<string>
    /** `this.hostModuleName`, undefined until bind allocates one. */
    var hostModuleName: Option<string>
    /** The calls to `angular.bootstrap` made so far. */
    var bootstraps: seq<Bootstrap>

    ghost predicate Valid()
      reads this
    {
      && (linked ==> hostModuleName.Some? && |bindables| > 0 && watchers == TwoWayNames(bindables))
      && (!linked ==> watchers == [])
    }

    constructor (elementName: string, moduleName: string, bindables: seq<Bindable>, hyphenate: string -> string)
      ensures Valid()
      ensures this.elementName == elementName && this.moduleName == moduleName
      ensures this.bindables == bindables && this.hyphenate == hyphenate
      ensures props == map[] && scope == map[] && !linked && hostModuleName == None && bootstraps == []
    {
      this.elementName := elementName;
      this.moduleName := moduleName;
      this.bindables := bindables;
      this.hyphenate := hyphenate;
      props := map[];
      scope := map[];
      linked := false;
      watchers := [];
      hostModuleName := None;
      bootstraps := [];
    }

    /** getBoundValues: exactly the bindable names, each with the host's current value. */
    method GetBoundValues() returns (values: map<string, Option<V>>)
      ensures values.Keys == NameSet(bindables)
      ensures forall name :: name in values ==> values[name] == Get(props, name)
    {
      values := map[];
      for i := 0 to |bindables|
        invariant values.Keys == NameSet(bindables[..i])
        invariant forall name :: name in values ==> values[name] == Get(props, name)
      {
        var name := bindables[i].name;
        assert NameSet(bindables[..i + 1]) == NameSet(bindables[..i]) + {name} by {
          assert forall k :: 0 <= k < i ==> bindables[..i + 1][k] == bindables[..i][k];
          assert bindables[..i + 1][i].name == name;
        }
        values := values[name := Get(props, name)];
      }
      assert bindables[..|bindables|] == bindables;
    }

    /**
     * bind: without bindables, bootstrap the host element itself and allocate
     * nothing; otherwise take the next host id, register the bridge directive
     * on a new host module and bootstrap it, which links the bridge at once.
     */
    method Bind(counter: HostIdCounter)
      requires Valid() && counter.Valid()
      modifies this, counter
      ensures Valid() && counter.Valid()
      ensures props == old(props)
      ensures |bindables| == 0 ==>
        && unchanged(counter)
        && hostModuleName == old(hostModuleName) && scope == old(scope)
        && linked == old(linked) && watchers == old(watchers)
        && bootstraps == old(bootstraps) + [WholeElement([moduleName])]
      ensures |bindables| > 0 ==>
        && counter.hostId == old(counter.hostId) + 1
        && counter.issued == old(counter.issued) + {old(counter.hostId)}
        && hostModuleName == Some(HostModuleName(old(counter.hostId)))
        && (forall j :: j in old(counter.issued) ==> HostModuleName(j) != hostModuleName.value)
        && bootstraps == old(bootstraps) +
             [BridgeElement(hostModuleName.value, [moduleName], BridgeTemplateAsWritten(elementName, bindables, hyphenate))]
        && linked && watchers == TwoWayNames(bindables)
        && scope == BoundValues(bindables, props)
    {
      if |bindables| == 0 {
        bootstraps := bootstraps + [WholeElement([moduleName])];
        return;
      }
      var id := counter.Next();
      forall j | j in old(counter.issued)
        ensures HostModuleName(j) != HostModuleName(id)
      {
        HostModuleNamesDistinct(j, id);
      }
      hostModuleName := Some(HostModuleName(id));
      // bootstrapping compiles the bridge element against a fresh isolate scope
      // and runs the bridge directive's link function before it returns
      scope := map[];
      Link();
      assert scope == BoundValues(bindables, props) by {
        var b := BoundValues(bindables, props);
        assert map[] + b == b;
      }
      bootstraps := bootstraps + [BridgeElement(hostModuleName.value, [moduleName], BridgeTemplateAsWritten(elementName, bindables, hyphenate))];
    }

    /**
     * The bridge directive's link function: copy the host values into the
     * scope, make attrChanged live, and watch each two-way name.
     */
    method Link()
      requires Valid() && hostModuleName.Some? && |bindables| > 0
      modifies this`scope, this`linked, this`watchers
      ensures Valid()
      ensures scope == AssignBound(old(scope), bindables, props)
      ensures linked && watchers == TwoWayNames(bindables)
    {
      var values := GetBoundValues();
      assert values == BoundValues(bindables, props);
      scope := scope + values;
      linked := true;
      var twoWay := Filter(bindables, IsTwoWay);
      var watched := [];
      for i := 0 to |twoWay|
        invariant watched == seq(i, k requires 0 <= k < i => twoWay[k].name)
      {
        watched := watched + [twoWay[i].name];
      }
      watchers := watched;
    }

    /** attrChanged: a no-op until link, then a copy of every host value into the scope. */
    method AttrChanged()
      requires Valid()
      modifies this`scope
      ensures linked ==> scope == AssignBound(old(scope), bindables, props)
      ensures !linked ==> scope == old(scope)
    {
      if linked {
        var values := GetBoundValues();
        assert values == BoundValues(bindables, props);
        scope := scope + values;
      }
    }

    /**
     * A `$watch` listener firing with `(newValue, oldValue)`: once linked, a
     * watched two-way name whose value changed is written back to the host.
     */
    method WatchFire(name: string, newValue: Option<V>, oldValue: Option<V>)
      requires Valid()
      modifies this`props
      ensures props == if linked then WriteBack(old(props), bindables, name, newValue, oldValue) else old(props)
    {
      if linked && name in watchers && newValue != oldValue {
        props := props[name := newValue];
      }
    }
  }
}
