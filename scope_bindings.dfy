/** Classification of a directive's isolate-scope declaration into bindables. */
module ScopeBindings {
  import opened Wrappers
  import opened Ng

  /** A scope property: its name and its binding symbol, `None` when the spec has none. */
  datatype Bindable = Bindable(name: string, kind: Option<char>)

  /** The characters of the class `[@=<&]`. */
  predicate IsSymbol(c: char)
  {
    c == '@' || c == '=' || c == '<' || c == '&'
  }

  /** The characters JavaScript's `.` does not match. */
  predicate IsLineTerminator(c: char)
  {
    c == '\n' || c == '\r' || c == '\U{2028}' || c == '\U{2029}'
  }

  /** The index of the first symbol in `s`. */
  function FindSymbol(s: string): (r: Option<nat>)
    ensures r.Some? ==> r.value < |s| && IsSymbol(s[r.value])
    ensures r.Some? ==> forall j :: 0 <= j < r.value ==> !IsSymbol(s[j])
    ensures r.None? ==> forall j :: 0 <= j < |s| ==> !IsSymbol(s[j])
  {
    if |s| == 0 then None
    else if IsSymbol(s[0]) then Some(0)
    else match FindSymbol(s[1..])
      case None => None
      case Some(k) => Some(k + 1)
  }

  /** The end of the longest run, from `i`, of characters that `.` matches. */
  function RunEnd(s: string, i: nat): (j: nat)
    requires i <= |s|
    ensures i <= j <= |s|
    ensures forall k :: i <= k < j ==> !IsLineTerminator(s[k])
    ensures j < |s| ==> IsLineTerminator(s[j])
    decreases |s| - i
  {
    if i == |s| || IsLineTerminator(s[i]) then i else RunEnd(s, i + 1)
  }

  /** The captures of a successful match: group 1, and group 2 when it took part. */
  datatype Match = Match(symbol: char, alias: Option<string>)

  /** `/([@=<&])(.+)?/.exec(spec)`, with `None` for a failed match. */
  function ExecSpec(spec: string): Option<Match>
  {
    match FindSymbol(spec)
    case None => None
    case Some(i) =>
      var j := RunEnd(spec, i + 1);
      Some(Match(spec[i], if j == i + 1 then None else Some(spec[i + 1..j])))
  }

  /** One step of getBindables: `{ name: attrName || name, type }`. */
  function Classify(e: Entry): Bindable
  {
    match ExecSpec(e.spec)
    case None => Bindable(e.key, None)
    case Some(m) => Bindable(if m.alias.Some? then m.alias.value else e.key, Some(m.symbol))
  }

  /**
   * A spec whose first symbol is at `i`, followed by a run of non-terminators
   * up to `j`, classifies as that symbol, named by the run or, when the run is
   * empty, by the key.
   */
  lemma ClassifyWithSymbol(e: Entry, i: nat, j: nat)
    requires i < j <= |e.spec|
    requires IsSymbol(e.spec[i])
    requires forall k :: 0 <= k < i ==> !IsSymbol(e.spec[k])
    requires forall k :: i < k < j ==> !IsLineTerminator(e.spec[k])
    requires j == |e.spec| || IsLineTerminator(e.spec[j])
    ensures Classify(e) == Bindable(if j == i + 1 then e.key else e.spec[i + 1..j], Some(e.spec[i]))
  {
  }

  /** A spec without any symbol classifies with no type, named by the key. */
  lemma ClassifyWithoutSymbol(e: Entry)
    requires forall k :: 0 <= k < |e.spec| ==> !IsSymbol(e.spec[k])
    ensures Classify(e) == Bindable(e.key, None)
  {
  }

  /** On a spec without line terminators, the alias is all of the text after the first symbol. */
  lemma ClassifySingleLine(e: Entry, i: nat)
    requires i < |e.spec|
    requires IsSymbol(e.spec[i])
    requires forall k :: 0 <= k < i ==> !IsSymbol(e.spec[k])
    requires forall k :: 0 <= k < |e.spec| ==> !IsLineTerminator(e.spec[k])
    ensures Classify(e).kind == Some(e.spec[i])
    ensures Classify(e).name == if i + 1 == |e.spec| then e.key else e.spec[i + 1..]
  {
    ClassifyWithSymbol(e, i, |e.spec|);
  }

  /** The regular expression is not anchored and its alias group is greedy and unchecked. */
  lemma ClassifyQuirks()
    ensures Classify(Entry("value", "=?")) == Bindable("?", Some('='))
    ensures Classify(Entry("value", "=")) == Bindable("value", Some('='))
    ensures Classify(Entry("value", "x&y")) == Bindable("y", Some('&'))
    ensures Classify(Entry("value", "@<b")) == Bindable("<b", Some('@'))
    ensures Classify(Entry("value", "=\nb")) == Bindable("value", Some('='))
    ensures Classify(Entry("value", "text")) == Bindable("value", None)
  {
    ClassifyWithSymbol(Entry("value", "=?"), 0, 2);
    ClassifyWithSymbol(Entry("value", "="), 0, 1);
    ClassifyWithSymbol(Entry("value", "x&y"), 1, 3);
    ClassifyWithSymbol(Entry("value", "@<b"), 0, 3);
    ClassifyWithSymbol(Entry("value", "=\nb"), 0, 1);
    ClassifyWithoutSymbol(Entry("value", "text"));
  }

  /** The classification of every entry, in order. */
  function ClassifyAll(entries: seq<Entry>): seq<Bindable>
  {
    seq(|entries|, i requires 0 <= i < |entries| => Classify(entries[i]))
  }

  /** getBindables: one bindable per scope key, in the keys' enumeration order. */
  method GetBindables(isolateScope: seq<Entry>) returns (bindables: seq<Bindable>)
    ensures |bindables| == |isolateScope|
    ensures forall i :: 0 <= i < |isolateScope| ==> bindables[i] == Classify(isolateScope[i])
  {
    bindables := [];
    for i := 0 to |isolateScope|
      invariant |bindables| == i
      invariant forall k :: 0 <= k < i ==> bindables[k] == Classify(isolateScope[k])
    {
      bindables := bindables + [Classify(isolateScope[i])];
    }
  }

  /** getScopeDefinition: `bindToController` when its typeof is 'object', otherwise `scope`. */
  function ScopeDefinition(d: Directive): JsValue
  {
    if TypeOf(d.bindToController) == "object" then d.bindToController else d.scope
  }

  /** `scope && typeof scope === 'object'`. */
  predicate IsIsolateScope(v: JsValue)
  {
    Truthy(v) && TypeOf(v) == "object"
  }

  /** The bindables createDirectiveCustomElement collects for a directive. */
  function DeclaredBindables(d: Directive): seq<Bindable>
  {
    var s := ScopeDefinition(d);
    if IsIsolateScope(s) && s.Object? then ClassifyAll(s.entries) else []
  }

  /**
   * `bindToController` is consulted exactly when it is an object or null, and
   * the consulted value yields bindables only when it is an object: a null
   * `bindToController` hides `scope`, a `true` one defers to it.
   */
  lemma ScopeChoice(d: Directive)
    ensures d.bindToController.Object? ==> DeclaredBindables(d) == ClassifyAll(d.bindToController.entries)
    ensures d.bindToController.Null? ==> DeclaredBindables(d) == []
    ensures !d.bindToController.Object? && !d.bindToController.Null? ==>
      DeclaredBindables(d) == if d.scope.Object? then ClassifyAll(d.scope.entries) else []
  {
  }
}
