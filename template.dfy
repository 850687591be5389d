/** getTemplateHtml: the markup the bridge directive renders. */
module Template {
  import opened Wrappers
  import opened Text
  import opened ScopeBindings

  /** The attribute value for a bindable: its name, called when its symbol is '&'. */
  function Expression(b: Bindable): (e: string)
    ensures |e| >= |b.name| && e[..|b.name|] == b.name
    ensures |e| == |b.name| + 2 <==> b.kind == Some('&')
    ensures |e| != |b.name| ==> e[|b.name|..] == "()"
  {
    if b.kind == Some('&') then b.name + "()" else b.name
  }

  /** `${hyphenate(x.name)}="${expression}"`. */
  function AttrString(b: Bindable, hyphenate: string -> string): string
  {
    hyphenate(b.name) + "=\"" + Expression(b) + "\""
  }

  function AttrStrings(bindables: seq<Bindable>, hyphenate: string -> string): (attrs: seq<string>)
    ensures |attrs| == |bindables|
  {
    seq(|bindables|, i requires 0 <= i < |bindables| => AttrString(bindables[i], hyphenate))
  }

  /** `<${tag} ${attrStrings.join(' ')}></${tag}>`, with the tag as a parameter. */
  function GetTemplateHtml(tag: string, bindables: seq<Bindable>, hyphenate: string -> string): string
  {
    "<" + tag + " " + Join(AttrStrings(bindables, hyphenate), " ") + "></" + tag + ">"
  }

  /** Where the attribute of `bindables[i]` starts in the template. */
  function AttrPosition(tag: string, bindables: seq<Bindable>, hyphenate: string -> string, i: nat): nat
    requires i < |bindables|
  {
    |tag| + 2 + Offset(AttrStrings(bindables, hyphenate), " ", i)
  }

  /** The template opens and closes with the tag. */
  lemma TemplateFrame(tag: string, bindables: seq<Bindable>, hyphenate: string -> string)
    ensures var t := GetTemplateHtml(tag, bindables, hyphenate);
      |t| >= 2 * |tag| + 6 &&
      t[..|tag| + 2] == "<" + tag + " " &&
      t[|t| - |tag| - 4..] == "></" + tag + ">"
  {
    var body := Join(AttrStrings(bindables, hyphenate), " ");
    var t := GetTemplateHtml(tag, bindables, hyphenate);
    assert t == ("<" + tag + " ") + body + ("></" + tag + ">");
  }

  /** Each bindable's attribute appears whole in the template. */
  lemma TemplateAttributeAt(tag: string, bindables: seq<Bindable>, hyphenate: string -> string, i: nat)
    requires i < |bindables|
    ensures var t := GetTemplateHtml(tag, bindables, hyphenate);
      var p := AttrPosition(tag, bindables, hyphenate, i);
      var a := AttrString(bindables[i], hyphenate);
      p + |a| <= |t| && t[p..p + |a|] == a
  {
    var attrs := AttrStrings(bindables, hyphenate);
    var body := Join(attrs, " ");
    var open := "<" + tag + " ";
    var close := "></" + tag + ">";
    var o := Offset(attrs, " ", i);
    var n := |attrs[i]|;
    JoinAt(attrs, " ", i);
    assert GetTemplateHtml(tag, bindables, hyphenate) == open + (body + close);
    SliceAfterPrefix(open, body + close, o, n);
    SliceInPrefix(body, close, o, n);
  }

  /** The attributes follow one another in bindable order, one space apart. */
  lemma TemplateAttributesInOrder(tag: string, bindables: seq<Bindable>, hyphenate: string -> string, i: nat)
    requires i + 1 < |bindables|
    ensures var t := GetTemplateHtml(tag, bindables, hyphenate);
      var e := AttrPosition(tag, bindables, hyphenate, i) + |AttrString(bindables[i], hyphenate)|;
      && e < |t| && t[e] == ' '
      && AttrPosition(tag, bindables, hyphenate, i + 1) == e + 1
  {
    var attrs := AttrStrings(bindables, hyphenate);
    var body := Join(attrs, " ");
    var open := "<" + tag + " ";
    var close := "></" + tag + ">";
    var o := Offset(attrs, " ", i) + |attrs[i]|;
    JoinSeparatorAt(attrs, " ", i);
    assert GetTemplateHtml(tag, bindables, hyphenate) == open + (body + close);
    SliceAfterPrefix(open, body + close, o, 1);
    SliceInPrefix(body, close, o, 1);
  }

  /**
   * `></tag>` follows the last attribute directly; with no bindables the
   * template is the open tag, a space and the close tag.
   */
  lemma TemplateClose(tag: string, bindables: seq<Bindable>, hyphenate: string -> string)
    ensures var t := GetTemplateHtml(tag, bindables, hyphenate);
      var n := |bindables|;
      && (n == 0 ==> |t| == 2 * |tag| + 6)
      && (n > 0 ==> AttrPosition(tag, bindables, hyphenate, n - 1) + |AttrString(bindables[n - 1], hyphenate)| == |t| - |tag| - 4)
  {
    var attrs := AttrStrings(bindables, hyphenate);
    if |bindables| > 0 {
      JoinLength(attrs, " ");
    }
  }

  /**
   * The bridge directive's template as getBridgeDirective requests it: the
   * caller passes `elementName` but getTemplateHtml reads `name`, so the tag
   * is JavaScript's `undefined`, which a template literal renders as text.
   */
  function BridgeTemplateAsWritten(elementName: string, bindables: seq<Bindable>, hyphenate: string -> string): string
  {
    GetTemplateHtml("undefined", bindables, hyphenate)
  }

  /** The template with the directive's own element as its tag. */
  function BridgeTemplate(elementName: string, bindables: seq<Bindable>, hyphenate: string -> string): (t: string)
    ensures |t| >= 2 * |elementName| + 6
    ensures t[..|elementName| + 2] == "<" + elementName + " "
    ensures t[|t| - |elementName| - 4..] == "></" + elementName + ">"
  {
    TemplateFrame(elementName, bindables, hyphenate);
    GetTemplateHtml(elementName, bindables, hyphenate)
  }

  /** The template as written never names the element, whatever the element is called. */
  lemma BridgeTemplateMissesElement(elementName: string, bindables: seq<Bindable>, hyphenate: string -> string)
    requires elementName != "undefined"
    ensures BridgeTemplateAsWritten(elementName, bindables, hyphenate) != BridgeTemplate(elementName, bindables, hyphenate)
  {
    var written := BridgeTemplateAsWritten(elementName, bindables, hyphenate);
    var intended := BridgeTemplate(elementName, bindables, hyphenate);
    var body := Join(AttrStrings(bindables, hyphenate), " ");
    assert |written| == |body| + 2 * 9 + 6;
    assert |intended| == |body| + 2 * |elementName| + 6;
    if |elementName| == 9 {
      TemplateFrame("undefined", bindables, hyphenate);
      assert written[1..10] == "undefined";
      assert intended[1..10] == elementName;
    }
  }

  /** A concrete input showing the defect: the bridge renders an `undefined` element. */
  lemma BridgeTemplateExample(hyphenate: string -> string)
    requires hyphenate("value") == "value"
    ensures BridgeTemplateAsWritten("user-card", [Bindable("value", Some('='))], hyphenate)
      == "<undefined value=\"value\"></undefined>"
  {
    var bs := [Bindable("value", Some('='))];
    var a := AttrString(bs[0], hyphenate);
    assert a == "value=\"value\"";
    assert AttrStrings(bs, hyphenate) == [a];
    assert Join([a], " ") == a;
    ExampleMarkup(a, "undefined");
  }

  lemma ExampleMarkup(a: string, tag: string)
    requires a == "value=\"value\""
    requires tag == "undefined"
    ensures "<" + tag + " " + a + "></" + tag + ">" == "<undefined value=\"value\"></undefined>"
  {
  }
}
