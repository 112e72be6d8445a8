/**
  `RepeatComponentRenderer`: the markup a repeat component writes around its
  children, as a trace of writer events. What `ComponentUtils` resolves (the
  tag, the component class, the tag's attributes, the class list and the
  `shouldWriteAttribute` test) and what `ObjectUtils.size` answers are inputs.
 */
module RepeatRenderer {
  import opened Wrappers
  import opened JavaStrings
  import opened ParamMap
  import opened Markup

  /** One entry of the attribute map; `None` stands for a null value. */
  datatype Attribute = Attribute(name: string, value: Option<string>)

  /**
    A repeat component as the renderer sees it:
    `tag` is `getComponentTag` (null for none), `componentClass` is
    `getComponentClass`, `tagAttributes` is `getAttributes(component, tag)` in
    its iteration order, `classes` is `getComponentClasses`, `valueSize` is
    `ObjectUtils.size(getValue())` or `None` for a null value, and `children`
    names the child components in order.
   */
  datatype Repeat = Repeat(
    tag: Option<string>,
    componentClass: Option<string>,
    tagAttributes: seq<Attribute>,
    classes: seq<string>,
    valueSize: Option<nat>,
    dataEmpty: Option<string>,
    dataEmptyOption: Option<string>,
    children: seq<string>)

  /** The names of an attribute list, in order. */
  function AttrNames(attrs: seq<Attribute>): (r: seq<string>)
    ensures |r| == |attrs|
  {
    if |attrs| == 0 then [] else [attrs[0].name] + AttrNames(attrs[1..])
  }

  /** The `i`-th name is the name of the `i`-th attribute. */
  lemma {:induction false} AttrNamesIndex(attrs: seq<Attribute>)
    ensures forall i :: 0 <= i < |attrs| ==> AttrNames(attrs)[i] == attrs[i].name
  {
    if |attrs| > 0 {
      AttrNamesIndex(attrs[1..]);
      assert AttrNames(attrs) == [attrs[0].name] + AttrNames(attrs[1..]);
    }
  }

  /** `attrs.put(name, value)`: an existing name keeps its place and takes the value; a new one goes last. */
  function PutAttr(attrs: seq<Attribute>, name: string, value: Option<string>): (r: seq<Attribute>)
    ensures Attribute(name, value) in r
    ensures forall a :: a in r && a.name != name ==> a in attrs
    ensures forall a :: a in attrs && a.name != name ==> a in r
    decreases |attrs|
  {
    if |attrs| == 0 then [Attribute(name, value)]
    else if attrs[0].name == name then [Attribute(name, value)] + attrs[1..]
    else [attrs[0]] + PutAttr(attrs[1..], name, value)
  }

  /** `put` keeps the names in place and appends a new name last. */
  lemma {:induction false} PutAttrNames(attrs: seq<Attribute>, name: string, value: Option<string>)
    ensures AttrNames(PutAttr(attrs, name, value))
      == if name in AttrNames(attrs) then AttrNames(attrs) else AttrNames(attrs) + [name]
    decreases |attrs|
  {
    if |attrs| > 0 {
      var names := AttrNames(attrs);
      var rest := AttrNames(attrs[1..]);
      assert names == [attrs[0].name] + rest;
      var r := PutAttr(attrs, name, value);
      if attrs[0].name == name {
        assert r == [Attribute(name, value)] + attrs[1..];
        assert r[1..] == attrs[1..];
        assert AttrNames(r) == [name] + AttrNames(r[1..]);
      } else {
        PutAttrNames(attrs[1..], name, value);
        assert r == [attrs[0]] + PutAttr(attrs[1..], name, value);
        assert r[1..] == PutAttr(attrs[1..], name, value);
        assert AttrNames(r) == [attrs[0].name] + AttrNames(r[1..]);
        assert name in names <==> name in rest;
      }
    }
  }

  /** `put` keeps the names of a map distinct. */
  lemma PutAttrDistinct(attrs: seq<Attribute>, name: string, value: Option<string>)
    requires Distinct(AttrNames(attrs))
    ensures Distinct(AttrNames(PutAttr(attrs, name, value)))
  {
    PutAttrNames(attrs, name, value);
    var ns := AttrNames(attrs);
    if name !in ns {
      var ns2 := ns + [name];
      forall i, j | 0 <= i < j < |ns2| ensures ns2[i] != ns2[j] {
        if j == |ns| {
          assert ns2[i] == ns[i];
        }
      }
    }
  }

  /** The attribute map `encodeBegin` builds: the tag's attributes only without a component class, and the joined classes. */
  function AttributeMap(c: Repeat): seq<Attribute> {
    var base := if c.componentClass.None? then c.tagAttributes else [];
    if |c.classes| != 0 then PutAttr(base, "class", Some(Join(" ", c.classes))) else base
  }

  /** The attributes written, in map order: those `shouldWrite` allows whose value is not null. */
  function WrittenAttributes(attrs: seq<Attribute>, shouldWrite: string -> bool): (r: seq<Event>)
    ensures forall e :: e in r ==> e.Attr? && Attribute(e.name, Some(e.value)) in attrs && shouldWrite(e.name)
    ensures forall a :: a in attrs && a.value.Some? && shouldWrite(a.name) ==> Attr(a.name, a.value.value) in r
    decreases |attrs|
  {
    if |attrs| == 0 then []
    else
      var a := attrs[0];
      (if shouldWrite(a.name) && a.value.Some? then [Attr(a.name, a.value.value)] else [])
      + WrittenAttributes(attrs[1..], shouldWrite)
  }

  /** `componentTag.matches("tbody")` and `matches("tbody|tr")`: whole-string matches. */
  predicate IsBody(tag: string) { tag == "tbody" }
  predicate IsBodyOrRow(tag: string) { tag == "tbody" || tag == "tr" }

  /**
    The empty-state placeholder: the text in a cell of a new row inside a
    `tbody`, in a cell inside a `tr`, and bare inside any other element.
   */
  function Placeholder(tag: string, text: string): seq<Event> {
    (if IsBody(tag) then [Start("tr")] else [])
    + (if IsBodyOrRow(tag) then [Start("td")] else [])
    + [Text(text)]
    + (if IsBodyOrRow(tag) then [End("td")] else [])
    + (if IsBody(tag) then [End("tr")] else [])
  }

  /**
    The placeholder's three shapes; each writes the text once, encodes no
    child, and closes every element it opens.
   */
  lemma PlaceholderShape(tag: string, text: string)
    ensures tag == "tbody" ==> Placeholder(tag, text) == [Start("tr"), Start("td"), Text(text), End("td"), End("tr")]
    ensures tag == "tr" ==> Placeholder(tag, text) == [Start("td"), Text(text), End("td")]
    ensures tag != "tbody" && tag != "tr" ==> Placeholder(tag, text) == [Text(text)]
    ensures Texts(Placeholder(tag, text)) == [text]
    ensures Children(Placeholder(tag, text)) == []
    ensures WellFormed(Placeholder(tag, text))
  {
    var r := Placeholder(tag, text);
    if tag == "tbody" {
      assert r == [Start("tr"), Start("td"), Text(text), End("td"), End("tr")];
      RowFacts(text);
    } else if tag == "tr" {
      assert r == [Start("td"), Text(text), End("td")];
      CellFacts(text);
    } else {
      assert r == [Text(text)];
      OneEvent(Text(text), Writer([], false));
    }
  }

  /** A row holding a cell holding a text: the text once, no child, and it closes itself. */
  lemma RowFacts(text: string)
    ensures Texts([Start("tr"), Start("td"), Text(text), End("td"), End("tr")]) == [text]
    ensures Children([Start("tr"), Start("td"), Text(text), End("td"), End("tr")]) == []
    ensures WellFormed([Start("tr"), Start("td"), Text(text), End("td"), End("tr")])
  {
    var cell := [Start("td"), Text(text), End("td")];
    var row := [Start("tr"), Start("td"), Text(text), End("td"), End("tr")];
    assert row == [Start("tr")] + cell + [End("tr")];
    CellFacts(text);
    OneEvent(Start("tr"), Writer([], false));
    OneEvent(End("tr"), Writer(["tr"], false));
    TextsConcat([Start("tr")], cell);
    TextsConcat([Start("tr")] + cell, [End("tr")]);
    ChildrenConcat([Start("tr")], cell);
    ChildrenConcat([Start("tr")] + cell, [End("tr")]);
    RunConcat([Start("tr")], cell, Writer([], false));
    RunUnder(cell, ["tr"], [], true);
    assert ["tr"] + [] == ["tr"];
    RunConcat([Start("tr")] + cell, [End("tr")], Writer([], false));
  }

  /** A cell holding a text: the text once, no child, and from a fresh writer it closes itself. */
  lemma CellFacts(text: string)
    ensures Texts([Start("td"), Text(text), End("td")]) == [text]
    ensures Children([Start("td"), Text(text), End("td")]) == []
    ensures Run([Start("td"), Text(text), End("td")], Writer([], false)) == Some(Writer([], false))
    ensures Run([Start("td"), Text(text), End("td")], Writer([], true)) == Some(Writer([], false))
  {
    var cell := [Start("td"), Text(text), End("td")];
    assert cell == [Start("td")] + [Text(text)] + [End("td")];
    OneEvent(Start("td"), Writer([], false));
    OneEvent(Text(text), Writer(["td"], true));
    OneEvent(End("td"), Writer(["td"], false));
    TextsConcat([Start("td")], [Text(text)]);
    TextsConcat([Start("td")] + [Text(text)], [End("td")]);
    ChildrenConcat([Start("td")], [Text(text)]);
    ChildrenConcat([Start("td")] + [Text(text)], [End("td")]);
    forall inTag: bool
      ensures Run(cell, Writer([], inTag)) == Some(Writer([], false))
    {
      OneEvent(Start("td"), Writer([], inTag));
      RunConcat([Start("td")], [Text(text)], Writer([], inTag));
      assert [] + ["td"] == ["td"];
      RunConcat([Start("td")] + [Text(text)], [End("td")], Writer([], inTag));
    }
  }

  /** The value is null or has no elements. */
  predicate ValueEmpty(c: Repeat) {
    c.valueSize.None? || c.valueSize.value == 0
  }

  /** The empty-state text is written: a tag, an empty value and a `dataEmpty` text. */
  predicate WritesEmptyState(c: Repeat) {
    c.tag.Some? && ValueEmpty(c) && c.dataEmpty.Some?
  }

  /** `StringUtils.isEmpty(dataEmptyOption)` fails: the option text is neither null nor "". */
  predicate WritesOption(c: Repeat) {
    c.dataEmptyOption.Some? && c.dataEmptyOption.value != ""
  }

  /** `<option value="">text</option>`. */
  function OptionElement(text: string): seq<Event> {
    [Start("option"), Attr("value", ""), Text(text), End("option")]
  }

  /** What `encodeBegin` writes when there is a tag: the start tag, its attributes, the empty-state placeholder. */
  function TagPart(c: Repeat, shouldWrite: string -> bool): seq<Event> {
    if c.tag.None? then []
    else
      var tag := c.tag.value;
      [Start(tag)] + WrittenAttributes(AttributeMap(c), shouldWrite)
      + (if WritesEmptyState(c) then Placeholder(tag, c.dataEmpty.value) else [])
  }

  /** What `encodeBegin` writes last: the empty option, when there is an option text. */
  function OptionPart(c: Repeat): seq<Event> {
    if WritesOption(c) then OptionElement(c.dataEmptyOption.value) else []
  }

  /**
    Where the parts of `encodeBegin` put things when there is a tag: the start
    tag, then exactly the written attributes, then the empty-state placeholder
    in its shape for the tag (or nothing), then the option element (or nothing).
   */
  lemma BeginLayout(c: Repeat, shouldWrite: string -> bool)
    ensures c.tag.Some? ==>
      var r := TagPart(c, shouldWrite) + OptionPart(c);
      var k := |WrittenAttributes(AttributeMap(c), shouldWrite)|;
      var opt := if WritesOption(c) then 4 else 0;
      && 1 + k + opt <= |r|
      && r[1..1 + k] == WrittenAttributes(AttributeMap(c), shouldWrite)
      && (!WritesEmptyState(c) ==> |r| == 1 + k + opt)
      && (WritesEmptyState(c) && c.tag.value == "tbody" ==>
            r[1 + k..|r| - opt] == [Start("tr"), Start("td"), Text(c.dataEmpty.value), End("td"), End("tr")])
      && (WritesEmptyState(c) && c.tag.value == "tr" ==>
            r[1 + k..|r| - opt] == [Start("td"), Text(c.dataEmpty.value), End("td")])
      && (WritesEmptyState(c) && c.tag.value != "tbody" && c.tag.value != "tr" ==>
            r[1 + k..|r| - opt] == [Text(c.dataEmpty.value)])
  {
    if c.tag.Some? {
      var tag := c.tag.value;
      var attrs := WrittenAttributes(AttributeMap(c), shouldWrite);
      var ph := if WritesEmptyState(c) then Placeholder(tag, c.dataEmpty.value) else [];
      assert |OptionPart(c)| == if WritesOption(c) then 4 else 0;
      FourParts(Start(tag), attrs, ph, OptionPart(c));
      if WritesEmptyState(c) {
        PlaceholderShape(tag, c.dataEmpty.value);
      }
    }
  }

  /** `encodeBegin`. */
  function EncodeBegin(c: Repeat, shouldWrite: string -> bool): (r: seq<Event>)
    ensures c.tag.None? ==> r == if WritesOption(c) then OptionElement(c.dataEmptyOption.value) else []
    ensures c.tag.Some? ==> |r| > 0 && r[0] == Start(c.tag.value)
    ensures Texts(r) == (if WritesEmptyState(c) then [c.dataEmpty.value] else [])
                       + (if WritesOption(c) then [c.dataEmptyOption.value] else [])
    ensures WritesOption(c) ==> |r| >= 4 && r[|r| - 4..] == OptionElement(c.dataEmptyOption.value)
    ensures Children(r) == []
    ensures c.tag.Some? ==>
      var k := |WrittenAttributes(AttributeMap(c), shouldWrite)|;
      var opt := if WritesOption(c) then 4 else 0;
      && 1 + k + opt <= |r|
      && r[1..1 + k] == WrittenAttributes(AttributeMap(c), shouldWrite)
      && (!WritesEmptyState(c) ==> |r| == 1 + k + opt)
      && (WritesEmptyState(c) && c.tag.value == "tbody" ==>
            r[1 + k..|r| - opt] == [Start("tr"), Start("td"), Text(c.dataEmpty.value), End("td"), End("tr")])
      && (WritesEmptyState(c) && c.tag.value == "tr" ==>
            r[1 + k..|r| - opt] == [Start("td"), Text(c.dataEmpty.value), End("td")])
      && (WritesEmptyState(c) && c.tag.value != "tbody" && c.tag.value != "tr" ==>
            r[1 + k..|r| - opt] == [Text(c.dataEmpty.value)])
  {
    BeginLayout(c, shouldWrite);
    TagPartFacts(c, shouldWrite);
    OptionFacts(c);
    TextsConcat(TagPart(c, shouldWrite), OptionPart(c));
    ChildrenConcat(TagPart(c, shouldWrite), OptionPart(c));
    TagPart(c, shouldWrite) + OptionPart(c)
  }

  /** The four parts of `[s] + attrs + ph + op` sit at their offsets. */
  lemma FourParts(s: Event, attrs: seq<Event>, ph: seq<Event>, op: seq<Event>)
    ensures var r := [s] + attrs + ph + op;
      && |r| == 1 + |attrs| + |ph| + |op|
      && r[0] == s
      && r[1..1 + |attrs|] == attrs
      && r[1 + |attrs|..|r| - |op|] == ph
      && r[|r| - |op|..] == op
  {
  }

  /** The tag part writes the empty-state text, if any, and encodes no child. */
  lemma TagPartFacts(c: Repeat, shouldWrite: string -> bool)
    ensures Texts(TagPart(c, shouldWrite)) == if WritesEmptyState(c) then [c.dataEmpty.value] else []
    ensures Children(TagPart(c, shouldWrite)) == []
  {
    if c.tag.Some? {
      var tag := c.tag.value;
      var attrs := WrittenAttributes(AttributeMap(c), shouldWrite);
      var rest := if WritesEmptyState(c) then Placeholder(tag, c.dataEmpty.value) else [];
      OneEvent(Start(tag), Writer([], false));
      AttributesOnly(attrs, Writer([tag], true));
      if WritesEmptyState(c) {
        PlaceholderShape(tag, c.dataEmpty.value);
      }
      TextsConcat([Start(tag)], attrs);
      TextsConcat([Start(tag)] + attrs, rest);
      ChildrenConcat([Start(tag)], attrs);
      ChildrenConcat([Start(tag)] + attrs, rest);
    }
  }

  /** The option part writes the option text, if any, and encodes no child. */
  lemma OptionFacts(c: Repeat)
    ensures Texts(OptionPart(c)) == if WritesOption(c) then [c.dataEmptyOption.value] else []
    ensures Children(OptionPart(c)) == []
  {
    if WritesOption(c) {
      var text := c.dataEmptyOption.value;
      var o := OptionElement(text);
      assert o == [Start("option")] + [Attr("value", "")] + [Text(text)] + [End("option")];
      OneEvent(Start("option"), Writer([], false));
      OneEvent(Attr("value", ""), Writer([], false));
      OneEvent(Text(text), Writer([], false));
      OneEvent(End("option"), Writer([], false));
      TextsConcat([Start("option")], [Attr("value", "")]);
      TextsConcat([Start("option")] + [Attr("value", "")], [Text(text)]);
      TextsConcat([Start("option")] + [Attr("value", "")] + [Text(text)], [End("option")]);
      ChildrenConcat([Start("option")], [Attr("value", "")]);
      ChildrenConcat([Start("option")] + [Attr("value", "")], [Text(text)]);
      ChildrenConcat([Start("option")] + [Attr("value", "")] + [Text(text)], [End("option")]);
    }
  }

  /** `encodeChildren`: every child encoded once, in order; nothing when there are no children. */
  function EncodeChildren(children: seq<string>): (r: seq<Event>)
    ensures |r| == |children|
    ensures forall i :: 0 <= i < |children| ==> r[i] == Child(children[i])
    ensures Children(r) == children
    ensures Texts(r) == []
    decreases |children|
  {
    if |children| == 0 then []
    else
      var rest := EncodeChildren(children[1..]);
      OneEvent(Child(children[0]), Writer([], false));
      ChildrenConcat([Child(children[0])], rest);
      TextsConcat([Child(children[0])], rest);
      [Child(children[0])] + rest
  }

  /** `encodeEnd`: the end tag of the component's element, or nothing without a tag. */
  function EncodeEnd(c: Repeat): (r: seq<Event>)
    ensures c.tag.None? ==> r == []
    ensures c.tag.Some? ==> r == [End(c.tag.value)]
  {
    if c.tag.Some? then [End(c.tag.value)] else []
  }

  /** `getRendersChildren()`: the renderer encodes its children itself. */
  function RendersChildren(): (r: bool)
    ensures r
  {
    true
  }

  /** The whole output for a component: `encodeBegin`, `encodeChildren`, `encodeEnd`. */
  function Render(c: Repeat, shouldWrite: string -> bool): seq<Event> {
    EncodeBegin(c, shouldWrite) + EncodeChildren(c.children) + EncodeEnd(c)
  }

  // ---------------------------------------------------------------------
  // Well-formedness
  // ---------------------------------------------------------------------

  /** The placeholder, written inside open elements, closes everything it opens. */
  lemma PlaceholderRun(tag: string, text: string, open: seq<string>, inTag: bool)
    ensures Run(Placeholder(tag, text), Writer(open, inTag)) == Some(Writer(open, false))
  {
    var r := Placeholder(tag, text);
    PlaceholderShape(tag, text);
    assert Run(r, Writer([], inTag)) == Some(Writer([], false)) by {
      CellFacts(text);
      if tag == "tbody" {
        var cell := [Start("td"), Text(text), End("td")];
        assert r == [Start("tr")] + cell + [End("tr")];
        OneEvent(Start("tr"), Writer([], inTag));
        RunConcat([Start("tr")], cell, Writer([], inTag));
        RunUnder(cell, ["tr"], [], true);
        assert ["tr"] + [] == ["tr"];
        RunConcat([Start("tr")] + cell, [End("tr")], Writer([], inTag));
        OneEvent(End("tr"), Writer(["tr"], false));
      } else if tag != "tr" {
        OneEvent(Text(text), Writer([], inTag));
      }
    }
    RunUnder(r, open, [], inTag);
    assert open + [] == open;
  }

  /** The option part, written inside open elements, closes what it opens. */
  lemma OptionRun(c: Repeat, open: seq<string>, inTag: bool)
    ensures Run(OptionPart(c), Writer(open, inTag)).Some?
    ensures Run(OptionPart(c), Writer(open, inTag)).value.open == open
  {
    if WritesOption(c) {
      var text := c.dataEmptyOption.value;
      var o := OptionElement(text);
      var w0 := Writer(open, inTag);
      var w1 := Writer(open + ["option"], true);
      var w3 := Writer(open + ["option"], false);
      assert o == [Start("option")] + [Attr("value", "")] + [Text(text)] + [End("option")];
      OneEvent(Start("option"), w0);
      OneEvent(Attr("value", ""), w1);
      OneEvent(Text(text), w1);
      OneEvent(End("option"), w3);
      RunConcat([Start("option")], [Attr("value", "")], w0);
      RunConcat([Start("option")] + [Attr("value", "")], [Text(text)], w0);
      RunConcat([Start("option")] + [Attr("value", "")] + [Text(text)], [End("option")], w0);
    }
  }

  /** Encoding children closes no element and opens none. */
  lemma {:induction false} ChildrenRun(children: seq<string>, w: Writer)
    ensures Run(EncodeChildren(children), w).Some?
    ensures Run(EncodeChildren(children), w).value.open == w.open
    decreases |children|
  {
    if |children| > 0 {
      var r := EncodeChildren(children);
      assert r[1..] == EncodeChildren(children[1..]);
      ChildrenRun(children[1..], w.(inStartTag := false));
    }
  }

  /** The tag part leaves exactly the component's element open. */
  lemma TagPartRun(c: Repeat, shouldWrite: string -> bool)
    ensures Run(TagPart(c, shouldWrite), Writer([], false)).Some?
    ensures Run(TagPart(c, shouldWrite), Writer([], false)).value.open == if c.tag.Some? then [c.tag.value] else []
  {
    if c.tag.Some? {
      var tag := c.tag.value;
      var w0 := Writer([], false);
      var w1 := Writer([tag], true);
      var attrs := WrittenAttributes(AttributeMap(c), shouldWrite);
      var rest := if WritesEmptyState(c) then Placeholder(tag, c.dataEmpty.value) else [];
      OneEvent(Start(tag), w0);
      assert [] + [tag] == [tag];
      AttributesOnly(attrs, w1);
      RunConcat([Start(tag)], attrs, w0);
      if WritesEmptyState(c) {
        PlaceholderRun(tag, c.dataEmpty.value, [tag], true);
      }
      RunConcat([Start(tag)] + attrs, rest, w0);
    }
  }

  /**
    Whatever the component, its whole output is well formed: each element
    closed innermost first, and attributes only inside a start tag.
   */
  lemma RenderWellFormed(c: Repeat, shouldWrite: string -> bool)
    ensures WellFormed(Render(c, shouldWrite))
  {
    var w0 := Writer([], false);
    var tagPart, optionPart := TagPart(c, shouldWrite), OptionPart(c);
    var kids, end := EncodeChildren(c.children), EncodeEnd(c);
    TagPartRun(c, shouldWrite);
    var w1 := Run(tagPart, w0).value;
    OptionRun(c, w1.open, w1.inStartTag);
    var w2 := Run(optionPart, w1).value;
    ChildrenRun(c.children, w2);
    var w3 := Run(kids, w2).value;
    if c.tag.Some? {
      OneEvent(End(c.tag.value), w3);
      assert w3.open == [] + [c.tag.value];
    }
    RunConcat(tagPart, optionPart, w0);
    RunConcat(tagPart + optionPart, kids, w0);
    RunConcat(tagPart + optionPart + kids, end, w0);
  }

  /** Without a tag, `encodeEnd` writes nothing and the output is the option element and the children. */
  lemma NoTagNoElement(c: Repeat, shouldWrite: string -> bool)
    requires c.tag.None?
    ensures EncodeEnd(c) == []
    ensures Render(c, shouldWrite) == OptionPart(c) + EncodeChildren(c.children)
    ensures Texts(Render(c, shouldWrite)) == if WritesOption(c) then [c.dataEmptyOption.value] else []
  {
    var kids := EncodeChildren(c.children);
    assert Render(c, shouldWrite) == OptionPart(c) + kids + [];
    OptionFacts(c);
    TextsConcat(OptionPart(c), kids);
    TextsConcat(OptionPart(c) + kids, []);
  }

  // ---------------------------------------------------------------------
  // Attributes
  // ---------------------------------------------------------------------

  /** Entries of a map with distinct names are told apart by their names. */
  lemma SameNameSameEntry(attrs: seq<Attribute>, a: Attribute, b: Attribute)
    requires Distinct(AttrNames(attrs)) && a in attrs && b in attrs && a.name == b.name
    ensures a == b
  {
    var i :| 0 <= i < |attrs| && attrs[i] == a;
    var j :| 0 <= j < |attrs| && attrs[j] == b;
    AttrNamesIndex(attrs);
    assert AttrNames(attrs)[i] == AttrNames(attrs)[j];
  }

  /**
    With a component class, the tag's own attributes are not consulted: the
    only attribute that can be written is `class`, and none without classes.
   */
  lemma ComponentClassHidesTagAttributes(c: Repeat, shouldWrite: string -> bool)
    requires c.componentClass.Some?
    ensures forall e :: e in WrittenAttributes(AttributeMap(c), shouldWrite) ==> e.name == "class"
    ensures |c.classes| == 0 ==> WrittenAttributes(AttributeMap(c), shouldWrite) == []
  {
    var attrs := AttributeMap(c);
    forall a | a in attrs ensures a.name == "class" {
      if |c.classes| != 0 {
        assert a in PutAttr([], "class", Some(Join(" ", c.classes)));
      }
    }
  }

  /**
    With classes, the `class` attribute holds them joined by single spaces,
    in place of any `class` the tag's attributes had; it is written when
    `shouldWriteAttribute` allows it.
   */
  lemma ClassesJoined(c: Repeat, shouldWrite: string -> bool, v: string)
    requires |c.classes| != 0
    requires Distinct(AttrNames(c.tagAttributes))
    ensures Attribute("class", Some(Join(" ", c.classes))) in AttributeMap(c)
    ensures Attr("class", v) in WrittenAttributes(AttributeMap(c), shouldWrite)
      <==> v == Join(" ", c.classes) && shouldWrite("class")
  {
    var base := if c.componentClass.None? then c.tagAttributes else [];
    var joined := Attribute("class", Some(Join(" ", c.classes)));
    assert Distinct(AttrNames(base));
    PutAttrDistinct(base, "class", Some(Join(" ", c.classes)));
    if Attr("class", v) in WrittenAttributes(AttributeMap(c), shouldWrite) {
      SameNameSameEntry(AttributeMap(c), Attribute("class", Some(v)), joined);
    }
  }

  /** Without classes and without tag attributes nothing is written between the start tag and the content. */
  lemma NoClassesNoAttributes(c: Repeat, shouldWrite: string -> bool)
    requires |c.classes| == 0 && (c.componentClass.Some? || c.tagAttributes == [])
    ensures WrittenAttributes(AttributeMap(c), shouldWrite) == []
  {
  }
}
