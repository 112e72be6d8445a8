/** Concrete behaviours of the URL builder on small inputs, for any value codec. */
module UrlExamples {
  import opened Wrappers
  import opened JavaStrings
  import opened ParamMap
  import opened UrlBuilder
  import opened UrlRoundTrip

  /** `"a"` and `"a="` add nothing: `split` leaves no second piece, the value is null. */
  lemma BarePairsAddNothing(b: Url, decode: string -> string)
    ensures AddPair(b, "a", decode) == b
    ensures AddPair(b, "a=", decode) == b
  {
    assert After("a", '=') == "";
    assert IndexOf("a=", '=') == Some(1);
    assert After("a=", '=') == "";
  }

  /** Text after a second '=' is ignored. */
  lemma SecondEqualsIgnored(b: Url, decode: string -> string)
    ensures AddPair(b, "a=x=y", decode) == b.(params := Add(b.params, "a", Single(decode("x"))))
  {
    assert IndexOf("a=x=y", '=') == Some(1);
    assert After("a=x=y", '=') == "x=y";
    assert IndexOf("x=y", '=') == Some(1);
    assert Before("a=x=y", '=') == "a";
    assert Before("x=y", '=') == "x";
    assert "a=x=y"[0] != '=' && "x=y"[0] != '=';
  }

  /** A trailing '.' is lost: the extension is empty and `toString` skips it. */
  lemma TrailingDotLost(encode: string -> string, decode: string -> string)
    ensures ToString(Parse("a.", decode), encode) == "a"
  {
    assert IndexOf("a.", '?') == None;
    assert SegmentStart("a.") == 0;
    assert DotScan("a.", 0) == Some(1);
  }

  /** A doubled '.' collapses: the extension starts with '.', so no second '.' is written. */
  lemma DoubledDotCollapses(encode: string -> string, decode: string -> string)
    ensures ToString(Parse("a..b", decode), encode) == "a.b"
  {
    assert IndexOf("a..b", '?') == None;
    assert DotScan("a..b", 0) == Some(1);
  }

  /** A hidden file's slash is dropped: `toString` strips the path's trailing '/' before the extension. */
  lemma HiddenFileSlashDropped(encode: string -> string, decode: string -> string)
    ensures ToString(Parse("d/.x", decode), encode) == "d.x"
  {
    assert IndexOf("d/.x", '?') == None;
    assert DotScan("d/.x", 0) == Some(2);
  }

  /** The query `a=1&b=2&a=3` falls into its three pairs. */
  lemma ExampleQueryPieces()
    ensures QueryPieces("a=1&b=2&a=3") == ["a=1", "b=2", "a=3"]
  {
    var pairs := ["a=1", "b=2", "a=3"];
    assert Join("&", pairs[2..]) == "a=3";
    assert Join("&", pairs[1..]) == "b=2&a=3";
    assert Join("&", pairs) == "a=1&b=2&a=3";
    JoinedPieces(pairs);
  }

  /** A first value under a new key opens the table. */
  lemma AddFirst(n: string, d: string)
    ensures Add([], n, Single(d)) == [Entry(n, [d])]
  {
    assert [] + [d] == [d];
  }

  /** A value under a second key goes after the first. */
  lemma AddSecond(n1: string, d1: string, n2: string, d2: string)
    requires n1 != n2
    ensures Add([Entry(n1, [d1])], n2, Single(d2)) == [Entry(n1, [d1]), Entry(n2, [d2])]
  {
    var t1 := [Entry(n1, [d1])];
    assert Names(t1) == [n1];
    assert Get(t1, n2) == None;
    assert [] + [d2] == [d2];
    PutNew(t1, n2, [d2]);
  }

  /** A repeated key keeps its first position; the value joins the earlier one. */
  lemma AddRepeated(n1: string, d1: string, n2: string, d2: string, d3: string)
    ensures Add([Entry(n1, [d1]), Entry(n2, [d2])], n1, Single(d3)) == [Entry(n1, [d1, d3]), Entry(n2, [d2])]
  {
    var t2 := [Entry(n1, [d1]), Entry(n2, [d2])];
    assert Get(t2, n1) == Some([d1]);
    assert [d1] + [d3] == [d1, d3];
    assert t2[1..] == [Entry(n2, [d2])];
  }

  /** `AddEach` over a non-empty list adds the head first. */
  lemma AddEachCons(b: Url, p: string, rest: seq<string>, decode: string -> string)
    ensures AddEach(b, [p] + rest, decode) == AddEach(AddPair(b, p, decode), rest, decode)
  {
    assert ([p] + rest)[1..] == rest;
  }

  /** The literal pair `n1=w1` opens an empty table. */
  lemma FirstPair(b: Url, n1: string, w1: string, decode: string -> string)
    requires b.params == [] && '=' !in n1 && '=' !in w1 && w1 != ""
    ensures AddPair(b, n1 + "=" + w1, decode) == b.(params := [Entry(n1, [decode(w1)])])
  {
    AddLiteralPair(b, n1, w1, decode);
    AddFirst(n1, decode(w1));
  }

  /** The literal pair `n2=w2` goes after a different first key. */
  lemma SecondPair(b: Url, n1: string, d1: string, n2: string, w2: string, decode: string -> string)
    requires b.params == [Entry(n1, [d1])] && n1 != n2 && '=' !in n2 && '=' !in w2 && w2 != ""
    ensures AddPair(b, n2 + "=" + w2, decode) == b.(params := [Entry(n1, [d1]), Entry(n2, [decode(w2)])])
  {
    AddLiteralPair(b, n2, w2, decode);
    AddSecond(n1, d1, n2, decode(w2));
  }

  /** The literal pair `n1=w3` joins the values of the first key. */
  lemma RepeatedPair(b: Url, n1: string, d1: string, n2: string, d2: string, w3: string, decode: string -> string)
    requires b.params == [Entry(n1, [d1]), Entry(n2, [d2])] && '=' !in n1 && '=' !in w3 && w3 != ""
    ensures AddPair(b, n1 + "=" + w3, decode) == b.(params := [Entry(n1, [d1, decode(w3)]), Entry(n2, [d2])])
  {
    AddLiteralPair(b, n1, w3, decode);
    AddRepeated(n1, d1, n2, d2, decode(w3));
  }

  /** Three literal pairs are added one after another. */
  lemma AddEachThree(b: Url, p1: string, p2: string, p3: string, decode: string -> string)
    ensures AddEach(b, [p1, p2, p3], decode)
      == AddPair(AddPair(AddPair(b, p1, decode), p2, decode), p3, decode)
  {
    var b1 := AddPair(b, p1, decode);
    var b2 := AddPair(b1, p2, decode);
    AddEachCons(b2, p3, [], decode);
    AddEachCons(b1, p2, [p3], decode);
    AddEachCons(b, p1, [p2, p3], decode);
    assert [p3] + [] == [p3];
    assert [p2] + [p3] == [p2, p3];
    assert [p1] + [p2, p3] == [p1, p2, p3];
  }

  /** Adding the three pairs of the example one after another. */
  lemma ExampleAddEach(decode: string -> string)
    ensures AddEach(Url("p", None, []), ["a=1", "b=2", "a=3"], decode)
      == Url("p", None, [Entry("a", [decode("1"), decode("3")]), Entry("b", [decode("2")])])
  {
    var b0 := Url("p", None, []);
    var b1 := b0.(params := [Entry("a", [decode("1")])]);
    var b2 := b0.(params := [Entry("a", [decode("1")]), Entry("b", [decode("2")])]);
    assert "a" + "=" + "1" == "a=1" && "b" + "=" + "2" == "b=2" && "a" + "=" + "3" == "a=3";
    FirstPair(b0, "a", "1", decode);
    SecondPair(b1, "a", decode("1"), "b", "2", decode);
    RepeatedPair(b2, "a", decode("1"), "b", decode("2"), "3", decode);
    AddEachThree(b0, "a=1", "b=2", "a=3", decode);
  }

  /** Parsing `p?a=1&b=2&a=3` groups both values of `a` under its first position. */
  lemma ExampleParse(decode: string -> string)
    ensures Parse("p?a=1&b=2&a=3", decode)
      == Url("p", None, [Entry("a", [decode("1"), decode("3")]), Entry("b", [decode("2")])])
  {
    var q := "a=1&b=2&a=3";
    FirstSeparator("p", '?', q);
    assert "p?a=1&b=2&a=3" == "p" + ['?'] + q;
    ExampleQueryPieces();
    SplitExtensionNone("p");
    ExampleAddEach(decode);
  }

  /** A key with two values is written as two pairs joined by '&'. */
  lemma GroupOfTwo(n: string, x1: string, x3: string, encode: string -> string)
    ensures Group(Entry(n, [x1, x3]), encode) == (n + "=" + encode(x1)) + "&" + (n + "=" + encode(x3))
  {
    var gp := GroupPairs(Entry(n, [x1, x3]), encode);
    assert gp == [n + "=" + encode(x1), n + "=" + encode(x3)];
    assert gp[1..] == [n + "=" + encode(x3)];
    assert Join("&", gp[1..]) == n + "=" + encode(x3);
    assert Join("&", gp) == gp[0] + "&" + Join("&", gp[1..]);
  }

  /** A key with one value is written as one pair. */
  lemma GroupOfOne(n: string, x2: string, encode: string -> string)
    ensures Group(Entry(n, [x2]), encode) == n + "=" + encode(x2)
  {
    assert GroupPairs(Entry(n, [x2]), encode) == [n + "=" + encode(x2)];
  }

  /** A table of two keys is written key by key, each key's values together. */
  lemma TwoKeysWritten(b: Url, n1: string, x1: string, x3: string, n2: string, x2: string,
                       encode: string -> string)
    requires b.extension == None && '?' !in b.path
    requires b.params == [Entry(n1, [x1, x3]), Entry(n2, [x2])]
    ensures ToString(b, encode)
      == b.path + "?" + (n1 + "=" + encode(x1)) + "&" + (n1 + "=" + encode(x3)) + "&" + (n2 + "=" + encode(x2))
  {
    var ps := b.params;
    var g1 := Group(ps[0], encode);
    var g2 := Group(ps[1], encode);
    GroupOfTwo(n1, x1, x3, encode);
    GroupOfOne(n2, x2, encode);
    assert Groups(ps, encode) == [g1, g2];
    assert Join("&", [g1, g2]) == g1 + "&" + g2;
    assert ToString(b, encode) == AppendGroups(b.path, ps, encode);
    AppendGroupsShape(b.path, ps, encode);
    var t1, t3, t2 := n1 + "=" + encode(x1), n1 + "=" + encode(x3), n2 + "=" + encode(x2);
    assert b.path + "?" + ((t1 + "&" + t3) + "&" + t2) == b.path + "?" + t1 + "&" + t3 + "&" + t2;
  }

  /** The table of the example is written back grouped by key. */
  lemma ExampleWritten(b: Url, encode: string -> string, decode: string -> string)
    requires b == Url("p", None, [Entry("a", [decode("1"), decode("3")]), Entry("b", [decode("2")])])
    ensures ToString(b, encode)
      == "p?a=" + encode(decode("1")) + "&a=" + encode(decode("3")) + "&b=" + encode(decode("2"))
  {
    TwoKeysWritten(b, "a", decode("1"), decode("3"), "b", decode("2"), encode);
    var e1, e3, e2 := encode(decode("1")), encode(decode("3")), encode(decode("2"));
    assert "p" + "?" + ("a" + "=" + e1) == "p?a=" + e1;
    assert "&" + ("a" + "=" + e3) == "&a=" + e3;
    assert "&" + ("b" + "=" + e2) == "&b=" + e2;
  }

  /**
    `a=1&b=2&a=3` is re-serialised grouped by key: both values of `a`
    (first-inserted key) before the value of `b`.
   */
  lemma RepeatedKeyGrouped(encode: string -> string, decode: string -> string)
    ensures ToString(Parse("p?a=1&b=2&a=3", decode), encode)
      == "p?a=" + encode(decode("1")) + "&a=" + encode(decode("3")) + "&b=" + encode(decode("2"))
  {
    ExampleParse(decode);
    ExampleWritten(Parse("p?a=1&b=2&a=3", decode), encode, decode);
  }
}
