/**
  Round trips of the URL builder: when re-serialising a parsed URL gives
  the URL back, and when parsing a serialised builder gives the builder back.
 */
module UrlRoundTrip {
  import opened Wrappers
  import opened JavaStrings
  import opened ParamMap
  import opened UrlBuilder

  /**
    A builder whose path and extension `toString` writes in a form the
    constructor splits the same way: no '?' in them, no '.' in the path's
    last segment, and an extension that is non-empty, does not start with
    '.', has no '/', and does not follow a path ending in '/' (other than
    "/" itself), since `toString` drops that slash.
   */
  predicate PathSurvives(b: Url) {
    && '?' !in b.path
    && '.' !in b.path[SegmentStart(b.path)..]
    && match b.extension
       case None => true
       case Some(e) =>
         && |e| > 0 && e[0] != '.' && '/' !in e && '?' !in e
         && !(|b.path| >= 2 && b.path[|b.path| - 1] == '/')
  }

  /** Encoded text that survives splitting at '&' and '=' and the `&amp;` rewrite. */
  predicate SafeText(w: string) {
    '=' !in w && '&' !in w && ';' !in w
  }

  /**
    A parameter table that the constructor rebuilds from its own
    serialisation: distinct keys, every key with at least one value, keys
    and encoded values free of '=', '&' and ';', encoded values non-empty,
    and `decode` undoing `encode` on every value.
   */
  predicate ParamsSurvive(ps: Params, encode: string -> string, decode: string -> string) {
    && Distinct(Names(ps))
    && forall i :: 0 <= i < |ps| ==> EntrySurvives(ps[i], encode, decode)
  }

  /** One key of a table that survives the round trip. */
  predicate EntrySurvives(e: Entry, encode: string -> string, decode: string -> string) {
    && |e.values| > 0
    && SafeText(e.name)
    && forall j :: 0 <= j < |e.values| ==>
         encode(e.values[j]) != "" && SafeText(encode(e.values[j])) && decode(encode(e.values[j])) == e.values[j]
  }

  /** When `c` does not occur in `n`, the first `c` of `n + [c] + w` is the one after `n`. */
  lemma {:induction false} FirstSeparator(n: string, c: char, w: string)
    requires c !in n
    ensures Before(n + [c] + w, c) == n
    ensures After(n + [c] + w, c) == w
  {
    var s := n + [c] + w;
    var i := IndexOf(s, c).value;
    assert s[|n|] == c;
    assert s[..|n|] == n;
    assert s[|n| + 1..] == w;
  }

  /** With no '/' added, the last segment starts where it did. */
  lemma {:induction false} SegmentStartAppend(p: string, t: string)
    requires '/' !in t
    ensures SegmentStart(p + t) == SegmentStart(p)
    decreases |t|
  {
    if |t| > 0 {
      var t' := t[..|t| - 1];
      SegmentStartAppend(p, t');
      assert (p + t)[..|p + t| - 1] == p + t';
    } else {
      assert p + t == p;
    }
  }

  /** A path whose last segment has no '.' keeps its whole text and gets no extension. */
  lemma SplitExtensionNone(p: string)
    requires '.' !in p[SegmentStart(p)..]
    ensures SplitExtension(p) == (p, None)
  {
    var r := SplitExtension(p);
  }

  /** `path.ext` splits back into `path` and `ext` when the '.' is the first of the last segment. */
  lemma SplitExtensionSome(p: string, e: string)
    requires '/' !in e
    requires '.' !in p[SegmentStart(p)..]
    ensures SplitExtension(p + "." + e) == (p, Some(e))
  {
    var s := p + "." + e;
    assert s == p + ("." + e);
    SegmentStartAppend(p, "." + e);
    assert s[SegmentStart(p)..|p|] == p[SegmentStart(p)..];
    ExtensionDotAt(s, |p|);
    assert s[..|p|] == p;
    assert s[|p| + 1..] == e;
  }

  /** A '.' in the last segment with none before it there is where the extension starts. */
  lemma ExtensionDotAt(s: string, k: nat)
    requires SegmentStart(s) <= k < |s| && s[k] == '.'
    requires '.' !in s[SegmentStart(s)..k]
    ensures ExtensionDot(s) == Some(k)
  {
    var st := SegmentStart(s);
    var r := ExtensionDot(s);
    assert s[st..][k - st] == '.';
    var d := r.value;
    NotInSlice(s, st, k, '.');
    NotInSlice(s, st, d, '.');
  }

  /** A character missing from a slice differs from every character in its range. */
  lemma NotInSlice(s: string, lo: nat, hi: nat, c: char)
    requires lo <= hi <= |s| && c !in s[lo..hi]
    ensures forall j :: lo <= j < hi ==> s[j] != c
  {
    forall j | lo <= j < hi ensures s[j] != c {
      assert s[lo..hi][j - lo] == s[j];
    }
  }

  /** The text `toString` writes for the path survives the constructor's split. */
  lemma BaseSplits(b: Url)
    requires PathSurvives(b)
    ensures '?' !in Base(b)
    ensures SplitExtension(Base(b)) == (b.path, b.extension)
  {
    match b.extension
    case None =>
      SplitExtensionNone(b.path);
    case Some(e) =>
      assert !("." <= e);
      assert Base(b) == b.path + "." + e;
      SplitExtensionSome(b.path, e);
  }

  /** A URL without '?' is parsed into its path split and an empty table. */
  lemma ParseNoQuery(url: string, decode: string -> string)
    requires '?' !in url
    ensures Parse(url, decode) == Url(SplitExtension(url).0, SplitExtension(url).1, [])
  {
  }

  /** The values of the last key, absent before it. */
  lemma {:induction false} GetLast(qs: Params, n: string, vs: seq<string>)
    requires n !in Names(qs)
    ensures Get(qs + [Entry(n, vs)], n) == Some(vs)
    decreases |qs|
  {
    if |qs| > 0 {
      assert Names(qs) == [qs[0].name] + Names(qs[1..]);
      assert (qs + [Entry(n, vs)])[1..] == qs[1..] + [Entry(n, vs)];
      GetLast(qs[1..], n, vs);
    }
  }

  /** Adding pairs in two batches is adding them all in order. */
  lemma {:induction false} AddEachAppend(b: Url, xs: seq<string>, ys: seq<string>, decode: string -> string)
    ensures AddEach(b, xs + ys, decode) == AddEach(AddEach(b, xs, decode), ys, decode)
    decreases |xs|
  {
    if |xs| > 0 {
      assert (xs + ys)[0] == xs[0];
      assert (xs + ys)[1..] == xs[1..] + ys;
      AddEachAppend(AddPair(b, xs[0], decode), xs[1..], ys, decode);
    } else {
      assert xs + ys == ys;
    }
  }

  /** A literal pair `n=w`, with no other '=' and a non-empty `w`, adds `decode(w)` under `n`. */
  lemma AddLiteralPair(b: Url, n: string, w: string, decode: string -> string)
    requires '=' !in n && '=' !in w && w != ""
    ensures AddPair(b, n + "=" + w, decode) == b.(params := Add(b.params, n, Single(decode(w))))
  {
    var p := n + "=" + w;
    FirstSeparator(n, '=', w);
    assert p[|n| + 1] == w[0] && w[0] != '=';
    assert !AllChar(p, '=');
    assert !AllChar(w, '=');
    assert Before(w, '=') == w;
  }

  /** The literal pair `n=encode(v)` adds `v` under `n`. */
  lemma AddEncodedPair(b: Url, n: string, v: string, encode: string -> string, decode: string -> string)
    requires SafeText(n) && SafeText(encode(v)) && encode(v) != "" && decode(encode(v)) == v
    ensures AddPair(b, n + "=" + encode(v), decode) == b.(params := Add(b.params, n, Single(v)))
  {
    AddLiteralPair(b, n, encode(v), decode);
  }

  /** A literal pair `n=w`, with no other '=' and a non-empty `w`, sets the values of `n` to `decode(w)` alone. */
  lemma SetLiteralPair(b: Url, n: string, w: string, decode: string -> string)
    requires '=' !in n && '=' !in w && w != ""
    ensures SetPair(b, n + "=" + w, decode) == b.(params := Set(b.params, n, Single(decode(w))))
  {
    var p := n + "=" + w;
    FirstSeparator(n, '=', w);
    assert p[|n| + 1] == w[0] && w[0] != '=';
    assert !AllChar(p, '=');
    assert !AllChar(w, '=');
    assert Before(w, '=') == w;
  }

  /** The literal pair `n=` with nothing after the '=' removes `n`: its value is null. */
  lemma SetBarePair(b: Url, n: string, decode: string -> string)
    requires '=' !in n && n != ""
    ensures SetPair(b, n + "=", decode) == b.(params := Remove(b.params, n))
  {
    var p := n + "=";
    FirstSeparator(n, '=', "");
    assert p == n + ['='] + "";
    assert p[0] == n[0] && n[0] != '=';
  }

  /** Setting pairs in two batches is setting them all in order. */
  lemma {:induction false} SetEachAppend(b: Url, xs: seq<string>, ys: seq<string>, decode: string -> string)
    ensures SetEach(b, xs + ys, decode) == SetEach(SetEach(b, xs, decode), ys, decode)
    decreases |xs|
  {
    if |xs| > 0 {
      assert (xs + ys)[0] == xs[0];
      assert (xs + ys)[1..] == xs[1..] + ys;
      SetEachAppend(SetPair(b, xs[0], decode), xs[1..], ys, decode);
    } else {
      assert xs + ys == ys;
    }
  }

  /**
    Whatever pairs come first, a final literal pair `n=w` leaves `n` holding
    just `decode(w)`, in the position `set` gives it, and every other key as
    the earlier pairs left it.
   */
  lemma SetEachLastPair(b: Url, xs: seq<string>, n: string, w: string, decode: string -> string)
    requires '=' !in n && '=' !in w && w != ""
    ensures var mid := SetEach(b, xs, decode);
      SetEach(b, xs + [n + "=" + w], decode) == mid.(params := Set(mid.params, n, Single(decode(w))))
    ensures Get(SetEach(b, xs + [n + "=" + w], decode).params, n) == Some([decode(w)])
  {
    var p := n + "=" + w;
    var mid := SetEach(b, xs, decode);
    SetEachAppend(b, xs, [p], decode);
    assert [p][1..] == [];
    assert SetEach(mid, [p], decode) == SetPair(mid, p, decode);
    SetLiteralPair(mid, n, w, decode);
  }

  /** Setting two literal pairs one after the other. */
  lemma SetEachTwo(b: Url, p1: string, p2: string, decode: string -> string)
    ensures SetEach(b, [p1, p2], decode) == SetPair(SetPair(b, p1, decode), p2, decode)
  {
    var b1 := SetPair(b, p1, decode);
    var b2 := SetPair(b1, p2, decode);
    assert [p2][1..] == [];
    assert SetEach(b1, [p2], decode) == SetEach(b2, [], decode) == b2;
    assert [p1, p2][1..] == [p2];
    assert SetEach(b, [p1, p2], decode) == SetEach(b1, [p2], decode);
  }

  /** Of two literal pairs for the same key, `setParameters` keeps the last value only. */
  lemma SetLastWins(b: Url, n: string, w1: string, w2: string, decode: string -> string)
    requires '=' !in n && '=' !in w1 && '=' !in w2 && w1 != "" && w2 != ""
    ensures SetEach(b, [n + "=" + w1, n + "=" + w2], decode) == b.(params := Set(b.params, n, Single(decode(w2))))
  {
    SetEachTwo(b, n + "=" + w1, n + "=" + w2, decode);
    var b1 := b.(params := Set(b.params, n, Single(decode(w1))));
    SetLiteralPair(b, n, w1, decode);
    SetLiteralPair(b1, n, w2, decode);
    SetAfterSet(b.params, n, Single(decode(w1)), Single(decode(w2)));
  }

  /**
    In a query string, the entity `&amp;` separates pairs just as `&` does,
    when neither part holds a ';' and the first part holds no '&'.
   */
  lemma EntitySeparates(x: string, y: string)
    requires '&' !in x && ';' !in x && ';' !in y
    ensures QueryPieces(x + "&amp;" + y) == QueryPieces(x + "&" + y)
    ensures QueryPieces(x + "&" + y) == Split(x + "&" + y, '&')
  {
    var entity := "&amp;";
    assert entity[0] == '&' && entity[4] == ';';
    ReplaceAllOnce(x, y, entity, "&", ';');
    var plain := x + "&" + y;
    assert ';' !in plain by {
      forall i | 0 <= i < |plain| ensures plain[i] != ';' {
        if i < |x| { assert plain[i] == x[i]; }
        else if i > |x| { assert plain[i] == y[i - |x| - 1]; }
      }
    }
    ReplaceAllMissingChar(plain, entity, "&", ';');
  }

  /** `removePath` undoes `addPath` when given the segment `addPath` appended. */
  lemma AddThenRemovePath(b: Url, p: string)
    ensures RemovePath(AddPath(b, p), "/" + TrimLeadingSlash(p)) == b
  {
    var t := "/" + TrimLeadingSlash(p);
    var path := AddPath(b, p).path;
    assert path == b.path + t;
    assert path[|path| - |t|..] == t;
    assert path[..|path| - |t|] == b.path;
  }

  /** Adding one value under a key absent from the table opens a last entry for it. */
  lemma AddToNew(qs: Params, n: string, v: string)
    requires n !in Names(qs)
    ensures Add(qs, n, Single(v)) == qs + [Entry(n, [v])]
  {
    AddIsPut(qs, n, Single(v));
    assert Get(qs, n).GetOr([]) + Strings(Single(v)) == [v];
    PutNew(qs, n, [v]);
  }

  /** Adding one value under the key of the last entry, absent before it, extends that entry. */
  lemma AddToLast(qs: Params, n: string, vs: seq<string>, v: string)
    requires n !in Names(qs)
    ensures Add(qs + [Entry(n, vs)], n, Single(v)) == qs + [Entry(n, vs + [v])]
  {
    GetLast(qs, n, vs);
    AddIsPut(qs + [Entry(n, vs)], n, Single(v));
    PutLast(qs, n, vs, vs + [v]);
  }

  /** Adding a one-pair list is adding that pair. */
  lemma AddEachOne(b: Url, p: string, decode: string -> string)
    ensures AddEach(b, [p], decode) == AddPair(b, p, decode)
  {
    assert [p][1..] == [];
  }

  /** One more value of a key writes one more pair, at the end. */
  lemma GroupPairsSnoc(n: string, vs: seq<string>, v: string, encode: string -> string)
    ensures GroupPairs(Entry(n, vs + [v]), encode) == GroupPairs(Entry(n, vs), encode) + [n + "=" + encode(v)]
  {
    var longer := GroupPairs(Entry(n, vs + [v]), encode);
    var shorter := GroupPairs(Entry(n, vs), encode) + [n + "=" + encode(v)];
    forall i | 0 <= i < |longer| ensures longer[i] == shorter[i] {
      if i < |vs| {
        assert (vs + [v])[i] == vs[i];
      } else {
        assert (vs + [v])[i] == v;
      }
    }
  }

  /** Adding the one-pair list `n=encode(v)` adds `v` under `n`. */
  lemma AddOneEncoded(b: Url, n: string, v: string, encode: string -> string, decode: string -> string)
    requires SafeText(n) && SafeText(encode(v)) && encode(v) != "" && decode(encode(v)) == v
    ensures AddEach(b, [n + "=" + encode(v)], decode) == b.(params := Add(b.params, n, Single(v)))
  {
    AddEachOne(b, n + "=" + encode(v), decode);
    AddEncodedPair(b, n, v, encode, decode);
  }

  /** Adding the pairs of one key is adding all but its last value, then the last. */
  lemma AddGroupLast(b: Url, e: Entry, encode: string -> string, decode: string -> string)
    requires EntrySurvives(e, encode, decode)
    ensures var mid := AddEach(b, GroupPairs(DropLast(e), encode), decode);
      AddEach(b, GroupPairs(e, encode), decode) == mid.(params := Add(mid.params, e.name, Single(e.values[|e.values| - 1])))
  {
    var n, vs := e.name, e.values;
    var v := vs[|vs| - 1];
    var e' := DropLast(e);
    var pair := n + "=" + encode(v);
    var front := GroupPairs(e', encode);
    assert e'.values + [v] == vs;
    GroupPairsSnoc(n, e'.values, v, encode);
    AddEachAppend(b, front, [pair], decode);
    assert SafeText(n) && SafeText(encode(v)) && encode(v) != "" && decode(encode(v)) == v;
    AddOneEncoded(AddEach(b, front, decode), n, v, encode, decode);
  }

  /** The value list without its last value. */
  function DropLast(e: Entry): (r: Entry)
    requires |e.values| > 0
    ensures r.name == e.name && r.values + [e.values[|e.values| - 1]] == e.values
  {
    Entry(e.name, e.values[..|e.values| - 1])
  }

  /** The pair of a key with one value, added to a table that lacks the key, appends that entry. */
  lemma GroupRebuildOne(b: Url, e: Entry, encode: string -> string, decode: string -> string)
    requires EntrySurvives(e, encode, decode) && |e.values| == 1
    requires e.name !in Names(b.params)
    ensures AddEach(b, GroupPairs(e, encode), decode) == b.(params := b.params + [e])
  {
    AddGroupLast(b, e, encode, decode);
    assert GroupPairs(DropLast(e), encode) == [];
    assert AddEach(b, GroupPairs(DropLast(e), encode), decode) == b;
    AddToNew(b.params, e.name, e.values[0]);
    assert e.values == [e.values[0]];
  }

  /** One more value: the table built from all but the last value grows by that value. */
  lemma GroupRebuildNext(b: Url, e: Entry, encode: string -> string, decode: string -> string)
    requires EntrySurvives(e, encode, decode) && |e.values| > 1
    requires e.name !in Names(b.params)
    requires AddEach(b, GroupPairs(DropLast(e), encode), decode) == b.(params := b.params + [DropLast(e)])
    ensures AddEach(b, GroupPairs(e, encode), decode) == b.(params := b.params + [e])
  {
    AddGroupLast(b, e, encode, decode);
    AddToLast(b.params, e.name, DropLast(e).values, e.values[|e.values| - 1]);
  }

  /** The pairs of one key, added to a table that lacks the key, append that key with all its values. */
  lemma {:induction false} GroupRebuild(b: Url, e: Entry, encode: string -> string, decode: string -> string)
    requires EntrySurvives(e, encode, decode)
    requires e.name !in Names(b.params)
    ensures AddEach(b, GroupPairs(e, encode), decode) == b.(params := b.params + [e])
    decreases |e.values|
  {
    if |e.values| == 1 {
      GroupRebuildOne(b, e, encode, decode);
    } else {
      var e' := DropLast(e);
      assert EntrySurvives(e', encode, decode) by {
        forall j | 0 <= j < |e'.values| ensures e'.values[j] == e.values[j] { }
      }
      GroupRebuild(b, e', encode, decode);
      GroupRebuildNext(b, e, encode, decode);
    }
  }

  /** In a table with distinct keys, the key after a prefix does not occur in the prefix. */
  lemma FirstNameFresh(qs: Params, ps: Params)
    requires |ps| > 0 && Distinct(Names(qs + ps))
    ensures ps[0].name !in Names(qs)
  {
    NamesAppend(qs, ps);
    assert Names(qs + ps)[|qs|] == ps[0].name;
    forall j | 0 <= j < |qs| ensures Names(qs)[j] != ps[0].name {
      assert Names(qs + ps)[j] == Names(qs)[j];
    }
  }

  /** Adding every encoded pair of a table to a table with other keys appends the whole table. */
  lemma {:induction false} TableRebuild(b: Url, ps: Params, encode: string -> string, decode: string -> string)
    requires Distinct(Names(b.params + ps))
    requires forall i :: 0 <= i < |ps| ==> EntrySurvives(ps[i], encode, decode)
    ensures AddEach(b, EncodedPairs(ps, encode), decode) == b.(params := b.params + ps)
    decreases |ps|
  {
    if |ps| == 0 {
      assert b.params + ps == b.params;
    } else {
      var b1 := b.(params := b.params + [ps[0]]);
      var g := GroupPairs(ps[0], encode);
      var rest := EncodedPairs(ps[1..], encode);
      FirstNameFresh(b.params, ps);
      assert EntrySurvives(ps[0], encode, decode);
      assert b1.params + ps[1..] == b.params + ps;
      assert forall i :: 0 <= i < |ps[1..]| ==> ps[1..][i] == ps[i + 1];
      calc {
        AddEach(b, EncodedPairs(ps, encode), decode);
        AddEach(b, g + rest, decode);
        { AddEachAppend(b, g, rest, decode); }
        AddEach(AddEach(b, g, decode), rest, decode);
        { GroupRebuild(b, ps[0], encode, decode); }
        AddEach(b1, rest, decode);
        { TableRebuild(b1, ps[1..], encode, decode); }
        b1.(params := b1.params + ps[1..]);
      }
    }
  }

  /** Every encoded pair of a surviving table is non-empty and free of '&' and ';'. */
  lemma PairsSafe(ps: Params, encode: string -> string, decode: string -> string)
    requires forall i :: 0 <= i < |ps| ==> EntrySurvives(ps[i], encode, decode)
    ensures forall k :: 0 <= k < |EncodedPairs(ps, encode)| ==>
      EncodedPairs(ps, encode)[k] != "" && '&' !in EncodedPairs(ps, encode)[k] && ';' !in EncodedPairs(ps, encode)[k]
  {
    if |ps| > 0 {
      PairsSafe(ps[1..], encode, decode);
      var g := GroupPairs(ps[0], encode);
      forall k | 0 <= k < |g| ensures g[k] != "" && '&' !in g[k] && ';' !in g[k] {
        assert g[k] == ps[0].name + "=" + encode(ps[0].values[k]);
        assert g[k][|ps[0].name|] == '=';
      }
    }
  }

  /** A join whose first piece is non-empty is non-empty. */
  lemma JoinNonEmpty(sep: string, xs: seq<string>)
    requires |xs| > 0 && xs[0] != ""
    ensures Join(sep, xs) != ""
  {
  }

  /** Non-empty pairs free of '&' and ';', joined by '&', fall back into the same pairs. */
  lemma JoinedPieces(pairs: seq<string>)
    requires |pairs| > 0
    requires forall k :: 0 <= k < |pairs| ==> pairs[k] != "" && '&' !in pairs[k] && ';' !in pairs[k]
    ensures QueryPieces(Join("&", pairs)) == pairs
  {
    var q := Join("&", pairs);
    JoinAvoids("&", pairs, ';');
    ReplaceAllMissingChar(q, "&amp;", "&", ';');
    SplitJoin(pairs, '&');
  }

  /**
    The query string of a surviving table is read back into the same table
    by `addParameters`.
   */
  lemma QueryRebuild(b: Url, ps: Params, encode: string -> string, decode: string -> string)
    requires b.params == []
    requires |ps| > 0 && ParamsSurvive(ps, encode, decode)
    ensures AddParameters(b, Join("&", EncodedPairs(ps, encode)), decode) == b.(params := ps)
  {
    assert b.params + ps == ps;
    TablePieces(ps, encode, decode);
    TableRebuild(b, ps, encode, decode);
  }

  /** The query string of a non-empty surviving table is non-empty and splits into its pairs. */
  lemma TablePieces(ps: Params, encode: string -> string, decode: string -> string)
    requires |ps| > 0 && forall i :: 0 <= i < |ps| ==> EntrySurvives(ps[i], encode, decode)
    ensures Join("&", EncodedPairs(ps, encode)) != ""
    ensures QueryPieces(Join("&", EncodedPairs(ps, encode))) == EncodedPairs(ps, encode)
  {
    var pairs := EncodedPairs(ps, encode);
    EncodedPairsNonEmpty(ps, encode);
    PairsSafe(ps, encode, decode);
    JoinNonEmpty("&", pairs);
    JoinedPieces(pairs);
  }

  /**
    Parsing what `toString` writes gives the builder back, for every builder
    whose path and extension survive the split and whose table survives the
    query codec.
   */
  lemma ParseToString(b: Url, encode: string -> string, decode: string -> string)
    requires PathSurvives(b)
    requires ParamsSurvive(b.params, encode, decode)
    ensures Parse(ToString(b, encode), decode) == b
  {
    BaseSplits(b);
    var base := Base(b);
    var b0 := Url(b.path, b.extension, []);
    if |b.params| == 0 {
      ParseNoQuery(base, decode);
    } else {
      var q := Join("&", EncodedPairs(b.params, encode));
      AppendGroupsShape(base, b.params, encode);
      GroupsArePairs(b.params, encode);
      assert ToString(b, encode) == base + "?" + q;
      FirstSeparator(base, '?', q);
      QueryRebuild(b0, b.params, encode, decode);
    }
  }

  /**
    A URL without a query is what `toString` writes back after parsing it,
    exactly when its extension (if any) is non-empty, does not start with '.',
    and does not follow a path ending in '/' (other than "/" itself).
   */
  predicate ExtensionSurvives(url: string) {
    var split := SplitExtension(url);
    split.1.Some? ==> ExtensionWritten(split.0, split.1.value)
  }

  /** `toString` writes the extension `e` of path `p` back as it was split off. */
  predicate ExtensionWritten(p: string, e: string) {
    |e| > 0 && e[0] != '.' && !(|p| >= 2 && p[|p| - 1] == '/')
  }

  /** The text written for path `p` and extension `e` is `p.e` exactly when the extension survives. */
  lemma BaseWithExtension(p: string, e: string)
    ensures Base(Url(p, Some(e), [])) == p + "." + e <==> ExtensionWritten(p, e)
  {
    var out := Base(Url(p, Some(e), []));
    if |e| == 0 {
      assert |out| < |p + "." + e|;
    } else if "." <= e {
      assert out == StripTrailingSlash(p) + e;
      assert |out| < |p + "." + e|;
    } else if |p| >= 2 && p[|p| - 1] == '/' {
      assert out == StripTrailingSlash(p) + "." + e;
      assert |out| < |p + "." + e|;
    }
  }

  /** Re-serialising a parsed URL without '?' gives it back if and only if its extension survives. */
  lemma ToStringParse(url: string, encode: string -> string, decode: string -> string)
    requires '?' !in url
    ensures ToString(Parse(url, decode), encode) == url <==> ExtensionSurvives(url)
  {
    var b := Parse(url, decode);
    ParseNoQuery(url, decode);
    var split := SplitExtension(url);
    assert b == Url(split.0, split.1, []);
    assert ToString(b, encode) == Base(b);
    if split.1.Some? {
      BaseWithExtension(split.0, split.1.value);
    }
  }

  /** In particular, a URL with no '?' and no '.' in its last segment serialises back to itself. */
  lemma PlainUrlRoundTrip(url: string, encode: string -> string, decode: string -> string)
    requires '?' !in url
    requires '.' !in url[SegmentStart(url)..]
    ensures ToString(Parse(url, decode), encode) == url
  {
    ToStringParse(url, encode, decode);
    SplitExtensionNone(url);
  }
}
