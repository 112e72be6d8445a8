/**
  `RequestUtils.UrlBuilder`: a URL taken apart into a path, an optional
  extension and an ordered multimap of query parameters, edited, and put
  back together as text. The codec of the query values (`StringUtils.encode`
  and `StringUtils.decode`) is a parameter of the operations that use it.
 */
module UrlBuilder {
  import opened Wrappers
  import opened JavaStrings
  import opened ParamMap

  /** The builder's three fields; `extension` is null when the path has none. */
  datatype Url = Url(path: string, extension: Option<string>, params: Params)

  /** Where the last `/`-segment of `s` starts: just after its last '/', or 0. */
  function SegmentStart(s: string): (r: nat)
    ensures r <= |s|
    ensures '/' !in s[r..]
    ensures r > 0 ==> s[r - 1] == '/'
  {
    if |s| == 0 then 0
    else if s[|s| - 1] == '/' then |s|
    else
      var r := SegmentStart(s[..|s| - 1]);
      assert s[r..] == s[..|s| - 1][r..] + [s[|s| - 1]];
      r
  }

  /** The pattern `\.[^/]*$` can start at `j`: a '.' with no '/' anywhere after it. */
  predicate DotStarts(s: string, j: nat)
    requires j < |s|
  {
    s[j] == '.' && '/' !in s[j + 1..]
  }

  /**
    The first position at or after `i` where the pattern `\.[^/]*$` can
    start. Because `[^/]*` is greedy it always reaches the end of the text,
    so `$` never needs to backtrack.
   */
  function DotScan(s: string, i: nat): (r: Option<nat>)
    requires i <= |s|
    ensures r.Some? ==> i <= r.value < |s| && DotStarts(s, r.value)
    ensures r.Some? ==> forall j :: i <= j < r.value ==> !DotStarts(s, j)
    ensures r.None? ==> forall j :: i <= j < |s| ==> !DotStarts(s, j)
    decreases |s| - i
  {
    if i == |s| then None
    else if DotStarts(s, i) then Some(i)
    else DotScan(s, i + 1)
  }

  /** A text with no '/' from `st` on has none after any later position. */
  lemma NoSlashAfter(s: string, st: nat, j: nat)
    requires st <= j < |s| && '/' !in s[st..]
    ensures '/' !in s[j + 1..]
  {
    assert s[j + 1..] == s[st..][j + 1 - st..];
  }

  /**
    Where `replaceFirst("\\.[^/]*$", "")` cuts the path: the first '.' of the
    last `/`-segment, or `None` when that segment has no '.'.
   */
  function ExtensionDot(s: string): (r: Option<nat>)
    ensures r.None? ==> '.' !in s[SegmentStart(s)..]
    ensures r.Some? ==> SegmentStart(s) <= r.value < |s| && s[r.value] == '.'
    ensures r.Some? ==> '.' !in s[SegmentStart(s)..r.value]
  {
    var r := DotScan(s, 0);
    var st := SegmentStart(s);
    match r
    case None =>
      assert '.' !in s[st..] by {
        forall j | st <= j < |s| ensures s[j] != '.' {
          NoSlashAfter(s, st, j);
          assert !DotStarts(s, j);
        }
      }
      r
    case Some(d) =>
      assert '.' !in s[st..d] by {
        forall j | st <= j < d ensures s[j] != '.' {
          NoSlashAfter(s, st, j);
          assert !DotStarts(s, j);
        }
      }
      assert DotStarts(s, d);
      r
  }

  /**
    The constructor's split of the part before '?': the path without its
    extension, and the extension (text after the first '.' of the last
    segment), or null when that segment has no '.'.
   */
  function SplitExtension(urlPath: string): (r: (string, Option<string>))
    ensures r.1.None? ==> r.0 == urlPath && '.' !in urlPath[SegmentStart(urlPath)..]
    ensures r.1.Some? ==> urlPath == r.0 + "." + r.1.value
    ensures r.1.Some? ==> '/' !in r.1.value
    ensures r.1.Some? ==> SegmentStart(urlPath) <= |r.0| && '.' !in urlPath[SegmentStart(urlPath)..|r.0|]
  {
    match ExtensionDot(urlPath)
    case None => (urlPath, None)
    case Some(d) =>
      assert urlPath == urlPath[..d] + "." + urlPath[d + 1..];
      assert urlPath[d + 1..] == urlPath[SegmentStart(urlPath)..][d + 1 - SegmentStart(urlPath)..];
      (urlPath[..d], Some(urlPath[d + 1..]))
  }

  // ---------------------------------------------------------------------
  // Query parameters given as text
  // ---------------------------------------------------------------------

  /**
    What `addParameter(String)` / `setParameter(String)` make of a literal
    pair: `None` when they do nothing at all (an empty string, or one made of
    '=' only, which `split` turns into no pieces); otherwise the name before
    the first '=' and a value that is null when nothing but '=' follows it,
    else the decoded text up to the second '='.
   */
  function ParsePair(p: string, decode: string -> string): (r: Option<(string, Value)>)
    ensures r.None? <==> AllChar(p, '=')
    ensures r.Some? ==> r.value.0 == Before(p, '=')
    ensures r.Some? ==> (r.value.1.Null? <==> AllChar(After(p, '='), '='))
    ensures r.Some? && !r.value.1.Null? ==> r.value.1 == Single(decode(Before(After(p, '='), '=')))
  {
    if p == "" then None
    else
      var pair := Split(p, '=');
      SplitPieces(p);
      if |pair| == 0 then None
      else Some((pair[0], if |pair| > 1 then Single(decode(pair[1])) else Null))
  }

  /** How many pieces `split("=")` keeps, and which ones, in terms of `p`'s text. */
  lemma SplitPieces(p: string)
    requires p != ""
    ensures |Split(p, '=')| > 0 <==> !AllChar(p, '=')
    ensures |Split(p, '=')| > 0 ==> Split(p, '=')[0] == Before(p, '=')
    ensures |Split(p, '=')| > 0 ==> (|Split(p, '=')| > 1 <==> !AllChar(After(p, '='), '='))
    ensures |Split(p, '=')| > 1 ==> Split(p, '=')[1] == Before(After(p, '='), '=')
  {
    if '=' in p {
      SplitKeepsSome(p, '=');
      SplitKeepsSecond(p, '=');
      if |Split(p, '=')| > 1 {
        SplitSecondPiece(p, '=');
      }
    } else {
      assert p[0] != '=';
    }
  }

  /** `addParameter(String)`: add the literal pair's value under its name. */
  function AddPair(b: Url, p: string, decode: string -> string): (r: Url)
    ensures r.path == b.path && r.extension == b.extension
    ensures AllChar(p, '=') || AllChar(After(p, '='), '=') ==> r == b
    ensures !AllChar(p, '=') && !AllChar(After(p, '='), '=') ==>
      r.params == Add(b.params, Before(p, '='), Single(decode(Before(After(p, '='), '='))))
  {
    match ParsePair(p, decode)
    case None => b
    case Some((name, v)) => b.(params := Add(b.params, name, v))
  }

  /** `setParameter(String)`: replace the name's values by the literal pair's value, or remove the name. */
  function SetPair(b: Url, p: string, decode: string -> string): (r: Url)
    ensures r.path == b.path && r.extension == b.extension
    ensures AllChar(p, '=') ==> r == b
    ensures !AllChar(p, '=') && AllChar(After(p, '='), '=') ==>
      r.params == Remove(b.params, Before(p, '='))
    ensures !AllChar(p, '=') && !AllChar(After(p, '='), '=') ==>
      r.params == Set(b.params, Before(p, '='), Single(decode(Before(After(p, '='), '='))))
    ensures !AllChar(p, '=') && !AllChar(After(p, '='), '=') ==>
      Get(r.params, Before(p, '=')) == Some([decode(Before(After(p, '='), '='))])
  {
    match ParsePair(p, decode)
    case None => b
    case Some((name, v)) => b.(params := Set(b.params, name, v))
  }

  /** The keys appear in `qs` in the same order as in `ps`, and every key's values only grew at the end. */
  ghost predicate Extends(ps: Params, qs: Params) {
    && Names(ps) <= Names(qs)
    && forall k :: k in Names(ps) ==> Get(ps, k).value <= Get(qs, k).value
  }

  /** `Extends` is transitive. */
  lemma ExtendsTrans(ps: Params, qs: Params, rs: Params)
    requires Extends(ps, qs) && Extends(qs, rs)
    ensures Extends(ps, rs)
  {
    forall k | k in Names(ps) ensures Get(ps, k).value <= Get(rs, k).value {
      assert k in Names(qs);
    }
  }

  /** One `add` extends the table. */
  lemma AddExtends(ps: Params, name: string, v: Value)
    ensures Extends(ps, Add(ps, name, v))
  {
  }

  /** One `addParameter(String)` extends the table and keeps its keys free of duplicates. */
  lemma AddPairStep(b: Url, p: string, decode: string -> string)
    ensures Extends(b.params, AddPair(b, p, decode).params)
    ensures Distinct(Names(b.params)) ==> Distinct(Names(AddPair(b, p, decode).params))
  {
    var r := AddPair(b, p, decode);
    var pr := ParsePair(p, decode);
    if pr.None? {
      assert r == b;
    } else {
      var name, v := pr.value.0, pr.value.1;
      assert r.params == Add(b.params, name, v);
      AddExtends(b.params, name, v);
      if !v.Null? && Distinct(Names(b.params)) {
        AddIsPut(b.params, name, v);
        DistinctKept(b.params, name, Get(b.params, name).GetOr([]) + Strings(v));
      }
    }
  }

  /** The literal pairs, added left to right. */
  function AddEach(b: Url, pairs: seq<string>, decode: string -> string): (r: Url)
    ensures r.path == b.path && r.extension == b.extension
    ensures Extends(b.params, r.params)
    ensures Distinct(Names(b.params)) ==> Distinct(Names(r.params))
    decreases |pairs|
  {
    if |pairs| == 0 then b
    else
      var b1 := AddPair(b, pairs[0], decode);
      AddPairStep(b, pairs[0], decode);
      var r := AddEach(b1, pairs[1..], decode);
      ExtendsTrans(b.params, b1.params, r.params);
      r
  }

  /** The literal pairs, set left to right. */
  function SetEach(b: Url, pairs: seq<string>, decode: string -> string): (r: Url)
    ensures r.path == b.path && r.extension == b.extension
    ensures Distinct(Names(b.params)) ==> Distinct(Names(r.params))
    decreases |pairs|
  {
    if |pairs| == 0 then b
    else
      var b1 := SetPair(b, pairs[0], decode);
      SetDistinct(b, pairs[0], decode);
      SetEach(b1, pairs[1..], decode)
  }

  /** A single `setParameter(String)` keeps the keys free of duplicates. */
  lemma SetDistinct(b: Url, p: string, decode: string -> string)
    ensures Distinct(Names(b.params)) ==> Distinct(Names(SetPair(b, p, decode).params))
  {
    if Distinct(Names(b.params)) {
      match ParsePair(p, decode)
      case None =>
      case Some((name, v)) =>
        DistinctKept(b.params, name, []);
        if !v.Null? {
          DistinctKept(Put(b.params, name, []), name, Strings(v));
        }
    }
  }

  /** The pieces of a query string: `&amp;` rewritten to `&`, then split at '&'. */
  function QueryPieces(q: string): seq<string> {
    Split(ReplaceAll(q, "&amp;", "&"), '&')
  }

  /**
    `addParameters(String)`: every pair of the query string added in order;
    an empty string changes nothing. Adding never drops a key, reorders the
    keys, or loses a value.
   */
  function AddParameters(b: Url, q: string, decode: string -> string): (r: Url)
    ensures r.path == b.path && r.extension == b.extension
    ensures q == "" ==> r == b
    ensures Extends(b.params, r.params)
    ensures Distinct(Names(b.params)) ==> Distinct(Names(r.params))
  {
    if q == "" then b else AddEach(b, QueryPieces(q), decode)
  }

  /** `setParameters(String)`: every pair of the query string set in order. */
  function SetParameters(b: Url, q: string, decode: string -> string): (r: Url)
    ensures r.path == b.path && r.extension == b.extension
    ensures q == "" ==> r == b
    ensures Distinct(Names(b.params)) ==> Distinct(Names(r.params))
  {
    if q == "" then b else SetEach(b, QueryPieces(q), decode)
  }

  // ---------------------------------------------------------------------
  // Construction, paths, serialisation
  // ---------------------------------------------------------------------

  /**
    `new UrlBuilder(url)`: split at the first '?', strip the extension from
    the part before it, and add the parameters of the part after it.
   */
  function Parse(url: string, decode: string -> string): (b: Url)
    ensures '?' !in b.path
    ensures b.extension.None? ==> b.path == Before(url, '?')
    ensures b.extension.Some? ==> Before(url, '?') == b.path + "." + b.extension.value
    ensures '?' !in url ==> b.params == []
    ensures Distinct(Names(b.params))
  {
    var urlPath := Before(url, '?');
    var (path, ext) := SplitExtension(urlPath);
    var b := Url(path, ext, []);
    if '?' in url then AddParameters(b, After(url, '?'), decode) else b
  }

  /** `p` without one leading '/', as `replaceFirst("^/", "")` leaves it. */
  function TrimLeadingSlash(p: string): (r: string)
    ensures "/" <= p ==> p == "/" + r
    ensures !("/" <= p) ==> r == p
  {
    if "/" <= p then p[1..] else p
  }

  /**
    `addPath(p)`: append a '/' and then `p` without one leading '/'. The path
    is not inspected, so a path ending in '/' or a `p` starting with "//"
    still leaves two slashes in a row.
   */
  function AddPath(b: Url, p: string): (r: Url)
    ensures r.params == b.params && r.extension == b.extension
    ensures !("/" <= p) ==> r.path == b.path + "/" + p
    ensures "/" <= p ==> r.path == b.path + p
  {
    b.(path := b.path + "/" + TrimLeadingSlash(p))
  }

  /** `removePath(p)`: drop `p` from the end of the path when the path ends with it. */
  function RemovePath(b: Url, p: string): (r: Url)
    ensures r.params == b.params && r.extension == b.extension
    ensures EndsWith(b.path, p) ==> r.path + p == b.path
    ensures !EndsWith(b.path, p) ==> r == b
  {
    if EndsWith(b.path, p) then b.(path := b.path[..|b.path| - |p|]) else b
  }

  /** `path.replaceAll("(.+)/$", "$1")`: one trailing '/' removed, unless the path is just "/". */
  function StripTrailingSlash(p: string): (r: string)
    ensures |p| >= 2 && p[|p| - 1] == '/' ==> r + "/" == p
    ensures !(|p| >= 2 && p[|p| - 1] == '/') ==> r == p
  {
    if |p| >= 2 && p[|p| - 1] == '/' then p[..|p| - 1] else p
  }

  /** The text `toString` writes before the query: the path, and the extension when it is not empty. */
  function Base(b: Url): string {
    match b.extension
    case None => b.path
    case Some(e) =>
      if |e| == 0 then b.path
      else StripTrailingSlash(b.path) + (if "." <= e then "" else ".") + e
  }

  /** One key's values as `toString` writes them: `key=encode(v)` joined by '&'. */
  function Group(e: Entry, encode: string -> string): string {
    Join("&", GroupPairs(e, encode))
  }

  /** The groups of all keys, in key order. */
  function Groups(ps: Params, encode: string -> string): (r: seq<string>)
    ensures |r| == |ps|
    ensures forall i :: 0 <= i < |ps| ==> r[i] == Group(ps[i], encode)
  {
    if |ps| == 0 then [] else [Group(ps[0], encode)] + Groups(ps[1..], encode)
  }

  /**
    The loop of `toString` over the keys: before each key's group it writes
    '&' if the text so far already holds a '?', and '?' otherwise.
   */
  function AppendGroups(sb: string, ps: Params, encode: string -> string): (r: string)
    ensures sb <= r
    decreases |ps|
  {
    if |ps| == 0 then sb
    else
      var sep := if '?' in sb then "&" else "?";
      AppendGroups(sb + sep + Group(ps[0], encode), ps[1..], encode)
  }

  /** `toString()`. */
  function ToString(b: Url, encode: string -> string): (r: string)
    ensures Base(b) <= r
    ensures b.params == [] ==> r == Base(b)
  {
    AppendGroups(Base(b), b.params, encode)
  }

  // ---------------------------------------------------------------------
  // Lemmas
  // ---------------------------------------------------------------------

  /** The query separator is written once: '?' unless the text already has one, '&' between groups. */
  lemma {:induction false} AppendGroupsShape(sb: string, ps: Params, encode: string -> string)
    requires |ps| > 0
    ensures AppendGroups(sb, ps, encode) ==
      sb + (if '?' in sb then "&" else "?") + Join("&", Groups(ps, encode))
    decreases |ps|
  {
    var sep := if '?' in sb then "&" else "?";
    var g := Group(ps[0], encode);
    var sb1 := sb + sep + g;
    assert AppendGroups(sb, ps, encode) == AppendGroups(sb1, ps[1..], encode);
    var gs := Groups(ps, encode);
    assert gs == [g] + Groups(ps[1..], encode);
    if |ps| > 1 {
      assert '?' in sb1 by {
        if '?' in sb {
          var k :| 0 <= k < |sb| && sb[k] == '?';
          assert sb1[k] == '?';
        } else {
          assert sb1[|sb|] == '?';
        }
      }
      AppendGroupsShape(sb1, ps[1..], encode);
      var rest := Join("&", Groups(ps[1..], encode));
      assert gs[1..] == Groups(ps[1..], encode);
      assert Join("&", gs) == g + "&" + rest;
      assert sb1 + "&" + rest == sb + sep + (g + "&" + rest);
    } else {
      assert Join("&", gs) == g;
    }
  }

  /** Joining is associative across a split of the pieces. */
  lemma {:induction false} JoinAppend(sep: string, xs: seq<string>, ys: seq<string>)
    requires |xs| > 0 && |ys| > 0
    ensures Join(sep, xs + ys) == Join(sep, xs) + sep + Join(sep, ys)
    decreases |xs|
  {
    if |xs| > 1 {
      JoinAppend(sep, xs[1..], ys);
      assert (xs + ys)[1..] == xs[1..] + ys;
    } else {
      assert (xs + ys)[1..] == ys;
    }
  }

  /** When no key is left without values, the groups together list every encoded pair, joined by '&'. */
  lemma {:induction false} GroupsArePairs(ps: Params, encode: string -> string)
    requires |ps| > 0
    requires forall i :: 0 <= i < |ps| ==> |ps[i].values| > 0
    ensures Join("&", Groups(ps, encode)) == Join("&", EncodedPairs(ps, encode))
    decreases |ps|
  {
    if |ps| > 1 {
      GroupsArePairs(ps[1..], encode);
      assert Groups(ps, encode) == [Group(ps[0], encode)] + Groups(ps[1..], encode);
      EncodedPairsNonEmpty(ps[1..], encode);
      JoinAppend("&", GroupPairs(ps[0], encode), EncodedPairs(ps[1..], encode));
    } else {
      assert EncodedPairs(ps, encode) == GroupPairs(ps[0], encode) + EncodedPairs(ps[1..], encode);
      assert EncodedPairs(ps, encode) == GroupPairs(ps[0], encode);
    }
  }

  /** A non-empty table whose keys all have values yields at least one pair. */
  lemma EncodedPairsNonEmpty(ps: Params, encode: string -> string)
    requires |ps| > 0 && |ps[0].values| > 0
    ensures |EncodedPairs(ps, encode)| > 0
  {
  }
}
