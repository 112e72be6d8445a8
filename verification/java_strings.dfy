/**
  The handful of java.lang.String operations the request utilities rely on,
  with the exact Java semantics that matter for them: `indexOf`, `split` on a
  one-character separator (trailing empty pieces dropped), literal
  `replaceAll`, `contains`, `startsWith`/`endsWith`, and `join`.
 */
module JavaStrings {
  import opened Wrappers

  /** True when every character of `s` is `c` (vacuously true for ""). */
  predicate AllChar(s: string, c: char) {
    forall i :: 0 <= i < |s| ==> s[i] == c
  }

  /** `s.indexOf(c)`: the first position of `c`, `None` standing for -1. */
  function IndexOf(s: string, c: char): (r: Option<nat>)
    ensures r.None? <==> c !in s
    ensures r.Some? ==> r.value < |s| && s[r.value] == c && c !in s[..r.value]
  {
    if |s| == 0 then None
    else if s[0] == c then Some(0)
    else
      match IndexOf(s[1..], c)
      case None => None
      case Some(i) =>
        assert s[1..][..i] == s[1..i + 1];
        Some(i + 1)
  }

  /** The text before the first `c`, or all of `s` when there is none. */
  function Before(s: string, c: char): (r: string)
    ensures c !in r && r <= s
    ensures c in s ==> |r| < |s| && s[|r|] == c
  {
    match IndexOf(s, c)
    case None => s
    case Some(i) => s[..i]
  }

  /** The text after the first `c`, or "" when there is none. */
  function After(s: string, c: char): (r: string)
    ensures c in s ==> s == Before(s, c) + [c] + r
    ensures c !in s ==> r == ""
  {
    match IndexOf(s, c)
    case None => ""
    case Some(i) => s[i + 1..]
  }

  /** `String.join`-style concatenation of `xs` with `sep` between neighbours. */
  function Join(sep: string, xs: seq<string>): string
  {
    if |xs| == 0 then ""
    else if |xs| == 1 then xs[0]
    else xs[0] + sep + Join(sep, xs[1..])
  }

  /**
    Every piece of `s` between occurrences of `c`, empty pieces included:
    the matches a `split` finds, before Java trims the trailing empties.
   */
  function RawSplit(s: string, c: char): (r: seq<string>)
    ensures |r| >= 1 && r[0] == Before(s, c)
    ensures forall i :: 0 <= i < |r| ==> c !in r[i]
    ensures c !in s ==> r == [s]
    decreases |s|
  {
    match IndexOf(s, c)
    case None => [s]
    case Some(i) => [s[..i]] + RawSplit(s[i + 1..], c)
  }

  /** One step of splitting: the first piece, then the pieces of what follows the separator. */
  lemma RawSplitStep(s: string, c: char)
    requires c in s
    ensures RawSplit(s, c) == [Before(s, c)] + RawSplit(After(s, c), c)
  {
  }

  /** `xs` with its trailing empty strings removed. */
  function DropTrailingEmpty(xs: seq<string>): (r: seq<string>)
    ensures r <= xs
    ensures |r| == 0 || r[|r| - 1] != ""
    ensures forall j :: |r| <= j < |xs| ==> xs[j] == ""
  {
    if |xs| > 0 && xs[|xs| - 1] == "" then DropTrailingEmpty(xs[..|xs| - 1]) else xs
  }

  /**
    `s.split(c)` with limit 0, as java.lang.String does it: when `c` does not
    occur the result is `[s]` (even for ""); otherwise the pieces between the
    occurrences, with trailing empty pieces removed.
   */
  function Split(s: string, c: char): (r: seq<string>)
    ensures c !in s ==> r == [s]
    ensures c in s ==> r <= RawSplit(s, c) && (|r| == 0 || r[|r| - 1] != "")
    ensures c in s ==> forall j :: |r| <= j < |RawSplit(s, c)| ==> RawSplit(s, c)[j] == ""
  {
    if c !in s then [s] else DropTrailingEmpty(RawSplit(s, c))
  }

  /** `s.contains(t)`, computed by trying every start position in turn. */
  predicate Contains(s: string, t: string)
  {
    t <= s || (|s| > 0 && Contains(s[1..], t))
  }

  /** `s.endsWith(t)`. */
  predicate EndsWith(s: string, t: string) {
    |t| <= |s| && s[|s| - |t|..] == t
  }

  /**
    `s.replaceAll(pat, rep)` for a pattern without regex metacharacters:
    leftmost, non-overlapping occurrences, scanning resumes after each one.
   */
  function ReplaceAll(s: string, pat: string, rep: string): string
    requires |pat| > 0
  {
    if |s| == 0 then ""
    else if pat <= s then rep + ReplaceAll(s[|pat|..], pat, rep)
    else [s[0]] + ReplaceAll(s[1..], pat, rep)
  }

  /**
    True when `c` equals the ASCII upper-case letter `u` under Java's
    `equalsIgnoreCase`: `u` itself, its lower-case form, or LATIN SMALL
    LETTER LONG S, whose upper case is 'S'.
   */
  predicate SameIgnoringCase(c: char, u: char)
    requires 'A' <= u <= 'Z'
  {
    c == u || c as int == u as int + 32 || (u == 'S' && c == 'ſ')
  }

  /**
    `word.equalsIgnoreCase(s)` for an upper-case ASCII `word` free of the
    letters I and K (the two letters for which Unicode adds further matches).
   */
  predicate EqualsIgnoreCase(s: Option<string>, word: string)
    requires forall i :: 0 <= i < |word| ==> 'A' <= word[i] <= 'Z' && word[i] != 'I' && word[i] != 'K'
  {
    s.Some? && |s.value| == |word|
    && forall i :: 0 <= i < |word| ==> SameIgnoringCase(s.value[i], word[i])
  }

  // ---------------------------------------------------------------------
  // Lemmas
  // ---------------------------------------------------------------------

  /** `t` occurs in `s` starting at position `i`. */
  predicate OccursAt(s: string, t: string, i: int) {
    0 <= i && i + |t| <= |s| && s[i..i + |t|] == t
  }

  /** `contains` holds exactly when `t` occurs at some position of `s`. */
  lemma {:induction false} ContainsIff(s: string, t: string)
    ensures Contains(s, t) <==> exists i :: OccursAt(s, t, i)
    decreases |s|
  {
    if t <= s {
      assert OccursAt(s, t, 0);
    } else if |s| > 0 {
      ContainsIff(s[1..], t);
      if Contains(s[1..], t) {
        var i :| OccursAt(s[1..], t, i);
        assert s[1..][i..i + |t|] == s[i + 1..i + 1 + |t|];
        assert OccursAt(s, t, i + 1);
      }
      if exists i :: OccursAt(s, t, i) {
        var i :| OccursAt(s, t, i);
        assert i != 0;
        assert s[1..][i - 1..i - 1 + |t|] == s[i..i + |t|];
        assert OccursAt(s[1..], t, i - 1);
      }
    }
  }

  /** A single character is contained exactly when it is a member. */
  lemma {:induction false} ContainsChar(s: string, c: char)
    ensures Contains(s, [c]) <==> c in s
    decreases |s|
  {
    if |s| > 0 {
      ContainsChar(s[1..], c);
      assert s == [s[0]] + s[1..];
    }
  }

  /** A character outside `s` that belongs to `t` rules out `s.contains(t)`. */
  lemma {:induction false} NotContainsMissingChar(s: string, t: string, c: char)
    requires c in t && c !in s
    ensures !Contains(s, t)
    decreases |s|
  {
    if |s| > 0 {
      NotContainsMissingChar(s[1..], t, c);
    }
  }

  /** When `s` lacks one of the pattern's characters, `replaceAll` changes nothing. */
  lemma {:induction false} ReplaceAllMissingChar(s: string, pat: string, rep: string, c: char)
    requires |pat| > 0 && c in pat && c !in s
    ensures ReplaceAll(s, pat, rep) == s
    decreases |s|
  {
    if |s| > 0 {
      ReplaceAllMissingChar(s[1..], pat, rep, c);
      assert s == [s[0]] + s[1..];
    }
  }

  /** A prefix without the pattern's first character passes through `replaceAll` unchanged. */
  lemma {:induction false} ReplaceAllSkip(x: string, y: string, pat: string, rep: string)
    requires |pat| > 0 && pat[0] !in x
    ensures ReplaceAll(x + y, pat, rep) == x + ReplaceAll(y, pat, rep)
    decreases |x|
  {
    if |x| > 0 {
      assert (x + y)[0] == x[0];
      assert (x + y)[1..] == x[1..] + y;
      ReplaceAllSkip(x[1..], y, pat, rep);
      assert x == [x[0]] + x[1..];
    } else {
      assert x + y == y;
    }
  }

  /** An occurrence of the pattern at the front is replaced, and scanning resumes after it. */
  lemma ReplaceAllFront(y: string, pat: string, rep: string)
    requires |pat| > 0
    ensures ReplaceAll(pat + y, pat, rep) == rep + ReplaceAll(y, pat, rep)
  {
    assert pat <= pat + y;
    assert (pat + y)[|pat|..] == y;
  }

  /**
    One occurrence of the pattern between a part without its first
    character and a part without its character `c` is replaced, and nothing else.
   */
  lemma ReplaceAllOnce(x: string, y: string, pat: string, rep: string, c: char)
    requires |pat| > 0 && pat[0] !in x && c in pat && c !in y
    ensures ReplaceAll(x + pat + y, pat, rep) == x + rep + y
  {
    ReplaceAllSkip(x, pat + y, pat, rep);
    ReplaceAllFront(y, pat, rep);
    ReplaceAllMissingChar(y, pat, rep, c);
    assert x + pat + y == x + (pat + y);
  }

  /** Joining the raw pieces with the separator restores the input. */
  lemma {:induction false} JoinRawSplit(s: string, c: char)
    ensures Join([c], RawSplit(s, c)) == s
    decreases |s|
  {
    if c in s {
      var a := After(s, c);
      JoinRawSplit(a, c);
      RawSplitStep(s, c);
    }
  }

  /** A character absent from every piece is absent from their join with another separator. */
  lemma {:induction false} JoinAvoids(sep: string, xs: seq<string>, c: char)
    requires c !in sep
    requires forall i :: 0 <= i < |xs| ==> c !in xs[i]
    ensures c !in Join(sep, xs)
    decreases |xs|
  {
    if |xs| > 1 {
      JoinAvoids(sep, xs[1..], c);
    }
  }

  /** Raw splitting undoes joining when no piece contains the separator. */
  lemma {:induction false} RawSplitJoin(xs: seq<string>, c: char)
    requires |xs| >= 1
    requires forall i :: 0 <= i < |xs| ==> c !in xs[i]
    ensures RawSplit(Join([c], xs), c) == xs
    decreases |xs|
  {
    var s := Join([c], xs);
    if |xs| > 1 {
      var rest := Join([c], xs[1..]);
      assert s == xs[0] + [c] + rest;
      assert s[|xs[0]|] == c;
      assert Before(s, c) == xs[0] by {
        assert c !in s[..|xs[0]|] by { assert s[..|xs[0]|] == xs[0]; }
      }
      assert After(s, c) == rest;
      RawSplitStep(s, c);
      RawSplitJoin(xs[1..], c);
    } else {
      assert c !in s;
    }
  }

  /** Every raw piece is empty exactly when the input is made of separators only. */
  lemma {:induction false} RawSplitAllEmpty(s: string, c: char)
    ensures (forall i :: 0 <= i < |RawSplit(s, c)| ==> RawSplit(s, c)[i] == "") <==> AllChar(s, c)
  {
    if AllChar(s, c) {
      AllCharRawSplitEmpty(s, c);
    } else {
      NotAllCharRawSplit(s, c);
    }
  }

  /** Anything but a run of separators leaves a non-empty piece. */
  lemma NotAllCharRawSplit(s: string, c: char)
    requires !AllChar(s, c)
    ensures exists i :: 0 <= i < |RawSplit(s, c)| && RawSplit(s, c)[i] != ""
  {
    if forall i :: 0 <= i < |RawSplit(s, c)| ==> RawSplit(s, c)[i] == "" {
      RawSplitEmptyAllChar(s, c);
    }
  }

  /** A run of separators splits into empty pieces only. */
  lemma {:induction false} AllCharRawSplitEmpty(s: string, c: char)
    requires AllChar(s, c)
    ensures forall i :: 0 <= i < |RawSplit(s, c)| ==> RawSplit(s, c)[i] == ""
    decreases |s|
  {
    var r := RawSplit(s, c);
    if |s| > 0 {
      assert s[0] == c;
      assert IndexOf(s, c) == Some(0);
      var a := After(s, c);
      assert a == s[1..];
      RawSplitStep(s, c);
      AllCharRawSplitEmpty(a, c);
      forall i | 0 <= i < |r| ensures r[i] == "" {
        if i > 0 { assert r[i] == r[1..][i - 1]; }
      }
    }
  }

  /** Empty pieces only come from a run of separators. */
  lemma {:induction false} RawSplitEmptyAllChar(s: string, c: char)
    requires forall i :: 0 <= i < |RawSplit(s, c)| ==> RawSplit(s, c)[i] == ""
    ensures AllChar(s, c)
    decreases |s|
  {
    var r := RawSplit(s, c);
    if c in s {
      var a := After(s, c);
      RawSplitStep(s, c);
      assert Before(s, c) == r[0] == "";
      forall i | 0 <= i < |RawSplit(a, c)| ensures RawSplit(a, c)[i] == "" {
        assert r[1..][i] == r[i + 1];
      }
      RawSplitEmptyAllChar(a, c);
      assert s == [c] + a;
    } else {
      assert s == r[0];
    }
  }

  /** Dropping trailing empties leaves more than `k` pieces exactly when a non-empty piece sits at index `k` or later. */
  lemma {:induction false} DropTrailingEmptyLength(xs: seq<string>, k: nat)
    ensures |DropTrailingEmpty(xs)| > k <==> exists j :: k <= j < |xs| && xs[j] != ""
    decreases |xs|
  {
    if |xs| > 0 && xs[|xs| - 1] == "" {
      var ys := xs[..|xs| - 1];
      DropTrailingEmptyLength(ys, k);
      if exists j :: k <= j < |xs| && xs[j] != "" {
        var j :| k <= j < |xs| && xs[j] != "";
        assert ys[j] != "";
      }
      if exists j :: k <= j < |ys| && ys[j] != "" {
        var j :| k <= j < |ys| && ys[j] != "";
        assert xs[j] != "";
      }
    } else if |xs| > k {
      assert xs[|xs| - 1] != "";
    }
  }

  /** Dropping trailing empties keeps some piece exactly when some piece is non-empty; the first piece stays first. */
  lemma DropKeepsSome(xs: seq<string>)
    ensures |DropTrailingEmpty(xs)| > 0 <==> !(forall i :: 0 <= i < |xs| ==> xs[i] == "")
    ensures |DropTrailingEmpty(xs)| > 0 ==> DropTrailingEmpty(xs)[0] == xs[0]
  {
    DropTrailingEmptyLength(xs, 0);
  }

  /** `split` at an occurring separator keeps some piece exactly when the input is not all separators. */
  lemma SplitKeepsSome(s: string, c: char)
    requires c in s
    ensures |Split(s, c)| > 0 <==> !AllChar(s, c)
    ensures |Split(s, c)| > 0 ==> Split(s, c)[0] == Before(s, c)
  {
    var raw := RawSplit(s, c);
    assert Split(s, c) == DropTrailingEmpty(raw);
    DropKeepsSome(raw);
    RawSplitAllEmpty(s, c);
    if |raw| > 0 {
      RawSplitStep(s, c);
    }
  }

  /**
    `split` at an occurring separator keeps a second piece exactly when the
    text after the first separator is not all separators.
   */
  lemma SplitKeepsSecond(s: string, c: char)
    requires c in s
    ensures |Split(s, c)| > 1 <==> !AllChar(After(s, c), c)
  {
    var raw := RawSplit(s, c);
    var rest := RawSplit(After(s, c), c);
    RawSplitStep(s, c);
    assert raw[1..] == rest;
    RawSplitAllEmpty(After(s, c), c);
    DropTrailingEmptyLength(raw, 1);
    if exists j :: 1 <= j < |raw| && raw[j] != "" {
      var j :| 1 <= j < |raw| && raw[j] != "";
      assert rest[j - 1] == raw[j];
    }
    if exists j :: 0 <= j < |rest| && rest[j] != "" {
      var j :| 0 <= j < |rest| && rest[j] != "";
      assert raw[j + 1] == rest[j];
    }
  }

  /** The second piece `split` keeps is the text between the first and the second separator. */
  lemma SplitSecondPiece(s: string, c: char)
    requires c in s && |Split(s, c)| > 1
    ensures Split(s, c)[1] == Before(After(s, c), c)
  {
    RawSplitStep(s, c);
    assert RawSplit(s, c)[1] == RawSplit(After(s, c), c)[0];
  }

  /** `split` returns its input, even the empty string, as the only piece when the separator does not occur. */
  lemma SplitSingle(s: string, c: char)
    requires c !in s
    ensures Split(s, c) == [s]
  {
  }

  /** `split` inverts `join` when every piece is non-empty and free of the separator. */
  lemma {:induction false} SplitJoin(xs: seq<string>, c: char)
    requires |xs| >= 1
    requires forall i :: 0 <= i < |xs| ==> c !in xs[i] && xs[i] != ""
    ensures Split(Join([c], xs), c) == xs
  {
    var s := Join([c], xs);
    RawSplitJoin(xs, c);
    if c in s {
      assert DropTrailingEmpty(xs) == xs;
    } else {
      assert RawSplit(s, c) == [s];
    }
  }
}
