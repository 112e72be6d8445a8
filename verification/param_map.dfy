/**
  The URL builder's parameter table, a `LinkedHashMap<String, List<String>>`:
  an association list whose keys keep their first-insertion position and
  whose values keep the order in which they were added.
 */
module ParamMap {
  import opened Wrappers

  /** One key of the table together with its values, oldest first. */
  datatype Entry = Entry(name: string, values: seq<string>)

  /** The table, in the map's iteration order. */
  type Params = seq<Entry>

  /**
    An argument of `addParameter(name, value)` / `setParameter(name, value)`:
    `null`, one object, or an array or collection. Each element is already
    turned into text the way `String.valueOf` does it.
   */
  datatype Value = Null | Single(text: string) | Many(items: seq<string>)

  /** The strings a non-null value contributes, in order. */
  function Strings(v: Value): (r: seq<string>)
    ensures v.Single? ==> r == [v.text]
    ensures v.Many? ==> r == v.items
  {
    match v
    case Null => []
    case Single(t) => [t]
    case Many(items) => items
  }

  /** The keys, in iteration order. */
  function Names(ps: Params): (r: seq<string>)
    ensures |r| == |ps|
  {
    if |ps| == 0 then [] else [ps[0].name] + Names(ps[1..])
  }

  /** The key at each position is the name of the entry there. */
  lemma {:induction false} NamesIndex(ps: Params)
    ensures forall i :: 0 <= i < |ps| ==> Names(ps)[i] == ps[i].name
    decreases |ps|
  {
    if |ps| > 0 {
      NamesIndex(ps[1..]);
      assert forall i :: 1 <= i < |ps| ==> ps[1..][i - 1] == ps[i];
    }
  }

  /** No string occurs twice. */
  predicate Distinct(xs: seq<string>) {
    forall i, j :: 0 <= i < j < |xs| ==> xs[i] != xs[j]
  }

  /** `xs` without any occurrence of `k`, order kept. */
  function Without(xs: seq<string>, k: string): (r: seq<string>)
    ensures k !in r
    ensures forall x :: x in r <==> x in xs && x != k
  {
    if |xs| == 0 then []
    else if xs[0] == k then Without(xs[1..], k)
    else [xs[0]] + Without(xs[1..], k)
  }

  /** `map.get(k)`: the values of `k`, or `None` for an absent key. */
  function Get(ps: Params, k: string): (r: Option<seq<string>>)
    ensures r.Some? <==> k in Names(ps)
  {
    if |ps| == 0 then None
    else if ps[0].name == k then Some(ps[0].values)
    else Get(ps[1..], k)
  }

  /**
    `map.put(k, vs)`: the values of `k` become `vs`; an existing key keeps its
    position and a new key goes last.
   */
  function Put(ps: Params, k: string, vs: seq<string>): (r: Params)
    ensures Get(r, k) == Some(vs)
    ensures forall j :: j != k ==> Get(r, j) == Get(ps, j)
    ensures Names(r) == if k in Names(ps) then Names(ps) else Names(ps) + [k]
  {
    if |ps| == 0 then [Entry(k, vs)]
    else if ps[0].name == k then [Entry(k, vs)] + ps[1..]
    else [ps[0]] + Put(ps[1..], k, vs)
  }

  /** `map.remove(k)`: `k` disappears, every other key keeps its values and order. */
  function Remove(ps: Params, k: string): (r: Params)
    ensures Get(r, k) == None
    ensures forall j :: j != k ==> Get(r, j) == Get(ps, j)
    ensures Names(r) == Without(Names(ps), k)
  {
    if |ps| == 0 then []
    else if ps[0].name == k then Remove(ps[1..], k)
    else [ps[0]] + Remove(ps[1..], k)
  }

  /**
    `addParameter(name, value)`: a null value changes nothing; otherwise the
    stringified values are appended after the ones `name` already has.
   */
  function Add(ps: Params, name: string, v: Value): (r: Params)
    ensures v.Null? ==> r == ps
    ensures !v.Null? ==> Get(r, name) == Some(Get(ps, name).GetOr([]) + Strings(v))
    ensures forall j :: j != name ==> Get(r, j) == Get(ps, j)
    ensures !v.Null? ==> Names(r) == if name in Names(ps) then Names(ps) else Names(ps) + [name]
  {
    if v.Null? then ps else Put(ps, name, Get(ps, name).GetOr([]) + Strings(v))
  }

  /**
    `setParameter(name, value)`: a null value removes `name`; otherwise the
    stringified values replace whatever `name` had, in the same position.
   */
  function Set(ps: Params, name: string, v: Value): (r: Params)
    ensures v.Null? ==> Get(r, name) == None && Names(r) == Without(Names(ps), name)
    ensures !v.Null? ==> Get(r, name) == Some(Strings(v))
    ensures forall j :: j != name ==> Get(r, j) == Get(ps, j)
    ensures !v.Null? ==> Names(r) == if name in Names(ps) then Names(ps) else Names(ps) + [name]
  {
    if v.Null? then Remove(ps, name)
    else
      var cleared := Put(ps, name, []);
      assert Get(cleared, name).GetOr([]) + Strings(v) == Strings(v);
      Add(cleared, name, v)
  }

  /** The `name=encode(value)` pairs of one key, in value order. */
  function GroupPairs(e: Entry, encode: string -> string): (r: seq<string>)
    ensures |r| == |e.values|
    ensures forall i :: 0 <= i < |r| ==> r[i] == e.name + "=" + encode(e.values[i])
  {
    seq(|e.values|, i requires 0 <= i < |e.values| => e.name + "=" + encode(e.values[i]))
  }

  /** Every `name=encode(value)` pair of the table: keys in order, each key's values together. */
  function EncodedPairs(ps: Params, encode: string -> string): seq<string>
  {
    if |ps| == 0 then [] else GroupPairs(ps[0], encode) + EncodedPairs(ps[1..], encode)
  }

  // ---------------------------------------------------------------------
  // Lemmas
  // ---------------------------------------------------------------------

  /** Keys of a concatenation are the concatenated keys. */
  lemma {:induction false} NamesAppend(ps: Params, qs: Params)
    ensures Names(ps + qs) == Names(ps) + Names(qs)
    decreases |ps|
  {
    if |ps| == 0 {
      assert ps + qs == qs;
    } else {
      assert (ps + qs)[1..] == ps[1..] + qs;
      NamesAppend(ps[1..], qs);
    }
  }

  /** `put` and `remove` keep the keys free of duplicates. */
  lemma {:induction false} DistinctKept(ps: Params, k: string, vs: seq<string>)
    requires Distinct(Names(ps))
    ensures Distinct(Names(Put(ps, k, vs)))
    ensures Distinct(Names(Remove(ps, k)))
  {
    WithoutDistinct(Names(ps), k);
  }

  /** Filtering a duplicate-free sequence leaves it duplicate-free. */
  lemma {:induction false} WithoutDistinct(xs: seq<string>, k: string)
    requires Distinct(xs)
    ensures Distinct(Without(xs, k))
    decreases |xs|
  {
    if |xs| > 0 {
      assert Distinct(xs[1..]);
      WithoutDistinct(xs[1..], k);
      if xs[0] != k {
        assert xs[0] !in xs[1..];
        assert xs[0] !in Without(xs[1..], k);
      }
    }
  }

  /** A second `put` of the same key overrides the first and leaves no trace of it. */
  lemma {:induction false} PutPut(ps: Params, k: string, a: seq<string>, b: seq<string>)
    ensures Put(Put(ps, k, a), k, b) == Put(ps, k, b)
    decreases |ps|
  {
    if |ps| > 0 && ps[0].name != k {
      PutPut(ps[1..], k, a, b);
    }
  }

  /** Removing after a `put` of the same key is the same as removing at once. */
  lemma {:induction false} RemovePut(ps: Params, k: string, a: seq<string>)
    ensures Remove(Put(ps, k, a), k) == Remove(ps, k)
    decreases |ps|
  {
    if |ps| > 0 && ps[0].name != k {
      RemovePut(ps[1..], k, a);
    }
  }

  /** Removing an absent key changes nothing. */
  lemma {:induction false} RemoveAbsent(ps: Params, k: string)
    requires k !in Names(ps)
    ensures Remove(ps, k) == ps
    decreases |ps|
  {
    if |ps| > 0 {
      assert Names(ps) == [ps[0].name] + Names(ps[1..]);
      RemoveAbsent(ps[1..], k);
      assert ps == [ps[0]] + ps[1..];
    }
  }

  /** A new key is put at the end of the table. */
  lemma {:induction false} PutNew(ps: Params, k: string, vs: seq<string>)
    requires k !in Names(ps)
    ensures Put(ps, k, vs) == ps + [Entry(k, vs)]
    decreases |ps|
  {
    if |ps| > 0 {
      assert Names(ps) == [ps[0].name] + Names(ps[1..]);
      PutNew(ps[1..], k, vs);
      assert Put(ps, k, vs) == [ps[0]] + (ps[1..] + [Entry(k, vs)]);
      assert ps == [ps[0]] + ps[1..];
    }
  }

  /** Putting the key of the last entry, absent elsewhere, rewrites that entry in place. */
  lemma {:induction false} PutLast(ps: Params, k: string, a: seq<string>, b: seq<string>)
    requires k !in Names(ps)
    ensures Put(ps + [Entry(k, a)], k, b) == ps + [Entry(k, b)]
    decreases |ps|
  {
    if |ps| > 0 {
      assert Names(ps) == [ps[0].name] + Names(ps[1..]);
      assert (ps + [Entry(k, a)])[1..] == ps[1..] + [Entry(k, a)];
      PutLast(ps[1..], k, a, b);
      assert Put(ps + [Entry(k, a)], k, b) == [ps[0]] + (ps[1..] + [Entry(k, b)]);
      assert ps == [ps[0]] + ps[1..];
    }
  }

  /** A non-null `add` is a `put` of the old values followed by the new strings. */
  lemma AddIsPut(ps: Params, name: string, v: Value)
    requires !v.Null?
    ensures Add(ps, name, v) == Put(ps, name, Get(ps, name).GetOr([]) + Strings(v))
  {
  }

  /** Adding twice under one key is one `put` of the old values and both additions. */
  lemma AddTwiceIsPut(ps: Params, name: string, v: Value, w: Value)
    requires !v.Null? && !w.Null?
    ensures Add(Add(ps, name, v), name, w) == Put(ps, name, Get(ps, name).GetOr([]) + Strings(v) + Strings(w))
  {
    var x := Get(ps, name).GetOr([]) + Strings(v);
    AddIsPut(ps, name, v);
    AddIsPut(Put(ps, name, x), name, w);
    PutPut(ps, name, x, x + Strings(w));
  }

  /** Adding `v` and then `w` under one key appends both, `v`'s strings first. */
  lemma AddAdd(ps: Params, name: string, v: Value, w: Value)
    requires !v.Null? && !w.Null?
    ensures Add(Add(ps, name, v), name, w) == Add(ps, name, Many(Strings(v) + Strings(w)))
  {
    var sv, sw := Strings(v), Strings(w);
    var before := Get(ps, name).GetOr([]);
    calc {
      Add(Add(ps, name, v), name, w);
      { AddTwiceIsPut(ps, name, v, w); }
      Put(ps, name, before + sv + sw);
      { assert before + sv + sw == before + Strings(Many(sv + sw)); }
      Put(ps, name, before + Strings(Many(sv + sw)));
      { AddIsPut(ps, name, Many(sv + sw)); }
      Add(ps, name, Many(sv + sw));
    }
  }

  /** Adding each string as its own single value, left to right. */
  function AddSingles(ps: Params, name: string, items: seq<string>): Params
    decreases |items|
  {
    if |items| == 0 then ps else AddSingles(Add(ps, name, Single(items[0])), name, items[1..])
  }

  /**
    An array or collection is added element by element: adding it at once
    is adding each element as a single value, in order.
   */
  lemma {:induction false} AddManyIsSingles(ps: Params, name: string, items: seq<string>)
    requires |items| > 0
    ensures Add(ps, name, Many(items)) == AddSingles(ps, name, items)
    decreases |items|
  {
    var x, rest := items[0], items[1..];
    var once := Add(ps, name, Single(x));
    assert AddSingles(ps, name, items) == AddSingles(once, name, rest);
    if |rest| == 0 {
      assert items == [x];
      AddIsPut(ps, name, Many(items));
      AddIsPut(ps, name, Single(x));
    } else {
      AddManyIsSingles(once, name, rest);
      AddAdd(ps, name, Single(x), Many(rest));
      assert Strings(Single(x)) + Strings(Many(rest)) == items;
    }
  }

  /** A non-null `set` is a `put` of the value's strings. */
  lemma SetIsPut(ps: Params, name: string, v: Value)
    requires !v.Null?
    ensures Set(ps, name, v) == Put(ps, name, Strings(v))
  {
    PutPut(ps, name, [], Strings(v));
  }

  /** Setting a key overrides an earlier `add` of that key. */
  lemma SetAfterAdd(ps: Params, name: string, v: Value, w: Value)
    ensures Set(Add(ps, name, v), name, w) == Set(ps, name, w)
  {
    if !v.Null? {
      var x := Get(ps, name).GetOr([]) + Strings(v);
      if w.Null? {
        RemovePut(ps, name, x);
      } else {
        SetIsPut(Put(ps, name, x), name, w);
        SetIsPut(ps, name, w);
        PutPut(ps, name, x, Strings(w));
      }
    }
  }

  /**
    Setting a key overrides an earlier non-null `set` of that key (a null
    `set` removes the key, so a later `set` puts it last instead).
   */
  lemma SetAfterSet(ps: Params, name: string, v: Value, w: Value)
    requires !v.Null?
    ensures Set(Set(ps, name, v), name, w) == Set(ps, name, w)
  {
    SetIsPut(ps, name, v);
    if w.Null? {
      RemovePut(ps, name, Strings(v));
    } else {
      SetIsPut(Put(ps, name, Strings(v)), name, w);
      SetIsPut(ps, name, w);
      PutPut(ps, name, Strings(v), Strings(w));
    }
  }

  /** Removing twice is removing once. */
  lemma {:induction false} RemoveTwice(ps: Params, k: string)
    ensures Remove(Remove(ps, k), k) == Remove(ps, k)
  {
    RemoveAbsent(Remove(ps, k), k);
  }

  /** After `remove(k)`, setting `k` puts it last. */
  lemma {:induction false} SetAfterRemove(ps: Params, k: string, w: Value)
    requires !w.Null?
    ensures Set(Remove(ps, k), k, w) == Remove(ps, k) + [Entry(k, Strings(w))]
  {
    var r := Remove(ps, k);
    PutNew(r, k, []);
    PutLast(r, k, [], Strings(w));
  }
}
