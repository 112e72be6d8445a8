/**
  What a JSF `ResponseWriter` is asked to do, as a trace of events, and when
  such a trace is well formed: every element closed by an `End` of the same
  name, innermost first, and attributes written only while an element's
  start tag is still open.
 */
module Markup {
  import opened Wrappers

  /**
    One writer call: `startElement`, `writeAttribute`, `write`, `endElement`,
    or the whole output of a child component's `encodeAll`.
   */
  datatype Event =
    | Start(tag: string)
    | Attr(name: string, value: string)
    | Text(text: string)
    | End(tag: string)
    | Child(id: string)

  /** The writer's state: the open elements, innermost last, and whether a start tag still takes attributes. */
  datatype Writer = Writer(open: seq<string>, inStartTag: bool)

  /** One event applied to the writer; `None` when the event is out of place. */
  function Step(w: Writer, e: Event): (r: Option<Writer>)
    ensures e.Start? ==> r == Some(Writer(w.open + [e.tag], true))
    ensures e.Attr? ==> (r.Some? <==> w.inStartTag) && (r.Some? ==> r.value == w)
    ensures e.End? ==> (r.Some? <==> |w.open| > 0 && w.open[|w.open| - 1] == e.tag)
    ensures e.End? && r.Some? ==> r.value.open + [e.tag] == w.open && !r.value.inStartTag
    ensures e.Text? || e.Child? ==> r == Some(Writer(w.open, false))
  {
    match e
    case Start(t) => Some(Writer(w.open + [t], true))
    case Attr(_, _) => if w.inStartTag then Some(w) else None
    case Text(_) => Some(w.(inStartTag := false))
    case Child(_) => Some(w.(inStartTag := false))
    case End(t) =>
      if |w.open| > 0 && w.open[|w.open| - 1] == t then Some(Writer(w.open[..|w.open| - 1], false))
      else None
  }

  /** The events applied left to right; `None` as soon as one is out of place. */
  function Run(t: seq<Event>, w: Writer): Option<Writer>
    decreases |t|
  {
    if |t| == 0 then Some(w)
    else
      match Step(w, t[0])
      case None => None
      case Some(w1) => Run(t[1..], w1)
  }

  /** A trace that, written on a fresh writer, leaves no element open. */
  predicate WellFormed(t: seq<Event>) {
    Run(t, Writer([], false)).Some? && Run(t, Writer([], false)).value.open == []
  }

  /** The texts a trace writes, in order. */
  function Texts(t: seq<Event>): (r: seq<string>)
    ensures |r| <= |t|
    decreases |t|
  {
    if |t| == 0 then []
    else (if t[0].Text? then [t[0].text] else []) + Texts(t[1..])
  }

  /** The children a trace encodes, in order. */
  function Children(t: seq<Event>): (r: seq<string>)
    ensures |r| <= |t|
    decreases |t|
  {
    if |t| == 0 then []
    else (if t[0].Child? then [t[0].id] else []) + Children(t[1..])
  }

  /** Running two traces one after the other is running their concatenation. */
  lemma {:induction false} RunConcat(a: seq<Event>, b: seq<Event>, w: Writer)
    ensures Run(a + b, w) == match Run(a, w) case None => None case Some(w1) => Run(b, w1)
    decreases |a|
  {
    if |a| > 0 {
      assert (a + b)[0] == a[0];
      assert (a + b)[1..] == a[1..] + b;
      match Step(w, a[0])
      case None =>
        assert Run(a, w) == None;
        assert Run(a + b, w) == None;
      case Some(w1) =>
        RunConcat(a[1..], b, w1);
        assert Run(a, w) == Run(a[1..], w1);
        assert Run(a + b, w) == Run(a[1..] + b, w1);
    } else {
      assert a + b == b;
    }
  }

  /**
    Elements already open below a trace play no part in it: whatever the
    trace does from a stack `p`, it does the same on top of `s + p`.
   */
  lemma {:induction false} RunUnder(t: seq<Event>, s: seq<string>, p: seq<string>, inTag: bool)
    requires Run(t, Writer(p, inTag)).Some?
    ensures Run(t, Writer(s + p, inTag)).Some?
    ensures Run(t, Writer(s + p, inTag)).value ==
      Writer(s + Run(t, Writer(p, inTag)).value.open, Run(t, Writer(p, inTag)).value.inStartTag)
    decreases |t|
  {
    if |t| > 0 {
      var w1 := Step(Writer(p, inTag), t[0]).value;
      StepUnder(t[0], s, p, inTag);
      RunUnder(t[1..], s, w1.open, w1.inStartTag);
    }
  }

  /** One event under extra open elements acts as it does without them. */
  lemma StepUnder(e: Event, s: seq<string>, p: seq<string>, inTag: bool)
    requires Step(Writer(p, inTag), e).Some?
    ensures Step(Writer(s + p, inTag), e) ==
      Some(Writer(s + Step(Writer(p, inTag), e).value.open, Step(Writer(p, inTag), e).value.inStartTag))
  {
    match e
    case Start(g) =>
      assert (s + p) + [g] == s + (p + [g]);
    case End(g) =>
      assert (s + p)[..|s + p| - 1] == s + p[..|p| - 1];
    case _ =>
  }

  /** A well-formed trace written inside open elements leaves exactly those open. */
  lemma WellFormedUnder(t: seq<Event>, open: seq<string>)
    requires WellFormed(t)
    ensures Run(t, Writer(open, false)).Some? && Run(t, Writer(open, false)).value.open == open
  {
    RunUnder(t, open, [], false);
    assert open + [] == open;
  }

  /** The texts of a concatenation are the texts of each part. */
  lemma {:induction false} TextsConcat(a: seq<Event>, b: seq<Event>)
    ensures Texts(a + b) == Texts(a) + Texts(b)
    decreases |a|
  {
    if |a| > 0 {
      assert (a + b)[1..] == a[1..] + b;
      TextsConcat(a[1..], b);
    } else {
      assert a + b == b;
    }
  }

  /** The children of a concatenation are the children of each part. */
  lemma {:induction false} ChildrenConcat(a: seq<Event>, b: seq<Event>)
    ensures Children(a + b) == Children(a) + Children(b)
    decreases |a|
  {
    if |a| > 0 {
      assert (a + b)[1..] == a[1..] + b;
      ChildrenConcat(a[1..], b);
    } else {
      assert a + b == b;
    }
  }

  /** A single event's texts, children and effect on the writer. */
  lemma OneEvent(e: Event, w: Writer)
    ensures Texts([e]) == if e.Text? then [e.text] else []
    ensures Children([e]) == if e.Child? then [e.id] else []
    ensures Run([e], w) == Step(w, e)
  {
    assert [e][1..] == [];
  }

  /**
    A trace of attributes only writes no text and no child, and leaves a
    writer whose start tag is open as it found it.
   */
  lemma {:induction false} AttributesOnly(t: seq<Event>, w: Writer)
    requires forall e :: e in t ==> e.Attr?
    requires w.inStartTag
    ensures Texts(t) == [] && Children(t) == []
    ensures Run(t, w) == Some(w)
    decreases |t|
  {
    if |t| > 0 {
      assert t[0] in t;
      assert forall e :: e in t[1..] ==> e in t;
      AttributesOnly(t[1..], w);
    }
  }
}
