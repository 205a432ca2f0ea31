/** Labelled ranges of a text: choosing a non-overlapping subset and splicing the
    labels in. */
module Spans {
  datatype Span = Span(start: int, end: int, lbl: string)

  predicate Fits(s: Span, n: nat) {
    0 <= s.start < s.end <= n
  }

  ghost predicate AllFit(spans: seq<Span>, n: nat) {
    forall i :: 0 <= i < |spans| ==> Fits(spans[i], n)
  }

  ghost predicate ByStart(spans: seq<Span>) {
    forall i, j :: 0 <= i < j < |spans| ==> spans[i].start <= spans[j].start
  }

  /** Non-empty, in range, in order and pairwise disjoint. */
  ghost predicate Spaced(c: seq<Span>, n: nat) {
    && AllFit(c, n)
    && forall i, j :: 0 <= i < j < |c| ==> c[i].end <= c[j].start
  }

  function LastEnd(c: seq<Span>): int {
    if c == [] then 0 else c[|c| - 1].end
  }

  /** Take each span that starts at or after the end of the last one taken. */
  function Greedy(spans: seq<Span>): seq<Span> {
    if spans == [] then []
    else
      var n := |spans| - 1;
      var c := Greedy(spans[..n]);
      if spans[n].start >= LastEnd(c) then c + [spans[n]] else c
  }

  lemma SpacedSnoc(c: seq<Span>, s: Span, n: nat)
    requires Spaced(c, n) && Fits(s, n) && s.start >= LastEnd(c)
    ensures Spaced(c + [s], n)
  {
    forall i | 0 <= i < |c| ensures c[i].end <= s.start {
      assert i < |c| - 1 ==> c[i].end <= c[|c| - 1].start;
    }
  }

  lemma {:induction false} GreedyIsSpaced(spans: seq<Span>, n: nat)
    requires AllFit(spans, n)
    ensures Spaced(Greedy(spans), n)
    ensures forall s :: s in Greedy(spans) ==> s in spans
  {
    if spans != [] {
      var k := |spans| - 1;
      GreedyIsSpaced(spans[..k], n);
      if spans[k].start >= LastEnd(Greedy(spans[..k])) {
        SpacedSnoc(Greedy(spans[..k]), spans[k], n);
      }
    }
  }

  ghost predicate Inside(p: int, c: seq<Span>) {
    exists i :: 0 <= i < |c| && c[i].start <= p < c[i].end
  }

  lemma InsideSnoc(p: int, c: seq<Span>, s: Span)
    requires Inside(p, c)
    ensures Inside(p, c + [s])
  {
    var i :| 0 <= i < |c| && c[i].start <= p < c[i].end;
    assert (c + [s])[i] == c[i];
  }

  /** Every span that is left out starts inside one that is taken. */
  lemma {:induction false} DroppedStartsInside(spans: seq<Span>, n: nat, s: Span)
    requires AllFit(spans, n) && ByStart(spans) && s in spans
    ensures s in Greedy(spans) || Inside(s.start, Greedy(spans))
  {
    var k := |spans| - 1;
    var c := Greedy(spans[..k]);
    GreedyIsSpaced(spans[..k], n);
    if s in spans[..k] {
      DroppedStartsInside(spans[..k], n, s);
      if Inside(s.start, c) {
        InsideSnoc(s.start, c, spans[k]);
      }
    } else if spans[k].start < LastEnd(c) {
      assert s == spans[k];
      var last := c[|c| - 1];
      assert last in spans[..k];
      assert last.start <= s.start < last.end;
    }
  }

  lemma PairTaken(a: Span, b: Span)
    requires 0 <= a.start <= b.start < a.end
    ensures Greedy([a, b]) == [a]
  {
    assert [a, b][..1] == [a] && [a][..0] == [];
    assert Greedy([a]) == Greedy([]) + [a] == [a];
  }

  // ----- When every span is replaced whole

  predicate Contains(c: Span, s: Span) {
    c.start <= s.start && s.end <= c.end
  }

  predicate Meets(a: Span, b: Span) {
    a.start < b.end && b.start < a.end
  }

  /** The span lies inside one of the chosen ones. */
  ghost predicate Whole(s: Span, c: seq<Span>) {
    exists i :: 0 <= i < |c| && Contains(c[i], s)
  }

  /** Every position of the span lies inside a chosen one. */
  ghost predicate Replaced(s: Span, c: seq<Span>) {
    forall p :: s.start <= p < s.end ==> Inside(p, c)
  }

  lemma WholeIsReplaced(s: Span, c: seq<Span>)
    requires Whole(s, c)
    ensures Replaced(s, c)
  {
    var i :| 0 <= i < |c| && Contains(c[i], s);
    forall p | s.start <= p < s.end ensures Inside(p, c) {
      assert c[i].start <= p < c[i].end;
    }
  }

  ghost predicate FirstAtStart(spans: seq<Span>, k: nat)
    requires k < |spans|
  {
    forall i :: 0 <= i < k ==> spans[i].start != spans[k].start
  }

  /** Some span contains both, and comes first among those with its start. */
  ghost predicate HasHead(spans: seq<Span>, a: Span, b: Span) {
    exists k :: 0 <= k < |spans| && IsHead(spans, k, a, b)
  }

  ghost predicate IsHead(spans: seq<Span>, k: nat, a: Span, b: Span)
    requires k < |spans|
  {
    FirstAtStart(spans, k) && Contains(spans[k], a) && Contains(spans[k], b)
  }

  /** Any two spans that overlap have a head. */
  ghost predicate Headed(spans: seq<Span>) {
    forall a, b :: a in spans && b in spans && Meets(a, b) ==> HasHead(spans, a, b)
  }

  lemma InsideIsBeforeEnd(p: int, c: seq<Span>, n: nat)
    requires Spaced(c, n) && Inside(p, c)
    ensures p < LastEnd(c)
  {
    var i :| 0 <= i < |c| && c[i].start <= p < c[i].end;
    assert Fits(c[|c| - 1], n);
    assert i < |c| - 1 ==> c[i].end <= c[|c| - 1].start;
  }

  // A position that a span of the list starts at lies inside a chosen one.
  lemma StartIsInside(spans: seq<Span>, n: nat, s: Span)
    requires AllFit(spans, n) && ByStart(spans) && s in spans
    ensures Inside(s.start, Greedy(spans))
  {
    DroppedStartsInside(spans, n, s);
    if s in Greedy(spans) {
      var i :| 0 <= i < |Greedy(spans)| && Greedy(spans)[i] == s;
      var j :| 0 <= j < |spans| && spans[j] == s;
      assert Fits(spans[j], n);
      assert Greedy(spans)[i].start <= s.start < Greedy(spans)[i].end;
    }
  }

  /** A chosen span comes first among those with its start. */
  lemma {:induction false} TakenIsFirst(spans: seq<Span>, n: nat, g: Span) returns (k: nat)
    requires AllFit(spans, n) && ByStart(spans) && g in Greedy(spans)
    ensures k < |spans| && spans[k] == g && FirstAtStart(spans, k)
  {
    var last := |spans| - 1;
    var front := spans[..last];
    if g in Greedy(front) {
      k := TakenIsFirst(front, n, g);
      assert forall i :: 0 <= i <= k ==> front[i] == spans[i];
    } else {
      k := last;
      GreedyIsSpaced(front, n);
      forall i | 0 <= i < last ensures spans[i].start != spans[last].start {
        assert front[i] in front;
        StartIsInside(front, n, front[i]);
        InsideIsBeforeEnd(front[i].start, Greedy(front), n);
      }
    }
  }

  lemma FirstsAgree(spans: seq<Span>, j: nat, k: nat)
    requires j < |spans| && k < |spans| && FirstAtStart(spans, j) && FirstAtStart(spans, k)
    requires spans[j].start == spans[k].start
    ensures j == k
  {
  }

  // The chosen span that covers a start, and where it stands.
  lemma ChosenAt(spans: seq<Span>, n: nat, s: Span, i: nat) returns (j: nat)
    requires AllFit(spans, n) && ByStart(spans) && s in spans && i < |Greedy(spans)|
    requires s.start <= Greedy(spans)[i].start
    ensures j <= i && Greedy(spans)[j].start <= s.start < Greedy(spans)[j].end
  {
    var c := Greedy(spans);
    StartIsInside(spans, n, s);
    GreedyIsSpaced(spans, n);
    j :| 0 <= j < |c| && c[j].start <= s.start < c[j].end;
    assert Fits(c[i], n);
  }

  // Nothing that heads a chosen span is larger than it.
  lemma {:induction false} TakenIsLargest(spans: seq<Span>, n: nat, i: nat, k: nat)
    requires AllFit(spans, n) && ByStart(spans) && Headed(spans)
    requires i < |Greedy(spans)| && k < |spans| && FirstAtStart(spans, k) && Contains(spans[k], Greedy(spans)[i])
    ensures spans[k] == Greedy(spans)[i]
    decreases i
  {
    var c, g := Greedy(spans), Greedy(spans)[i];
    GreedyIsSpaced(spans, n);
    var j := ChosenAt(spans, n, spans[k], i);
    assert c[j] in c && Fits(c[j], n) && g in c && Fits(g, n);
    if j < i {
      assert Meets(c[j], spans[k]) && spans[k] in spans;
      var h :| 0 <= h < |spans| && IsHead(spans, h, c[j], spans[k]);
      TakenIsLargest(spans, n, j, h);
    } else {
      var f := TakenIsFirst(spans, n, g);
      FirstsAgree(spans, f, k);
    }
  }

  lemma HeadedIsWhole(spans: seq<Span>, n: nat, s: Span)
    requires AllFit(spans, n) && ByStart(spans) && Headed(spans) && s in spans
    ensures Whole(s, Greedy(spans))
  {
    var c := Greedy(spans);
    StartIsInside(spans, n, s);
    GreedyIsSpaced(spans, n);
    var i :| 0 <= i < |c| && c[i].start <= s.start < c[i].end;
    var t :| 0 <= t < |spans| && spans[t] == s;
    assert Fits(spans[t], n) && c[i] in c && Meets(c[i], s);
    var k :| 0 <= k < |spans| && IsHead(spans, k, c[i], s);
    TakenIsLargest(spans, n, i, k);
  }

  lemma MeetingChosenAreOne(c: seq<Span>, n: nat, i: nat, j: nat, a: Span, b: Span)
    requires Spaced(c, n) && i < |c| && j < |c| && Contains(c[i], a) && Contains(c[j], b) && Meets(a, b)
    ensures i == j
  {
  }

  /** Every span lies inside a chosen one exactly when any two that overlap have a
      head: a span containing both that comes first among those with its start. */
  lemma AllWholeIffHeaded(spans: seq<Span>, n: nat)
    requires AllFit(spans, n) && ByStart(spans)
    ensures (forall s :: s in spans ==> Whole(s, Greedy(spans))) <==> Headed(spans)
  {
    var c := Greedy(spans);
    GreedyIsSpaced(spans, n);
    if forall s :: s in spans ==> Whole(s, c) {
      forall a, b | a in spans && b in spans && Meets(a, b) ensures HasHead(spans, a, b) {
        var i :| 0 <= i < |c| && Contains(c[i], a);
        var j :| 0 <= j < |c| && Contains(c[j], b);
        MeetingChosenAreOne(c, n, i, j, a, b);
        var k := TakenIsFirst(spans, n, c[i]);
        assert IsHead(spans, k, a, b);
      }
    }
    if Headed(spans) {
      forall s | s in spans ensures Whole(s, c) {
        HeadedIsWhole(spans, n, s);
      }
    }
  }

  // ----- Splicing

  /** Gaps and labels from left to right, up to the end of the last span. */
  function Stitched<T>(text: seq<T>, c: seq<Span>, enc: string -> seq<T>): seq<T>
    requires Spaced(c, |text|)
  {
    if c == [] then []
    else
      var n := |c| - 1;
      LastEndBound(c[..n], |text|);
      LastEndSpaced(c, |text|);
      Stitched(text, c[..n], enc) + text[LastEnd(c[..n])..c[n].start] + enc(c[n].lbl)
  }

  lemma LastEndBound(c: seq<Span>, n: nat)
    requires Spaced(c, n)
    ensures 0 <= LastEnd(c) <= n
  {
    assert c != [] ==> Fits(c[|c| - 1], n);
  }

  lemma LastEndSpaced(c: seq<Span>, n: nat)
    requires Spaced(c, n) && c != []
    ensures LastEnd(c[..|c| - 1]) <= c[|c| - 1].start
  {
    assert Fits(c[|c| - 1], n);
  }

  /** The text with every chosen range replaced by its label. */
  function Stitch<T>(text: seq<T>, c: seq<Span>, enc: string -> seq<T>): seq<T>
    requires Spaced(c, |text|)
  {
    LastEndBound(c, |text|);
    Stitched(text, c, enc) + text[LastEnd(c)..]
  }
}
