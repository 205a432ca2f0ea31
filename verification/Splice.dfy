/** Splicing labels over character ranges, and sweeping up repeats of detected
    values. */
module Splice {
  import opened Strings
  import opened Sorting
  import opened Spans

  /** Earlier start first, the longer span first on ties. */
  predicate StartThenLonger(a: Span, b: Span) {
    a.start < b.start || (a.start == b.start && a.end >= b.end)
  }

  function ValidSpans(spans: seq<Span>, n: nat): seq<Span> {
    if spans == [] then []
    else
      var k := |spans| - 1;
      var rest := ValidSpans(spans[..k], n);
      if Fits(spans[k], n) then rest + [spans[k]] else rest
  }

  function Chosen(spans: seq<Span>, n: nat): seq<Span> {
    Greedy(SortBy(ValidSpans(spans, n), StartThenLonger))
  }

  function Plain(lbl: string): string {
    lbl
  }

  lemma {:induction false} ValidMembers(spans: seq<Span>, n: nat)
    ensures AllFit(ValidSpans(spans, n), n)
    ensures forall s :: s in ValidSpans(spans, n) <==> s in spans && Fits(s, n)
  {
    if spans != [] {
      var k := |spans| - 1;
      ValidMembers(spans[..k], n);
      assert spans == spans[..k] + [spans[k]];
    }
  }

  lemma SortedValid(spans: seq<Span>, n: nat)
    ensures AllFit(SortBy(ValidSpans(spans, n), StartThenLonger), n)
    ensures ByStart(SortBy(ValidSpans(spans, n), StartThenLonger))
    ensures forall s :: s in SortBy(ValidSpans(spans, n), StartThenLonger) <==> s in spans && Fits(s, n)
  {
    var valid := ValidSpans(spans, n);
    var sorted := SortBy(valid, StartThenLonger);
    ValidMembers(spans, n);
    SortMembers(valid, StartThenLonger);
    SortOrders(valid, StartThenLonger);
    forall i | 0 <= i < |sorted| ensures Fits(sorted[i], n) {
      assert sorted[i] in valid;
    }
  }

  lemma ChosenIsSpaced(spans: seq<Span>, n: nat)
    ensures Spaced(Chosen(spans, n), n)
    ensures forall s :: s in Chosen(spans, n) ==> s in spans && Fits(s, n)
  {
    SortedValid(spans, n);
    GreedyIsSpaced(SortBy(ValidSpans(spans, n), StartThenLonger), n);
  }

  /** Each valid span is chosen or starts inside a chosen one. */
  lemma ChosenCoversStarts(spans: seq<Span>, n: nat, s: Span)
    requires s in spans && Fits(s, n)
    ensures Inside(s.start, Chosen(spans, n))
  {
    var sorted := SortBy(ValidSpans(spans, n), StartThenLonger);
    SortedValid(spans, n);
    DroppedStartsInside(sorted, n, s);
  }

  // ----- When every span is replaced whole

  /** Some valid span contains both. */
  ghost predicate HasCommon(spans: seq<Span>, n: nat, a: Span, b: Span) {
    exists c :: c in spans && Fits(c, n) && Contains(c, a) && Contains(c, b)
  }

  /** Any two valid spans that overlap lie inside a third one, which may be either. */
  ghost predicate Enclosed(spans: seq<Span>, n: nat) {
    forall a, b :: a in spans && b in spans && Fits(a, n) && Fits(b, n) && Meets(a, b) ==> HasCommon(spans, n, a, b)
  }

  lemma {:induction false} FirstIndex(spans: seq<Span>, j: nat) returns (k: nat)
    requires j < |spans|
    ensures k <= j && spans[k].start == spans[j].start && FirstAtStart(spans, k)
  {
    if i :| 0 <= i < j && spans[i].start == spans[j].start {
      k := FirstIndex(spans, i);
    } else {
      k := j;
    }
  }

  // With the longer first on ties, the first at a start is the longest there.
  lemma CommonGivesHead(sorted: seq<Span>, a: Span, b: Span, c: Span)
    requires Ordered(sorted, StartThenLonger) && c in sorted && Contains(c, a) && Contains(c, b)
    ensures HasHead(sorted, a, b)
  {
    var j :| 0 <= j < |sorted| && sorted[j] == c;
    var k := FirstIndex(sorted, j);
    assert k < j ==> StartThenLonger(sorted[k], sorted[j]);
    assert IsHead(sorted, k, a, b);
  }

  lemma EnclosedIffHeaded(spans: seq<Span>, n: nat)
    ensures Enclosed(spans, n) <==> Headed(SortBy(ValidSpans(spans, n), StartThenLonger))
  {
    var sorted := SortBy(ValidSpans(spans, n), StartThenLonger);
    SortedValid(spans, n);
    SortOrders(ValidSpans(spans, n), StartThenLonger);
    if Enclosed(spans, n) {
      forall a, b | a in sorted && b in sorted && Meets(a, b) ensures HasHead(sorted, a, b) {
        var c :| c in spans && Fits(c, n) && Contains(c, a) && Contains(c, b);
        CommonGivesHead(sorted, a, b, c);
      }
    }
    if Headed(sorted) {
      forall a, b | a in spans && b in spans && Fits(a, n) && Fits(b, n) && Meets(a, b)
        ensures HasCommon(spans, n, a, b)
      {
        var k :| 0 <= k < |sorted| && IsHead(sorted, k, a, b);
        assert sorted[k] in sorted;
      }
    }
  }

  /** Every valid span lies inside one chosen span, so that all its characters go and
      the longest spans are the ones kept, exactly when any two that overlap lie
      inside a third. */
  lemma AllWholeIffEnclosed(spans: seq<Span>, n: nat)
    ensures (forall s :: s in spans && Fits(s, n) ==> Whole(s, Chosen(spans, n))) <==> Enclosed(spans, n)
  {
    SortedValid(spans, n);
    EnclosedIffHeaded(spans, n);
    AllWholeIffHeaded(SortBy(ValidSpans(spans, n), StartThenLonger), n);
  }

  /** Two valid spans that overlap are nested or start together. */
  ghost predicate Laminar(spans: seq<Span>, n: nat) {
    forall a, b :: a in spans && b in spans && Fits(a, n) && Fits(b, n) && a.start <= b.start < a.end ==>
      b.end <= a.end || a.start == b.start
  }

  lemma LaminarIsEnclosed(spans: seq<Span>, part: seq<Span>, n: nat)
    requires Laminar(spans, n) && forall s :: s in part ==> s in spans
    ensures Enclosed(part, n)
  {
    forall a, b | a in part && b in part && Fits(a, n) && Fits(b, n) && Meets(a, b) ensures HasCommon(part, n, a, b) {
      assert Contains(a, b) || Contains(b, a);
      assert Contains(a, a) && Contains(b, b);
    }
  }

  lemma PairChosen(a: Span, b: Span, n: nat)
    requires Fits(a, n) && Fits(b, n) && a.start < b.start < a.end
    ensures Chosen([a, b], n) == [a]
  {
    var both := [a, b];
    assert both[..1] == [a] && [a][..0] == [];
    assert ValidSpans([a], n) == ValidSpans([], n) + [a] == [a];
    assert ValidSpans(both, n) == ValidSpans([a], n) + [b] == both;
    assert both[1..] == [b] && [b][1..] == [];
    assert SortBy([b], StartThenLonger) == InsertBy(b, [], StartThenLonger) == [b];
    assert SortBy(both, StartThenLonger) == InsertBy(a, [b], StartThenLonger) == both;
    PairTaken(a, b);
  }

  /** Of two spans that overlap in part, the later one keeps its tail in the output. */
  lemma TailStays(a: Span, b: Span, n: nat)
    requires Fits(a, n) && Fits(b, n) && a.start < b.start < a.end < b.end
    ensures Chosen([a, b], n) == [a]
    ensures forall p :: a.end <= p < b.end ==> !Inside(p, Chosen([a, b], n))
    ensures !Replaced(b, Chosen([a, b], n))
  {
    PairChosen(a, b, n);
    assert !Inside(a.end, [a]);
  }

  ghost predicate AllReplaced(part: seq<Span>, n: nat) {
    forall s :: s in part && Fits(s, n) ==> Replaced(s, Chosen(part, n))
  }

  /** Whichever of the spans are given, every character of the valid ones is
      replaced, exactly when those that overlap are nested or start together. */
  lemma LaminarIffAllReplaced(spans: seq<Span>, n: nat)
    ensures Laminar(spans, n) <==> forall part :: (forall s :: s in part ==> s in spans) ==> AllReplaced(part, n)
  {
    if Laminar(spans, n) {
      forall part | forall s :: s in part ==> s in spans ensures AllReplaced(part, n) {
        LaminarIsEnclosed(spans, part, n);
        AllWholeIffEnclosed(part, n);
        forall s | s in part && Fits(s, n) ensures Replaced(s, Chosen(part, n)) {
          WholeIsReplaced(s, Chosen(part, n));
        }
      }
    } else {
      var a, b :| a in spans && b in spans && Fits(a, n) && Fits(b, n) && a.start <= b.start < a.end
        && !(b.end <= a.end || a.start == b.start);
      TailStays(a, b, n);
      assert b in [a, b];
      assert !AllReplaced([a, b], n);
    }
  }

  // ----- The right-to-left splice

  /** Gaps and labels from span `i` on. */
  function TailFrom(text: string, c: seq<Span>, i: nat): string
    requires Spaced(c, |text|) && i <= |c|
    decreases |c| - i
  {
    SpacedPrefix(c, |text|, i);
    if i == |c| then text[LastEnd(c)..]
    else text[LastEnd(c[..i])..c[i].start] + c[i].lbl + TailFrom(text, c, i + 1)
  }

  lemma SpacedPrefix(c: seq<Span>, n: nat, i: nat)
    requires Spaced(c, n) && i <= |c|
    ensures Spaced(c[..i], n) && 0 <= LastEnd(c[..i]) <= n && c[..|c|] == c
    ensures i < |c| ==> LastEnd(c[..i]) <= c[i].start < c[i].end == LastEnd(c[..i + 1]) <= n
  {
    assert forall k :: 0 <= k < i ==> c[..i][k] == c[k];
    LastEndBound(c[..i], n);
    if i < |c| {
      assert Fits(c[i], n);
    }
  }

  lemma {:induction false} StitchFrom(text: string, c: seq<Span>, i: nat)
    requires Spaced(c, |text|) && i <= |c| && Spaced(c[..i], |text|)
    ensures Stitched(text, c[..i], Plain) + TailFrom(text, c, i) == Stitch(text, c, Plain)
    decreases |c| - i
  {
    SpacedPrefix(c, |text|, i);
    if i < |c| {
      SpacedPrefix(c, |text|, i + 1);
      StitchFrom(text, c, i + 1);
      assert c[..i + 1][..i] == c[..i];
      var a, g := Stitched(text, c[..i], Plain), text[LastEnd(c[..i])..c[i].start];
      var l, t := c[i].lbl, TailFrom(text, c, i + 1);
      assert Stitched(text, c[..i + 1], Plain) == a + g + l;
      Assoc(a, g + l, t);
      Assoc(a, g, l);
    }
  }

  lemma SpliceOne(text: string, t: string, tail: string, p: nat, s: Span)
    requires p <= s.start < s.end <= |text| && t == text[..s.end] + tail
    ensures t[..s.start] + s.lbl + t[s.end..] == text[..p] + (text[p..s.start] + s.lbl + tail)
  {
    assert t[..s.start] == text[..p] + text[p..s.start];
    assert t[s.end..] == tail;
  }

  /** The chosen spans replaced by their labels. Splicing from the right keeps the
      earlier offsets valid, so the result is the gaps and labels in order. */
  method RedactSpans(text: string, spans: seq<Span>) returns (out: string)
    ensures Spaced(Chosen(spans, |text|), |text|)
    ensures out == Stitch(text, Chosen(spans, |text|), Plain)
  {
    var valid: seq<Span> := [];
    for i := 0 to |spans|
      invariant valid == ValidSpans(spans[..i], |text|)
    {
      assert spans[..i + 1][..i] == spans[..i];
      if Fits(spans[i], |text|) {
        valid := valid + [spans[i]];
      }
    }
    assert spans[..|spans|] == spans;
    valid := SortBy(valid, StartThenLonger);
    SortedValid(spans, |text|);
    var chosen := ChooseSpans(valid, |text|);
    ChosenIsSpaced(spans, |text|);
    out := SpliceRightToLeft(text, chosen);
  }

  method SpliceRightToLeft(text: string, chosen: seq<Span>) returns (out: string)
    requires Spaced(chosen, |text|)
    ensures out == Stitch(text, chosen, Plain)
  {
    out := text;
    SpacedPrefix(chosen, |text|, |chosen|);
    // chosen spans have increasing starts, so the descending sort is the reversal
    for i := |chosen| downto 0
      invariant Spaced(chosen[..i], |text|) && 0 <= LastEnd(chosen[..i]) <= |text|
      invariant out == text[..LastEnd(chosen[..i])] + TailFrom(text, chosen, i)
    {
      SpacedPrefix(chosen, |text|, i);
      var s := chosen[i];
      SpliceOne(text, out, TailFrom(text, chosen, i + 1), LastEnd(chosen[..i]), s);
      out := out[..s.start] + s.lbl + out[s.end..];
    }
    assert chosen[..0] == [];
    StitchFrom(text, chosen, 0);
  }

  method ChooseSpans(valid: seq<Span>, n: nat) returns (chosen: seq<Span>)
    requires AllFit(valid, n)
    ensures chosen == Greedy(valid)
  {
    chosen := [];
    var lastEnd := -1;
    for i := 0 to |valid|
      invariant chosen == Greedy(valid[..i])
      invariant lastEnd == (if chosen == [] then -1 else LastEnd(chosen))
    {
      assert valid[..i + 1][..i] == valid[..i];
      assert Fits(valid[i], n);
      if valid[i].start >= lastEnd {
        chosen := chosen + [valid[i]];
        lastEnd := valid[i].end;
      }
    }
    assert valid[..|valid|] == valid;
  }

  // ----- Repeats of detected values

  /** The occurrences a left-to-right scan finds from `from` on, without overlaps. */
  function Occurrences(text: string, value: string, from: nat, lbl: string): seq<Span>
    requires value != ""
    decreases |text| + 1 - from
  {
    match Find(text, value, from)
    case None => []
    case Some(i) => [Span(i, i + |value|, lbl)] + Occurrences(text, value, i + |value|, lbl)
  }

  datatype Labelled = Labelled(value: string, lbl: string)

  function RepeatSpans(text: string, byValue: seq<Labelled>): seq<Span> {
    if byValue == [] then []
    else
      var n := |byValue| - 1;
      RepeatSpans(text, byValue[..n])
      + (if byValue[n].value == "" then [] else Occurrences(text, byValue[n].value, 0, byValue[n].lbl))
  }

  lemma RepeatSpansSnoc(text: string, vs: seq<Labelled>, v: Labelled)
    ensures RepeatSpans(text, vs + [v])
            == RepeatSpans(text, vs) + (if v.value == "" then [] else Occurrences(text, v.value, 0, v.lbl))
  {
    assert (vs + [v])[..|vs|] == vs;
  }

  lemma OccurrencesStep(text: string, value: string, from: nat, lbl: string)
    requires value != ""
    ensures var hit := Find(text, value, from);
            Occurrences(text, value, from, lbl)
            == if hit.None? then []
               else [Span(hit.value, hit.value + |value|, lbl)] + Occurrences(text, value, hit.value + |value|, lbl)
  {
  }

  lemma {:induction false} HitsOccur(text: string, v: string, from: nat, lbl: string, s: Span)
    requires v != "" && s in Occurrences(text, v, from, lbl)
    ensures from <= s.start && s.end == s.start + |v| && s.lbl == lbl && OccursAt(text, v, s.start)
    decreases |text| + 1 - from
  {
    hide Find, Occurrences;
    OccurrencesStep(text, v, from, lbl);
    var hit := Find(text, v, from);
    if hit.Some? && s != Span(hit.value, hit.value + |v|, lbl) {
      HitsOccur(text, v, hit.value + |v|, lbl, s);
    }
  }

  method ScanValue(text: string, value: string, lbl: string) returns (out: seq<Span>)
    requires value != ""
    ensures out == Occurrences(text, value, 0, lbl)
  {
    hide Find, Occurrences;
    out := [];
    var start: nat := 0;
    var hit := Find(text, value, start);
    while hit.Some?
      invariant hit == Find(text, value, start)
      invariant out + Occurrences(text, value, start, lbl) == Occurrences(text, value, 0, lbl)
      decreases |text| + 1 - start
    {
      var span := Span(hit.value, hit.value + |value|, lbl);
      OccurrencesStep(text, value, start, lbl);
      Assoc(out, [span], Occurrences(text, value, hit.value + |value|, lbl));
      out := out + [span];
      start := hit.value + |value|;
      hit := Find(text, value, start);
    }
    OccurrencesStep(text, value, start, lbl);
  }

  method ValueRepeatSpans(text: string, byValue: seq<Labelled>) returns (out: seq<Span>)
    ensures out == RepeatSpans(text, byValue)
  {
    out := [];
    for i := 0 to |byValue|
      invariant out == RepeatSpans(text, byValue[..i])
    {
      assert byValue[..i + 1][..i] == byValue[..i];
      if byValue[i].value == "" {
        continue;
      }
      var found := ScanValue(text, byValue[i].value, byValue[i].lbl);
      out := out + found;
    }
    assert byValue[..|byValue|] == byValue;
  }

  /** The value agrees with itself when shifted by `k`. */
  predicate Bordered(v: string, k: int) {
    0 < k < |v| && v[k..] == v[..|v| - k]
  }

  /** The value cannot overlap itself: no proper shift of it agrees with it. */
  ghost predicate Unbordered(v: string) {
    forall k :: 0 < k < |v| ==> !Bordered(v, k)
  }

  lemma OverlapIsBorder(text: string, v: string, i: nat, j: nat)
    requires OccursAt(text, v, i) && OccursAt(text, v, j) && i < j < i + |v|
    ensures Bordered(v, j - i)
  {
    var k := j - i;
    assert v[k..] == text[i..i + |v|][k..] == text[j..i + |v|];
    assert v[..|v| - k] == text[j..j + |v|][..|v| - k] == text[j..i + |v|];
  }

  // Two occurrences of an unbordered value do not overlap.
  lemma OccurrencesApart(text: string, v: string, i: nat, j: nat)
    requires Unbordered(v) && OccursAt(text, v, i) && OccursAt(text, v, j) && i < j
    ensures i + |v| <= j
  {
    if j < i + |v| {
      OverlapIsBorder(text, v, i, j);
    }
  }

  // The scan takes a first occurrence no later than any other.
  lemma ScanStep(text: string, v: string, from: nat, lbl: string, i: nat) returns (h: nat)
    requires v != "" && OccursAt(text, v, i) && from <= i
    ensures from <= h <= i && OccursAt(text, v, h)
    ensures Occurrences(text, v, from, lbl) == [Span(h, h + |v|, lbl)] + Occurrences(text, v, h + |v|, lbl)
  {
    OccurrencesStep(text, v, from, lbl);
    h := Find(text, v, from).value;
  }

  ghost predicate Reported(s: Span, text: string, v: string, from: nat, lbl: string)
    requires v != ""
  {
    s in Occurrences(text, v, from, lbl)
  }

  lemma ReportedLater(s: Span, text: string, v: string, from: nat, lbl: string, h: nat)
    requires v != "" && Reported(s, text, v, h + |v|, lbl)
    requires Occurrences(text, v, from, lbl) == [Span(h, h + |v|, lbl)] + Occurrences(text, v, h + |v|, lbl)
    ensures Reported(s, text, v, from, lbl)
  {
    MemberOfTail(s, Span(h, h + |v|, lbl), Occurrences(text, v, h + |v|, lbl));
  }

  /** The scan finds every occurrence of an unbordered value. */
  lemma {:induction false} ScanFindsAll(text: string, v: string, from: nat, lbl: string, i: nat)
    requires v != "" && Unbordered(v) && OccursAt(text, v, i) && from <= i
    ensures Reported(Span(i, i + |v|, lbl), text, v, from, lbl)
    decreases |text| + 1 - from
  {
    var h := ScanStep(text, v, from, lbl, i);
    if h < i {
      OccurrencesApart(text, v, h, i);
      ScanFindsAll(text, v, h + |v|, lbl, i);
      ReportedLater(Span(i, i + |v|, lbl), text, v, from, lbl, h);
    } else {
      MemberOfHead(Span(h, h + |v|, lbl), Occurrences(text, v, h + |v|, lbl));
    }
  }

  lemma MemberOfTail<T>(x: T, y: T, rest: seq<T>)
    requires x in rest
    ensures x in [y] + rest
  {
  }

  lemma MemberOfHead<T>(x: T, rest: seq<T>)
    ensures x in [x] + rest
  {
    assert ([x] + rest)[0] == x;
  }

  lemma {:induction false} RepeatsInclude(text: string, byValue: seq<Labelled>, k: nat, s: Span)
    requires k < |byValue| && byValue[k].value != ""
    requires s in Occurrences(text, byValue[k].value, 0, byValue[k].lbl)
    ensures s in RepeatSpans(text, byValue)
  {
    var n := |byValue| - 1;
    if k < n {
      assert byValue[..n][k] == byValue[k];
      RepeatsInclude(text, byValue[..n], k, s);
    }
  }

  // ----- A container: detected spans and repeats together

  function ContainerSpans(text: string, spans: seq<Span>, byValue: seq<Labelled>): seq<Span> {
    Chosen(spans + RepeatSpans(text, byValue), |text|)
  }

  method RedactContainer(text: string, spans: seq<Span>, byValue: seq<Labelled>) returns (out: string)
    ensures Spaced(ContainerSpans(text, spans, byValue), |text|)
    ensures out == Stitch(text, ContainerSpans(text, spans, byValue), Plain)
  {
    var repeats := ValueRepeatSpans(text, byValue);
    out := RedactSpans(text, spans + repeats);
  }

  /** No chosen span meets the range. */
  ghost predicate Untouched(i: int, j: int, c: seq<Span>) {
    forall k :: 0 <= k < |c| ==> c[k].end <= i || j <= c[k].start
  }

  /** No labelled value that cannot overlap itself survives in an untouched stretch. */
  lemma NoValueLeft(text: string, spans: seq<Span>, byValue: seq<Labelled>, k: nat, i: nat)
    requires k < |byValue| && byValue[k].value != "" && Unbordered(byValue[k].value)
    requires OccursAt(text, byValue[k].value, i)
    ensures Inside(i, ContainerSpans(text, spans, byValue))
    ensures !Untouched(i, i + |byValue[k].value|, ContainerSpans(text, spans, byValue))
  {
    var v := byValue[k].value;
    var s := Span(i, i + |v|, byValue[k].lbl);
    ScanFindsAll(text, v, 0, byValue[k].lbl, i);
    RepeatsInclude(text, byValue, k, s);
    ChosenCoversStarts(spans + RepeatSpans(text, byValue), |text|, s);
    var c := ContainerSpans(text, spans, byValue);
    var j :| 0 <= j < |c| && c[j].start <= i < c[j].end;
    assert !(c[j].end <= i || i + |v| <= c[j].start);
  }

  /** Each detected span starts inside a replaced range, and lies inside one when any
      two spans and repeats that overlap lie inside a third. */
  lemma DetectedSpansAreHit(text: string, spans: seq<Span>, byValue: seq<Labelled>, s: Span)
    requires s in spans && Fits(s, |text|)
    ensures Inside(s.start, ContainerSpans(text, spans, byValue))
    ensures Enclosed(spans + RepeatSpans(text, byValue), |text|) ==> Whole(s, ContainerSpans(text, spans, byValue))
  {
    ChosenCoversStarts(spans + RepeatSpans(text, byValue), |text|, s);
    AllWholeIffEnclosed(spans + RepeatSpans(text, byValue), |text|);
  }
}
