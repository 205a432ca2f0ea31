/** For which values the sweep of a page always meets, and always paints, every
    free-standing occurrence, and pages on which it does not. */
module RepeatLimits {
  import opened Wrappers
  import opened Utf8
  import opened Strings
  import opened Sorting
  import opened Labels
  import opened Spans
  import opened Splice
  import opened SpliceLimits
  import opened Boxes
  import opened VisualCover
  import opened RepeatCover

  // ----- Why free overlaps have to be excluded

  /** Labels as `build_labels` makes them, and detections on characters of the text
      whose own values are labelled. */
  ghost predicate Genuine(text: string, upper: string -> string, labels: seq<LabelEntry>, dets: seq<Detection>) {
    && DistinctKeys(labels)
    && (forall d :: d in dets ==> OnText(text, d) && HasKey(labels, (upper(d.entityType), d.text)))
  }

  ghost predicate DistinctKeys(labels: seq<LabelEntry>) {
    forall i, j :: 0 <= i < j < |labels| ==> labels[i].typ != labels[j].typ || labels[i].value != labels[j].value
  }

  ghost predicate OnText(text: string, d: Detection) {
    exists a, b :: 0 <= a < b <= |text| && Covers(text, d, a, b)
  }

  ghost predicate Covers(text: string, d: Detection, a: nat, b: nat)
    requires a < b <= |text|
  {
    d.start == Width(text[..a]) && d.end == Width(text[..b]) && d.text == text[a..b]
  }

  /** Whatever the page and the detections, every free-standing occurrence of the
      labelled value meets a painted range. */
  ghost predicate AlwaysMet(isAlnum: char -> bool, upper: string -> string, v: string, dpi: nat) {
    forall page, b2c, labels, dets, j, i :: MustMeet(isAlnum, upper, v, page, b2c, labels, dets, j, i) ==>
      Overlaps(PaintPage(page, b2c, upper, isAlnum, labels, dets, dpi).covered, i, i + |v|)
  }

  ghost predicate MustMeet(isAlnum: char -> bool, upper: string -> string, v: string, page: Page, b2c: map<int, nat>,
                           labels: seq<LabelEntry>, dets: seq<Detection>, j: int, i: int) {
    && IsByteMap(page.text, b2c) && Genuine(page.text, upper, labels, dets)
    && 0 <= j < |labels| && labels[j].value == v
    && OccursAt(page.text, v, i) && FreeStanding(isAlnum, page.text, i, i + |v|)
  }

  lemma {:induction false} AllBlocked(page: Page, isAlnum: char -> bool, st: Paint, hits: seq<Span>, dpi: int)
    requires forall s :: s in hits ==>
               Overlaps(st.covered, s.start, s.end) || !WordBounded(isAlnum, page.text, s.start, s.end)
    ensures PaintHits(page, isAlnum, st, hits, dpi) == st
  {
    if hits != [] {
      AllBlocked(page, isAlnum, st, hits[..|hits| - 1], dpi);
      assert hits[|hits| - 1] in hits;
    }
  }

  // The labels and the detection on the trap: the value and the bait.
  function TrapLabels(upper: string -> string, v: string, k: nat): seq<LabelEntry>
    requires v != ""
  {
    [LabelEntry(upper(""), v, "{{A_1}}"), LabelEntry(upper(""), Bait(v, k), "{{A_2}}")]
  }

  function TrapDetection(v: string, k: nat): Detection
    requires 0 < k < |v|
  {
    Detection("", Bait(v, k), 0, Width(Trap(v, k)[..|Filler(v, k)| + 1]))
  }

  lemma TrapLabelsGenuine(upper: string -> string, v: string, k: nat)
    requires Bordered(v, k)
    ensures Genuine(Trap(v, k), upper, TrapLabels(upper, v, k), [TrapDetection(v, k)])
  {
    var t, n, d, labels := Trap(v, k), |Filler(v, k)|, TrapDetection(v, k), TrapLabels(upper, v, k);
    TrapOccurs(v, k);
    assert |Bait(v, k)| == n + 1 > |v|;
    assert Width(t[..0]) == 0;
    hide Width, Trap, Bait, OccursAt;
    assert t[0..n + 1] == t[..n + 1];
    assert Covers(t, d, 0, n + 1);
    assert (labels[1].typ, labels[1].value) == (upper(d.entityType), d.text);
  }

  // Every hit of the sweep meets the detection's range.
  lemma TrapHits(upper: string -> string, v: string, k: nat, s: Span)
    requires Bordered(v, k) && s in Hits(Trap(v, k), TrapLabels(upper, v, k))
    ensures Overlaps([Range(0, |Filler(v, k)| + 1)], s.start, s.end)
  {
    hide Occurrences, Trap, Bait, ByValue, SortBy, RepeatSpans;
    var t, n, labels := Trap(v, k), |Filler(v, k)|, TrapLabels(upper, v, k);
    var vs := SortBy(ByValue(labels), LongerFirst);
    var i := RepeatsFrom(t, vs, s);
    SortMembers(ByValue(labels), LongerFirst);
    assert vs[i] in ByValue(labels);
    var _ := ByValueFrom(labels, vs[i]);
    assert vs[i].value == v || vs[i].value == Bait(v, k);
    TrapScan(v, k, vs[i].lbl);
    assert s == Span(n, n + |v|, vs[i].lbl) || s == Span(0, n + 1, vs[i].lbl);
    var r := Range(0, n + 1);
    assert r in [r] && s.start < r.end && s.end > r.start;
  }

  lemma TrapPainted(page: Page, b2c: map<int, nat>, upper: string -> string, labels: seq<LabelEntry>,
                    d: Detection, n: nat, dpi: int)
    requires IsByteMap(page.text, b2c) && n + 1 <= |page.text| && d.start == 0 && d.end == Width(page.text[..n + 1])
    ensures PaintDetections(page, b2c, upper, labels, [d], dpi).covered == [Range(0, n + 1)]
  {
    assert Width(page.text[..0]) == 0;
    hide Width;
    assert b2c[0] == 0 && b2c[d.end] == n + 1;
    assert [d][..0] == [];
  }

  lemma TrapParts(upper: string -> string, v: string, k: nat)
    requires 0 < k < |v|
    ensures |TrapLabels(upper, v, k)| == 2 && TrapLabels(upper, v, k)[0].value == v
    ensures TrapDetection(v, k).start == 0
    ensures TrapDetection(v, k).end == Width(Trap(v, k)[..|Filler(v, k)| + 1])
    ensures |Trap(v, k)| == |Filler(v, k)| + k + |v|
  {
  }

  /** A value with a free overlap escapes: the copy after it, free-standing, meets no
      painted range. */
  lemma FreeOverlapEscapes(isAlnum: char -> bool, upper: string -> string, v: string, k: nat, dpi: nat)
    requires Bordered(v, k) && !isAlnum(v[k - 1])
    ensures !AlwaysMet(isAlnum, upper, v, dpi)
  {
    hide Trap, Filler, Bait, TrapLabels, TrapDetection, IsByteMap, Genuine, OccursAt, PaintPage, PaintDetections, Width;
    var t, n := Trap(v, k), |Filler(v, k)|;
    var labels, d := TrapLabels(upper, v, k), TrapDetection(v, k);
    var page := Page(0.0, t, [], false);
    var b2c := ByteMapExists(t);
    TrapOccurs(v, k);
    TrapLabelsGenuine(upper, v, k);
    TrapParts(upper, v, k);
    assert MustMeet(isAlnum, upper, v, page, b2c, labels, [d], 0, n + k);
    TrapPainted(page, b2c, upper, labels, d, n, dpi);
    TrapEscapes(page, b2c, upper, isAlnum, v, k, dpi);
  }

  lemma TrapEscapes(page: Page, b2c: map<int, nat>, upper: string -> string, isAlnum: char -> bool,
                    v: string, k: nat, dpi: nat)
    requires Bordered(v, k) && page.text == Trap(v, k)
    requires PaintDetections(page, b2c, upper, TrapLabels(upper, v, k), [TrapDetection(v, k)], dpi).covered
             == [Range(0, |Filler(v, k)| + 1)]
    ensures var n := |Filler(v, k)|;
            var st := PaintPage(page, b2c, upper, isAlnum, TrapLabels(upper, v, k), [TrapDetection(v, k)], dpi);
            !Overlaps(st.covered, n + k, n + k + |v|)
  {
    var labels := TrapLabels(upper, v, k);
    var st := PaintDetections(page, b2c, upper, labels, [TrapDetection(v, k)], dpi);
    hide Trap, TrapLabels, PaintDetections;
    forall s | s in Hits(page.text, labels) ensures Overlaps(st.covered, s.start, s.end) {
      TrapHits(upper, v, k, s);
    }
    AllBlocked(page, isAlnum, st, Hits(page.text, labels), dpi);
  }

  /** Every free-standing occurrence of a labelled value meets a painted range, on
      all pages, exactly when no shifted copy inside the value is free-standing. */
  lemma AlwaysMetIffNoFreeOverlap(isAlnum: char -> bool, upper: string -> string, v: string, dpi: nat)
    requires v != ""
    ensures AlwaysMet(isAlnum, upper, v, dpi) <==> NoFreeOverlap(isAlnum, v)
  {
    if NoFreeOverlap(isAlnum, v) {
      forall page, b2c, labels, dets, j, i | MustMeet(isAlnum, upper, v, page, b2c, labels, dets, j, i)
        ensures Overlaps(PaintPage(page, b2c, upper, isAlnum, labels, dets, dpi).covered, i, i + |v|)
      {
        RepeatsAreCovered(page, b2c, upper, isAlnum, labels, dets, dpi, j, i);
      }
    } else {
      var k :| 0 < k < |v| && Bordered(v, k) && !isAlnum(v[k - 1]);
      FreeOverlapEscapes(isAlnum, upper, v, k, dpi);
    }
  }

  // ----- When every occurrence is painted in full

  /** Whatever the page and the detections, every free-standing occurrence of the
      labelled value is painted in full. */
  ghost predicate AlwaysPainted(isAlnum: char -> bool, upper: string -> string, v: string, dpi: nat) {
    forall page, b2c, labels, dets, j, i :: MustMeet(isAlnum, upper, v, page, b2c, labels, dets, j, i) ==>
      RangePainted(page, PaintPage(page, b2c, upper, isAlnum, labels, dets, dpi).rects, Range(i, i + |v|), dpi)
  }

  /** An OCR page on which only the last character has a box. */
  function LastGlyphPage(t: string): (page: Page)
    requires t != ""
    ensures page.text == t && |page.charBoxes| == |t| && page.charBoxes[|t| - 1].Some?
    ensures forall k :: 0 <= k < |t| - 1 ==> page.charBoxes[k].None?
  {
    Page(0.0, t, seq(|t|, k => if k == |t| - 1 then Some(Box(0.0, 0.0, 0.0, 0.0)) else None), true)
  }

  lemma {:induction false} NoBoxBefore(t: string, e: int)
    requires t != "" && e < |t|
    ensures GlyphBoxes(LastGlyphPage(t), 0, e) == []
    decreases e
  {
    if e > 0 {
      NoBoxBefore(t, e - 1);
    }
  }

  lemma NothingPainted(t: string, b2c: map<int, nat>, upper: string -> string, labels: seq<LabelEntry>,
                       d: Detection, n: nat, dpi: int)
    requires t != "" && IsByteMap(t, b2c) && n + 1 < |t| && d.start == 0 && d.end == Width(t[..n + 1])
    ensures PaintDetections(LastGlyphPage(t), b2c, upper, labels, [d], dpi) == Paint([], [Range(0, n + 1)])
  {
    var page := LastGlyphPage(t);
    assert Width(t[..0]) == 0;
    hide Width, LastGlyphPage;
    assert b2c[0] == 0 && b2c[d.end] == n + 1;
    assert [d][..0] == [];
    NoBoxBefore(t, n + 1);
    assert Grouped([]) == [];
    assert RectsFor(page, 0, n + 1, Lookup(labels, (upper(d.entityType), d.text)), dpi) == [];
  }

  /** Every hit of the sweep starts inside the detection or is part of a word. */
  ghost predicate OnlyBlockedHits(isAlnum: char -> bool, t: string, labels: seq<LabelEntry>, n: nat) {
    forall s :: s in Hits(t, labels) ==>
      (0 <= s.start <= n && s.start < s.end) || !WordBounded(isAlnum, t, s.start, s.end)
  }

  // The detection on the first `n + 1` characters.
  function FrontDetection(t: string, n: nat): Detection
    requires n + 1 < |t|
  {
    Detection("", t[..n + 1], 0, Width(t[..n + 1]))
  }

  lemma FrontGenuine(t: string, upper: string -> string, labels: seq<LabelEntry>, n: nat)
    requires n + 1 < |t| && HasKey(labels, (upper(""), t[..n + 1]))
    requires DistinctKeys(labels)
    ensures Genuine(t, upper, labels, [FrontDetection(t, n)])
  {
    var d := FrontDetection(t, n);
    assert Width(t[..0]) == 0;
    hide Width;
    assert t[0..n + 1] == t[..n + 1];
    assert Covers(t, d, 0, n + 1);
  }

  lemma SweepPaintsNothing(isAlnum: char -> bool, upper: string -> string, t: string, b2c: map<int, nat>,
                           labels: seq<LabelEntry>, n: nat, dpi: nat)
    requires n + 1 < |t| && IsByteMap(t, b2c) && OnlyBlockedHits(isAlnum, t, labels, n)
    ensures PaintPage(LastGlyphPage(t), b2c, upper, isAlnum, labels, [FrontDetection(t, n)], dpi).rects == []
  {
    hide LastGlyphPage, Hits, Width;
    var page, d := LastGlyphPage(t), FrontDetection(t, n);
    NothingPainted(t, b2c, upper, labels, d, n, dpi);
    var st := Paint([], [Range(0, n + 1)]);
    forall s | s in Hits(t, labels)
      ensures Overlaps(st.covered, s.start, s.end) || !WordBounded(isAlnum, page.text, s.start, s.end)
    {
      assert Range(0, n + 1) in st.covered;
    }
    AllBlocked(page, isAlnum, st, Hits(t, labels), dpi);
    PageIsHits(page, b2c, upper, isAlnum, labels, [d], dpi);
  }

  /** A detection on a front part of the text, with no other hit to paint, leaves the
      last glyph of a value at the end of the text bare. */
  lemma LastGlyphStaysBare(isAlnum: char -> bool, upper: string -> string, v: string, t: string,
                           labels: seq<LabelEntry>, n: nat, i: nat, dpi: nat)
    requires n + 1 < |t| && HasKey(labels, (upper(""), t[..n + 1])) && OnlyBlockedHits(isAlnum, t, labels, n)
    requires DistinctKeys(labels)
    requires labels != [] && labels[0].value == v && v != ""
    requires OccursAt(t, v, i) && i + |v| == |t| && WordBounded(isAlnum, t, i, i + |v|)
    ensures !AlwaysPainted(isAlnum, upper, v, dpi)
  {
    hide LastGlyphPage, PaintPage, IsByteMap, Genuine, OnlyBlockedHits, FrontDetection, OccursAt, RangePainted,
      HasKey, DistinctKeys;
    var b2c := ByteMapExists(t);
    var page, d := LastGlyphPage(t), FrontDetection(t, n);
    FrontGenuine(t, upper, labels, n);
    SweepPaintsNothing(isAlnum, upper, t, b2c, labels, n, dpi);
    assert MustMeet(isAlnum, upper, v, page, b2c, labels, [d], 0, i);
    BareGlyph(page, Range(i, i + |v|), |t| - 1, dpi);
  }

  lemma BareGlyph(page: Page, r: Range, k: nat, dpi: int)
    requires r.start <= k < r.end && k < |page.charBoxes| && page.charBoxes[k].Some?
    ensures !RangePainted(page, [], r, dpi)
  {
    assert !GlyphPainted(page, [], k, dpi);
  }

  // The value alone on the page, its front detected.
  function FrontLabels(upper: string -> string, v: string): seq<LabelEntry>
    requires |v| >= 2
  {
    [LabelEntry(upper(""), v, "{{A_1}}"), LabelEntry(upper(""), v[..|v| - 1], "{{A_2}}")]
  }

  lemma FrontHits(isAlnum: char -> bool, upper: string -> string, v: string)
    requires |v| >= 2 && (|v| == 2 && v[0] == v[1] ==> isAlnum(v[0]))
    ensures OnlyBlockedHits(isAlnum, v, FrontLabels(upper, v), |v| - 2)
  {
    var labels, n := FrontLabels(upper, v), |v| - 2;
    forall s | s in Hits(v, labels)
      ensures (0 <= s.start <= n && s.start < s.end) || !WordBounded(isAlnum, v, s.start, s.end)
    {
      var j := HitIsOccurrence(v, labels, s);
      var w := labels[j].value;
      assert |w| >= |v| - 1 && s.start <= 1;
      if |v| == 2 && s.start == 1 {
        assert v[1..2][0] == v[1] && w == v[..1];
      }
    }
  }

  lemma FrontLeavesLast(isAlnum: char -> bool, upper: string -> string, v: string, dpi: nat)
    requires |v| >= 2 && (|v| == 2 && v[0] == v[1] ==> isAlnum(v[0]))
    ensures !AlwaysPainted(isAlnum, upper, v, dpi)
  {
    hide AlwaysPainted, OnlyBlockedHits;
    var labels := FrontLabels(upper, v);
    FrontHits(isAlnum, upper, v);
    assert (labels[1].typ, labels[1].value) == (upper(""), v[..|v| - 1]);
    assert v[0..|v|] == v && OccursAt(v, v, 0);
    LastGlyphStaysBare(isAlnum, upper, v, v, labels, |v| - 2, 0, dpi);
  }

  // A doubled character that is no letter or digit, three times on the page.
  lemma TripleHits(isAlnum: char -> bool, upper: string -> string, v: string)
    requires |v| == 2
    ensures OnlyBlockedHits(isAlnum, v + [v[0]], [LabelEntry(upper(""), v, "{{A_1}}")], 1)
  {
    var t, labels := v + [v[0]], [LabelEntry(upper(""), v, "{{A_1}}")];
    forall s | s in Hits(t, labels)
      ensures (0 <= s.start <= 1 && s.start < s.end) || !WordBounded(isAlnum, t, s.start, s.end)
    {
      var j := HitIsOccurrence(t, labels, s);
    }
  }

  lemma TripleLeavesLast(isAlnum: char -> bool, upper: string -> string, v: string, dpi: nat)
    requires |v| == 2 && v[0] == v[1] && !isAlnum(v[0])
    ensures !AlwaysPainted(isAlnum, upper, v, dpi)
  {
    hide AlwaysPainted, OnlyBlockedHits;
    var t, labels := v + [v[0]], [LabelEntry(upper(""), v, "{{A_1}}")];
    TripleHits(isAlnum, upper, v);
    assert t[..2] == v && t[1..3] == v;
    assert (labels[0].typ, labels[0].value) == (upper(""), t[..1 + 1]);
    assert OccursAt(t, v, 1);
    LastGlyphStaysBare(isAlnum, upper, v, t, labels, 1, 1, dpi);
  }

  lemma SingleIsPainted(page: Page, b2c: map<int, nat>, upper: string -> string, isAlnum: char -> bool,
                        labels: seq<LabelEntry>, dets: seq<Detection>, dpi: nat, j: nat, i: nat)
    requires j < |labels| && |labels[j].value| == 1
    requires OccursAt(page.text, labels[j].value, i) && FreeStanding(isAlnum, page.text, i, i + 1)
    ensures RangePainted(page, PaintPage(page, b2c, upper, isAlnum, labels, dets, dpi).rects, Range(i, i + 1), dpi)
  {
    hide PaintPage;
    RepeatsAreCovered(page, b2c, upper, isAlnum, labels, dets, dpi, j, i);
    var st := PaintPage(page, b2c, upper, isAlnum, labels, dets, dpi);
    var r :| r in st.covered && i < r.end && i + 1 > r.start;
    assert RangePainted(page, st.rects, r, dpi);
  }

  /** Every free-standing occurrence of a labelled value is painted in full, on all
      pages, exactly when the value is a single character: a longer one can meet a
      detection that covers only a part of it, and is then skipped whole. */
  lemma AlwaysPaintedIffSingle(isAlnum: char -> bool, upper: string -> string, v: string, dpi: nat)
    requires v != ""
    ensures AlwaysPainted(isAlnum, upper, v, dpi) <==> |v| == 1
  {
    if |v| == 1 {
      forall page, b2c, labels, dets, j, i | MustMeet(isAlnum, upper, v, page, b2c, labels, dets, j, i)
        ensures var after := PaintPage(page, b2c, upper, isAlnum, labels, dets, dpi);
                RangePainted(page, after.rects, Range(i, i + |v|), dpi)
      {
        SingleIsPainted(page, b2c, upper, isAlnum, labels, dets, dpi, j, i);
      }
    } else if |v| == 2 && v[0] == v[1] && !isAlnum(v[0]) {
      TripleLeavesLast(isAlnum, upper, v, dpi);
    } else {
      FrontLeavesLast(isAlnum, upper, v, dpi);
    }
  }
}
