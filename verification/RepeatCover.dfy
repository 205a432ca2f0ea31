/** Sweeping a page for every occurrence of the labelled values. */
module RepeatCover {
  import opened Strings
  import opened Sorting
  import opened Labels
  import opened Spans
  import opened Splice
  import opened Boxes
  import opened VisualCover

  // ----- What the sweep reports is met

  lemma OverlapsMore(a: seq<Range>, b: seq<Range>, cs: int, ce: int)
    requires Overlaps(a, cs, ce) && a <= b
    ensures Overlaps(b, cs, ce)
  {
    var r :| r in a && cs < r.end && ce > r.start;
    assert r in b;
  }

  lemma {:induction false} HitMeetsCover(page: Page, isAlnum: char -> bool, st: Paint, hits: seq<Span>,
      dpi: nat, s: Span)
    requires AllPainted(page, st, dpi) && s in hits
    requires s.start < s.end && WordBounded(isAlnum, page.text, s.start, s.end)
    ensures Overlaps(PaintHits(page, isAlnum, st, hits, dpi).covered, s.start, s.end)
  {
    var n := |hits| - 1;
    var before := PaintHits(page, isAlnum, st, hits[..n], dpi);
    var after := PaintHits(page, isAlnum, st, hits, dpi);
    PaintHitsKeep(page, isAlnum, st, hits[..n], dpi);
    PaintHitKeeps(page, isAlnum, before, hits[n], dpi);
    if s in hits[..n] {
      HitMeetsCover(page, isAlnum, st, hits[..n], dpi, s);
      OverlapsMore(before.covered, after.covered, s.start, s.end);
    } else {
      assert s == hits[n];
      if Overlaps(before.covered, s.start, s.end) {
        OverlapsMore(before.covered, after.covered, s.start, s.end);
      } else {
        assert Range(s.start, s.end) in after.covered;
      }
    }
  }

  lemma {:induction false} ByValueHolds(labels: seq<LabelEntry>, j: nat)
    requires j < |labels| && labels[j].value != ""
    ensures HasValue(ByValue(labels), labels[j].value)
  {
    var n := |labels| - 1;
    var vs := ByValue(labels[..n]);
    if j < n {
      assert labels[..n][j] == labels[j];
      ByValueHolds(labels[..n], j);
      var k :| 0 <= k < |vs| && vs[k].value == labels[j].value;
      assert ByValue(labels)[k] == vs[k];
    } else if !HasValue(vs, labels[n].value) {
      assert ByValue(labels)[|vs|].value == labels[n].value;
    }
  }

  lemma SortedValueIndex(labels: seq<LabelEntry>, value: string) returns (k: nat)
    requires HasValue(ByValue(labels), value)
    ensures k < |SortBy(ByValue(labels), LongerFirst)| && SortBy(ByValue(labels), LongerFirst)[k].value == value
  {
    var vs := ByValue(labels);
    SortMembers(vs, LongerFirst);
    var j :| 0 <= j < |vs| && vs[j].value == value;
    var sorted := SortBy(vs, LongerFirst);
    assert vs[j] in sorted;
    k :| 0 <= k < |sorted| && sorted[k] == vs[j];
  }

  /** No shifted copy of the value inside its own occurrence is free-standing: the
      character before it, which is the value's own, is a letter or digit. */
  ghost predicate NoFreeOverlap(isAlnum: char -> bool, v: string) {
    forall k :: 0 < k < |v| && Bordered(v, k) ==> isAlnum(v[k - 1])
  }

  lemma CharacterBefore(text: string, v: string, h: nat, i: nat)
    requires OccursAt(text, v, h) && h < i <= h + |v|
    ensures text[i - 1] == v[i - h - 1]
  {
    assert text[h..h + |v|][i - h - 1] == text[i - 1];
  }

  lemma FreeCopyIsApart(isAlnum: char -> bool, text: string, v: string, h: nat, i: nat)
    requires NoFreeOverlap(isAlnum, v) && OccursAt(text, v, h) && OccursAt(text, v, i) && h < i
    requires WordBounded(isAlnum, text, i, i + |v|)
    ensures h + |v| <= i
  {
    if i < h + |v| {
      OverlapIsBorder(text, v, h, i);
      CharacterBefore(text, v, h, i);
    }
  }

  /** The scan reports every free-standing occurrence of such a value. */
  lemma {:induction false} ScanFindsFree(isAlnum: char -> bool, text: string, v: string, from: nat, lbl: string, i: nat)
    requires v != "" && NoFreeOverlap(isAlnum, v) && OccursAt(text, v, i) && from <= i
    requires WordBounded(isAlnum, text, i, i + |v|)
    ensures Reported(Span(i, i + |v|, lbl), text, v, from, lbl)
    decreases |text| + 1 - from
  {
    var h := ScanStep(text, v, from, lbl, i);
    if h < i {
      FreeCopyIsApart(isAlnum, text, v, h, i);
      ScanFindsFree(isAlnum, text, v, h + |v|, lbl, i);
      ReportedLater(Span(i, i + |v|, lbl), text, v, from, lbl, h);
    } else {
      MemberOfHead(Span(h, h + |v|, lbl), Occurrences(text, v, h + |v|, lbl));
    }
  }

  /** No letter or digit stands right before or right after the range. */
  predicate FreeStanding(isAlnum: char -> bool, text: string, a: int, b: int) {
    0 <= a <= b <= |text| && (a == 0 || !isAlnum(text[a - 1])) && (b == |text| || !isAlnum(text[b]))
  }

  /** Everything the sweep looks at, in its order. */
  function Hits(text: string, labels: seq<LabelEntry>): seq<Span> {
    RepeatSpans(text, SortBy(ByValue(labels), LongerFirst))
  }

  lemma LabelledHit(isAlnum: char -> bool, text: string, labels: seq<LabelEntry>, j: nat, i: nat) returns (s: Span)
    requires j < |labels| && labels[j].value != "" && NoFreeOverlap(isAlnum, labels[j].value)
    requires OccursAt(text, labels[j].value, i) && WordBounded(isAlnum, text, i, i + |labels[j].value|)
    ensures s in Hits(text, labels) && s.start == i && s.end == i + |labels[j].value|
  {
    var value := labels[j].value;
    var vs := SortBy(ByValue(labels), LongerFirst);
    ByValueHolds(labels, j);
    var k := SortedValueIndex(labels, value);
    s := Span(i, i + |value|, vs[k].lbl);
    ScanFindsFree(isAlnum, text, value, 0, vs[k].lbl, i);
    RepeatsInclude(text, vs, k, s);
  }

  lemma {:induction false} RepeatsFrom(text: string, vs: seq<Labelled>, s: Span) returns (k: nat)
    requires s in RepeatSpans(text, vs)
    ensures k < |vs| && vs[k].value != "" && s in Occurrences(text, vs[k].value, 0, vs[k].lbl)
  {
    var n := |vs| - 1;
    if s in RepeatSpans(text, vs[..n]) {
      k := RepeatsFrom(text, vs[..n], s);
    } else {
      k := n;
    }
  }

  // The first label of a value is the one that is kept for it.
  lemma {:induction false} ByValueFrom(labels: seq<LabelEntry>, x: Labelled) returns (j: nat)
    requires x in ByValue(labels)
    ensures j < |labels| && labels[j].value == x.value != "" && labels[j].text == x.lbl
    ensures forall q :: 0 <= q < j ==> labels[q].value != x.value
  {
    var n := |labels| - 1;
    if x in ByValue(labels[..n]) {
      j := ByValueFrom(labels[..n], x);
    } else {
      j := n;
      forall q | 0 <= q < n ensures labels[q].value != x.value {
        if labels[q].value == x.value {
          assert labels[..n][q] == labels[q];
          ByValueHolds(labels[..n], q);
        }
      }
    }
  }

  /** A hit of the sweep is an occurrence of a labelled value, shown under the first
      label of that value. */
  lemma HitIsOccurrence(t: string, labels: seq<LabelEntry>, s: Span) returns (j: nat)
    requires s in Hits(t, labels)
    ensures j < |labels| && labels[j].value != "" && OccursAt(t, labels[j].value, s.start)
    ensures 0 <= s.start && s.end == s.start + |labels[j].value| && s.lbl == labels[j].text
    ensures forall q :: 0 <= q < j ==> labels[q].value != labels[j].value
  {
    var vs := SortBy(ByValue(labels), LongerFirst);
    var i := RepeatsFrom(t, vs, s);
    SortMembers(ByValue(labels), LongerFirst);
    assert vs[i] in ByValue(labels);
    j := ByValueFrom(labels, vs[i]);
    HitsOccur(t, vs[i].value, 0, vs[i].lbl, s);
  }

  lemma HitsAreLong(text: string, vs: seq<Labelled>, n: nat, u: nat)
    requires Ordered(vs, LongerFirst) && n < |vs| && u < |RepeatSpans(text, vs[..n])|
    ensures RepeatSpans(text, vs[..n])[u].end - RepeatSpans(text, vs[..n])[u].start >= |vs[n].value|
  {
    hide RepeatSpans, Occurrences;
    var s := RepeatSpans(text, vs[..n])[u];
    var k := RepeatsFrom(text, vs[..n], s);
    HitsOccur(text, vs[k].value, 0, vs[k].lbl, s);
    assert LongerFirst(vs[k], vs[n]);
  }

  lemma {:induction false} LongerRepeatsFirst(text: string, vs: seq<Labelled>, n: nat, u: nat, t: nat)
    requires Ordered(vs, LongerFirst) && n <= |vs| && u < t < |RepeatSpans(text, vs[..n])|
    ensures var hits := RepeatSpans(text, vs[..n]);
            hits[u].end - hits[u].start >= hits[t].end - hits[t].start
  {
    hide RepeatSpans, Occurrences;
    if n == 0 {
      assert vs[..0] == [];
      NoRepeatSpans(text);
    } else {
      var v := vs[n - 1];
      var front := RepeatSpans(text, vs[..n - 1]);
      assert vs[..n] == vs[..n - 1] + [v];
      RepeatSpansSnoc(text, vs[..n - 1], v);
      var hits := RepeatSpans(text, vs[..n]);
      if t < |front| {
        LongerRepeatsFirst(text, vs, n - 1, u, t);
      } else {
        assert hits[t] in Occurrences(text, v.value, 0, v.lbl);
        HitsOccur(text, v.value, 0, v.lbl, hits[t]);
        if u < |front| {
          HitsAreLong(text, vs, n - 1, u);
        } else {
          assert hits[u] in Occurrences(text, v.value, 0, v.lbl);
          HitsOccur(text, v.value, 0, v.lbl, hits[u]);
        }
      }
    }
  }

  lemma NoRepeatSpans(text: string)
    ensures RepeatSpans(text, []) == []
  {
  }

  /** The sweep looks for longer values before shorter ones. */
  lemma LongerHitsFirst(text: string, labels: seq<LabelEntry>, u: nat, t: nat)
    requires u < t < |Hits(text, labels)|
    ensures var hits := Hits(text, labels);
            hits[u].end - hits[u].start >= hits[t].end - hits[t].start
  {
    var vs := SortBy(ByValue(labels), LongerFirst);
    SortOrders(ByValue(labels), LongerFirst);
    assert vs[..|vs|] == vs;
    LongerRepeatsFirst(text, vs, |vs|, u, t);
  }

  /** Every free-standing occurrence of a labelled value without free overlaps meets
      a range whose glyphs are all painted, whether or not it was detected. */
  lemma RepeatsAreCovered(page: Page, b2c: map<int, nat>, upper: string -> string, isAlnum: char -> bool,
                          labels: seq<LabelEntry>, dets: seq<Detection>, dpi: nat, j: nat, i: nat)
    requires j < |labels| && labels[j].value != "" && NoFreeOverlap(isAlnum, labels[j].value)
    requires OccursAt(page.text, labels[j].value, i) && FreeStanding(isAlnum, page.text, i, i + |labels[j].value|)
    ensures var st := PaintPage(page, b2c, upper, isAlnum, labels, dets, dpi);
            Overlaps(st.covered, i, i + |labels[j].value|) && AllPainted(page, st, dpi)
  {
    var s := LabelledHit(isAlnum, page.text, labels, j, i);
    var st := PaintDetections(page, b2c, upper, labels, dets, dpi);
    DetectionsPainted(page, b2c, upper, labels, dets, dpi);
    PaintHitsKeep(page, isAlnum, st, Hits(page.text, labels), dpi);
    HitMeetsCover(page, isAlnum, st, Hits(page.text, labels), dpi, s);
  }

  // ----- When an occurrence is painted in full

  /** The range meets a detection's range, or that of an earlier hit which was
      itself painted. */
  ghost predicate Blocked(detected: seq<Range>, earlier: seq<Span>, painted: seq<Range>, cs: int, ce: int) {
    || Overlaps(detected, cs, ce)
    || exists u :: 0 <= u < |earlier| && cs < earlier[u].end && ce > earlier[u].start
                   && Range(earlier[u].start, earlier[u].end) in painted
  }

  lemma {:induction false} CoverComesFrom(page: Page, isAlnum: char -> bool, st: Paint, hits: seq<Span>, dpi: int,
                                          r: Range)
    requires r in PaintHits(page, isAlnum, st, hits, dpi).covered
    ensures r in st.covered || exists u :: 0 <= u < |hits| && r == Range(hits[u].start, hits[u].end)
  {
    if hits != [] {
      var n := |hits| - 1;
      if r in PaintHits(page, isAlnum, st, hits[..n], dpi).covered {
        CoverComesFrom(page, isAlnum, st, hits[..n], dpi, r);
        if r !in st.covered {
          var u :| 0 <= u < |hits[..n]| && r == Range(hits[..n][u].start, hits[..n][u].end);
          assert hits[u] == hits[..n][u];
        }
      } else {
        assert r == Range(hits[n].start, hits[n].end);
      }
    }
  }

  lemma {:induction false} FreeHitIsCovered(page: Page, isAlnum: char -> bool, st: Paint, hits: seq<Span>,
      dpi: nat, t: nat)
    requires AllPainted(page, st, dpi) && t < |hits| && WordBounded(isAlnum, page.text, hits[t].start, hits[t].end)
    requires !Overlaps(PaintHits(page, isAlnum, st, hits[..t], dpi).covered, hits[t].start, hits[t].end)
    ensures Range(hits[t].start, hits[t].end) in PaintHits(page, isAlnum, st, hits, dpi).covered
  {
    hide AllPainted, RectsFor, WordBounded, Overlaps;
    var n := |hits| - 1;
    var before := PaintHits(page, isAlnum, st, hits[..n], dpi);
    PaintHitsKeep(page, isAlnum, st, hits[..n], dpi);
    PaintHitKeeps(page, isAlnum, before, hits[n], dpi);
    if t < n {
      assert hits[..n][..t] == hits[..t] && hits[..n][t] == hits[t];
      FreeHitIsCovered(page, isAlnum, st, hits[..n], dpi, t);
    }
  }

  lemma BlockedHit(page: Page, isAlnum: char -> bool, st: Paint, hits: seq<Span>, dpi: nat, t: nat)
    requires AllPainted(page, st, dpi) && t < |hits|
    requires Overlaps(PaintHits(page, isAlnum, st, hits[..t], dpi).covered, hits[t].start, hits[t].end)
    ensures Blocked(st.covered, hits[..t], PaintHits(page, isAlnum, st, hits, dpi).covered, hits[t].start, hits[t].end)
  {
    hide PaintHits, AllPainted;
    var s, before := hits[t], PaintHits(page, isAlnum, st, hits[..t], dpi);
    var r :| r in before.covered && s.start < r.end && s.end > r.start;
    CoverComesFrom(page, isAlnum, st, hits[..t], dpi, r);
    PaintHitsKeep(page, isAlnum, st, hits[..t], dpi);
    PaintHitsKeep(page, isAlnum, before, hits[t..], dpi);
    PaintHitsConcat(page, isAlnum, st, hits[..t], hits[t..], dpi);
    assert hits[..t] + hits[t..] == hits;
    assert r in PaintHits(page, isAlnum, st, hits, dpi).covered;
  }

  lemma HitPaintedOrBlocked(page: Page, isAlnum: char -> bool, st: Paint, hits: seq<Span>, dpi: nat, t: nat)
    requires AllPainted(page, st, dpi) && t < |hits| && WordBounded(isAlnum, page.text, hits[t].start, hits[t].end)
    ensures var after := PaintHits(page, isAlnum, st, hits, dpi);
            || RangePainted(page, after.rects, Range(hits[t].start, hits[t].end), dpi)
            || Blocked(st.covered, hits[..t], after.covered, hits[t].start, hits[t].end)
  {
    hide PaintHits, RangePainted, Blocked;
    if Overlaps(PaintHits(page, isAlnum, st, hits[..t], dpi).covered, hits[t].start, hits[t].end) {
      BlockedHit(page, isAlnum, st, hits, dpi, t);
    } else {
      FreeHitIsCovered(page, isAlnum, st, hits, dpi, t);
      PaintHitsKeep(page, isAlnum, st, hits, dpi);
    }
  }

  lemma PageIsHits(page: Page, b2c: map<int, nat>, upper: string -> string, isAlnum: char -> bool,
                   labels: seq<LabelEntry>, dets: seq<Detection>, dpi: int)
    ensures PaintPage(page, b2c, upper, isAlnum, labels, dets, dpi)
            == PaintHits(page, isAlnum, PaintDetections(page, b2c, upper, labels, dets, dpi),
                         Hits(page.text, labels), dpi)
  {
  }

  /** A free-standing occurrence is painted in full, glyph by glyph, unless it meets
      a detection's range or a hit, of a value at least as long, that the sweep painted
      earlier. */
  lemma RepeatPaintedOrBlocked(page: Page, b2c: map<int, nat>, upper: string -> string, isAlnum: char -> bool,
                               labels: seq<LabelEntry>, dets: seq<Detection>, dpi: nat, j: nat, i: nat) returns (t: nat)
    requires j < |labels| && labels[j].value != "" && NoFreeOverlap(isAlnum, labels[j].value)
    requires OccursAt(page.text, labels[j].value, i) && FreeStanding(isAlnum, page.text, i, i + |labels[j].value|)
    ensures t < |Hits(page.text, labels)|
    ensures Hits(page.text, labels)[t].start == i && Hits(page.text, labels)[t].end == i + |labels[j].value|
    ensures forall u :: 0 <= u < t ==>
              Hits(page.text, labels)[u].end - Hits(page.text, labels)[u].start >= |labels[j].value|
    ensures var e, after := i + |labels[j].value|, PaintPage(page, b2c, upper, isAlnum, labels, dets, dpi);
            || RangePainted(page, after.rects, Range(i, e), dpi)
            || Blocked(PaintDetections(page, b2c, upper, labels, dets, dpi).covered, Hits(page.text, labels)[..t],
                       after.covered, i, e)
  {
    hide Hits, PaintPage, PaintDetections, PaintHits, RangePainted, Blocked;
    var s := LabelledHit(isAlnum, page.text, labels, j, i);
    var st := PaintDetections(page, b2c, upper, labels, dets, dpi);
    var hits := Hits(page.text, labels);
    t :| 0 <= t < |hits| && hits[t] == s;
    DetectionsPainted(page, b2c, upper, labels, dets, dpi);
    HitPaintedOrBlocked(page, isAlnum, st, hits, dpi, t);
    forall u | 0 <= u < t ensures hits[u].end - hits[u].start >= |labels[j].value| {
      LongerHitsFirst(page.text, labels, u, t);
    }
    PageIsHits(page, b2c, upper, isAlnum, labels, dets, dpi);
  }
}
