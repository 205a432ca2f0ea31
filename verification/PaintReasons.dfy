/** Why a rectangle is painted: for a detection, or for a free-standing repeat of a
    labelled value that no detection touches. Nothing else is covered. */
module PaintReasons {
  import opened Strings
  import opened Labels
  import opened Spans
  import opened Boxes
  import opened VisualCover
  import opened RepeatCover

  /** Detection `d` is the characters `a .. b` of the page. */
  predicate DetectedAt(b2c: map<int, nat>, d: Detection, a: int, b: int) {
    d.start in b2c && d.end in b2c && b2c[d.start] == a < b == b2c[d.end]
  }

  ghost predicate ForDetection(page: Page, b2c: map<int, nat>, upper: string -> string, labels: seq<LabelEntry>,
                               dets: seq<Detection>, dpi: int, r: Rect) {
    exists d, a, b :: d in dets && DetectedAt(b2c, d, a, b)
                      && r in RectsFor(page, a, b, Lookup(labels, (upper(d.entityType), d.text)), dpi)
  }

  /** No detection reaches into the characters `a .. b`. */
  ghost predicate Undetected(b2c: map<int, nat>, dets: seq<Detection>, a: int, b: int) {
    forall d, k, l :: d in dets && DetectedAt(b2c, d, k, l) ==> b <= k || l <= a
  }

  /** The value of label `j`, which is the first label of that value, stands free at `i`. */
  ghost predicate Repeats(page: Page, isAlnum: char -> bool, labels: seq<LabelEntry>, j: int, i: int) {
    && 0 <= j < |labels| && labels[j].value != "" && (forall q :: 0 <= q < j ==> labels[q].value != labels[j].value)
    && OccursAt(page.text, labels[j].value, i) && FreeStanding(isAlnum, page.text, i, i + |labels[j].value|)
  }

  ghost predicate ForRepeat(page: Page, b2c: map<int, nat>, isAlnum: char -> bool, labels: seq<LabelEntry>,
                            dets: seq<Detection>, dpi: int, r: Rect) {
    exists j, i :: Repeats(page, isAlnum, labels, j, i) && Undetected(b2c, dets, i, i + |labels[j].value|)
                   && r in RectsFor(page, i, i + |labels[j].value|, labels[j].text, dpi)
  }

  lemma {:induction false} DetectionRectsOnly(page: Page, b2c: map<int, nat>, upper: string -> string,
                                              labels: seq<LabelEntry>, dets: seq<Detection>, dpi: int, r: Rect)
    requires r in PaintDetections(page, b2c, upper, labels, dets, dpi).rects
    ensures ForDetection(page, b2c, upper, labels, dets, dpi, r)
  {
    hide RectsFor, Lookup;
    var n := |dets| - 1;
    if r in PaintDetections(page, b2c, upper, labels, dets[..n], dpi).rects {
      DetectionRectsOnly(page, b2c, upper, labels, dets[..n], dpi, r);
    } else {
      assert DetectedAt(b2c, dets[n], b2c[dets[n].start], b2c[dets[n].end]);
    }
  }

  // Every detection's range is among those covered.
  lemma {:induction false} DetectionRanges(page: Page, b2c: map<int, nat>, upper: string -> string,
                                           labels: seq<LabelEntry>, dets: seq<Detection>, dpi: int,
                                           d: Detection, a: int, b: int)
    requires d in dets && DetectedAt(b2c, d, a, b)
    ensures Range(a, b) in PaintDetections(page, b2c, upper, labels, dets, dpi).covered
  {
    hide RectsFor, Lookup;
    var n := |dets| - 1;
    if d in dets[..n] {
      DetectionRanges(page, b2c, upper, labels, dets[..n], dpi, d, a, b);
    } else {
      assert d == dets[n];
    }
  }

  lemma FreeOfDetections(page: Page, b2c: map<int, nat>, upper: string -> string, labels: seq<LabelEntry>,
                         dets: seq<Detection>, dpi: int, covered: seq<Range>, s: Span)
    requires PaintDetections(page, b2c, upper, labels, dets, dpi).covered <= covered
    requires !Overlaps(covered, s.start, s.end)
    ensures Undetected(b2c, dets, s.start, s.end)
  {
    hide PaintDetections;
    forall d, k, l | d in dets && DetectedAt(b2c, d, k, l) ensures s.end <= k || l <= s.start {
      DetectionRanges(page, b2c, upper, labels, dets, dpi, d, k, l);
      assert Range(k, l) in covered;
    }
  }

  /** The rectangles of the sweep over some of the hits, with their reasons. */
  lemma {:induction false} SweepRectsOnly(page: Page, b2c: map<int, nat>, upper: string -> string,
                                          isAlnum: char -> bool, labels: seq<LabelEntry>, dets: seq<Detection>,
                                          dpi: nat, hits: seq<Span>, r: Rect)
    requires forall s :: s in hits ==> s in Hits(page.text, labels)
    requires r in PaintHits(page, isAlnum, PaintDetections(page, b2c, upper, labels, dets, dpi), hits, dpi).rects
    ensures ForDetection(page, b2c, upper, labels, dets, dpi, r)
            || ForRepeat(page, b2c, isAlnum, labels, dets, dpi, r)
  {
    hide PaintDetections, ForDetection, ForRepeat, RectsFor, Hits, Overlaps, WordBounded;
    var st := PaintDetections(page, b2c, upper, labels, dets, dpi);
    if hits == [] {
      DetectionRectsOnly(page, b2c, upper, labels, dets, dpi, r);
    } else {
      var n := |hits| - 1;
      var before := PaintHits(page, isAlnum, st, hits[..n], dpi);
      if r in before.rects {
        SweepRectsOnly(page, b2c, upper, isAlnum, labels, dets, dpi, hits[..n], r);
      } else {
        DetectionsPainted(page, b2c, upper, labels, dets, dpi);
        PaintHitsKeep(page, isAlnum, st, hits[..n], dpi);
        assert hits[n] in hits;
        FreeOfDetections(page, b2c, upper, labels, dets, dpi, before.covered, hits[n]);
        HitIsRepeat(page, b2c, isAlnum, labels, dets, dpi, hits[n], r);
      }
    }
  }

  lemma HitIsRepeat(page: Page, b2c: map<int, nat>, isAlnum: char -> bool, labels: seq<LabelEntry>,
                    dets: seq<Detection>, dpi: int, s: Span, r: Rect)
    requires s in Hits(page.text, labels) && WordBounded(isAlnum, page.text, s.start, s.end)
    requires Undetected(b2c, dets, s.start, s.end) && r in RectsFor(page, s.start, s.end, s.lbl, dpi)
    ensures ForRepeat(page, b2c, isAlnum, labels, dets, dpi, r)
  {
    hide Hits, RectsFor, Undetected;
    var j := HitIsOccurrence(page.text, labels, s);
    assert Repeats(page, isAlnum, labels, j, s.start);
  }

  /** Every rectangle on the page is one of a detection on it, under that detection's
      label, or one of a free-standing repeat of a labelled value that no detection
      reaches into, under that value's first label. */
  lemma EveryRectHasReason(page: Page, b2c: map<int, nat>, upper: string -> string, isAlnum: char -> bool,
                           labels: seq<LabelEntry>, dets: seq<Detection>, dpi: nat, r: Rect)
    requires r in PaintPage(page, b2c, upper, isAlnum, labels, dets, dpi).rects
    ensures ForDetection(page, b2c, upper, labels, dets, dpi, r)
            || ForRepeat(page, b2c, isAlnum, labels, dets, dpi, r)
  {
    hide ForDetection, ForRepeat, PaintDetections, PaintHits;
    PageIsHits(page, b2c, upper, isAlnum, labels, dets, dpi);
    SweepRectsOnly(page, b2c, upper, isAlnum, labels, dets, dpi, Hits(page.text, labels), r);
  }
}
