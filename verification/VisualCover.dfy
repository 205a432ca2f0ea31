/** From detections to the rectangles painted over a page, and from a whole
    document's detections to its pages' glyphs. */
module VisualCover {
  import opened Utf8
  import opened Strings
  import opened Sorting
  import opened Labels
  import opened Boxes
  import opened Pages
  import opened Spans
  import opened Splice

  datatype Range = Range(start: int, end: int)

  /** The rectangles so far and the character ranges they were made for. */
  datatype Paint = Paint(rects: seq<Rect>, covered: seq<Range>)

  predicate Overlaps(covered: seq<Range>, cs: int, ce: int) {
    exists r :: r in covered && cs < r.end && ce > r.start
  }

  /** The characters around the range are not letters or digits. */
  predicate WordBounded(isAlnum: char -> bool, text: string, cs: int, ce: int) {
    && (0 < cs <= |text| ==> !isAlnum(text[cs - 1]))
    && (0 <= ce < |text| ==> !isAlnum(text[ce]))
  }

  function PaintRange(page: Page, st: Paint, cs: int, ce: int, lbl: string, dpi: int): Paint {
    Paint(st.rects + RectsFor(page, cs, ce, lbl, dpi), st.covered + [Range(cs, ce)])
  }

  // ----- Detected spans

  function PaintDetection(page: Page, b2c: map<int, nat>, st: Paint, upper: string -> string,
                          labels: seq<LabelEntry>, d: Detection, dpi: int): Paint {
    if d.start in b2c && d.end in b2c && b2c[d.start] < b2c[d.end] then
      PaintRange(page, st, b2c[d.start], b2c[d.end], Lookup(labels, (upper(d.entityType), d.text)), dpi)
    else st
  }

  function PaintDetections(page: Page, b2c: map<int, nat>, upper: string -> string,
                           labels: seq<LabelEntry>, dets: seq<Detection>, dpi: int): Paint {
    if dets == [] then Paint([], [])
    else
      var n := |dets| - 1;
      PaintDetection(page, b2c, PaintDetections(page, b2c, upper, labels, dets[..n], dpi), upper, labels, dets[n], dpi)
  }

  // ----- Repeats of labelled values

  predicate HasValue(vs: seq<Labelled>, value: string) {
    exists k :: 0 <= k < |vs| && vs[k].value == value
  }

  /** The first label of each value, in label order. */
  function ByValue(labels: seq<LabelEntry>): seq<Labelled> {
    if labels == [] then []
    else
      var n := |labels| - 1;
      var vs := ByValue(labels[..n]);
      if labels[n].value == "" || HasValue(vs, labels[n].value) then vs
      else vs + [Labelled(labels[n].value, labels[n].text)]
  }

  predicate LongerFirst(a: Labelled, b: Labelled) {
    |a.value| >= |b.value|
  }

  function PaintHit(page: Page, isAlnum: char -> bool, st: Paint, s: Span, dpi: int): Paint {
    if !Overlaps(st.covered, s.start, s.end) && WordBounded(isAlnum, page.text, s.start, s.end)
    then PaintRange(page, st, s.start, s.end, s.lbl, dpi) else st
  }

  function PaintHits(page: Page, isAlnum: char -> bool, st: Paint, hits: seq<Span>, dpi: int): Paint {
    if hits == [] then st
    else
      var n := |hits| - 1;
      PaintHit(page, isAlnum, PaintHits(page, isAlnum, st, hits[..n], dpi), hits[n], dpi)
  }

  function PaintPage(page: Page, b2c: map<int, nat>, upper: string -> string, isAlnum: char -> bool,
                     labels: seq<LabelEntry>, dets: seq<Detection>, dpi: int): Paint {
    PaintHits(page, isAlnum, PaintDetections(page, b2c, upper, labels, dets, dpi),
              RepeatSpans(page.text, SortBy(ByValue(labels), LongerFirst)), dpi)
  }

  // ----- The method

  method SpansToRects(page: Page, upper: string -> string, isAlnum: char -> bool,
                      dets: seq<Detection>, labels: seq<LabelEntry>, dpi: int) returns (rects: seq<Rect>)
    ensures forall m :: IsByteMap(page.text, m) ==> rects == PaintPage(page, m, upper, isAlnum, labels, dets, dpi).rects
  {
    var b2c := ByteToCharMap(page.text);
    var covered: seq<Range> := [];
    rects := [];
    for i := 0 to |dets|
      invariant Paint(rects, covered) == PaintDetections(page, b2c, upper, labels, dets[..i], dpi)
    {
      assert dets[..i + 1][..i] == dets[..i];
      var d := dets[i];
      if d.start !in b2c || d.end !in b2c || b2c[d.start] >= b2c[d.end] {
        continue;
      }
      var lbl := Lookup(labels, (upper(d.entityType), d.text));
      rects := EmitRects(page, b2c[d.start], b2c[d.end], lbl, dpi, rects);
      covered := covered + [Range(b2c[d.start], b2c[d.end])];
    }
    assert dets[..|dets|] == dets;
    var byValue := LabelsByValue(labels);
    byValue := SortBy(byValue, LongerFirst);
    rects, covered := PaintAllRepeats(page, isAlnum, byValue, dpi, rects, covered);
    forall m | IsByteMap(page.text, m) ensures m == b2c {
      ByteMapUnique(page.text, m, b2c);
    }
  }

  method LabelsByValue(labels: seq<LabelEntry>) returns (byValue: seq<Labelled>)
    ensures byValue == ByValue(labels)
  {
    byValue := [];
    for i := 0 to |labels|
      invariant byValue == ByValue(labels[..i])
    {
      assert labels[..i + 1][..i] == labels[..i];
      if labels[i].value != "" && !HasValue(byValue, labels[i].value) {
        byValue := byValue + [Labelled(labels[i].value, labels[i].text)];
      }
    }
    assert labels[..|labels|] == labels;
  }

  lemma {:induction false} PaintHitsConcat(page: Page, isAlnum: char -> bool, st: Paint, a: seq<Span>,
      b: seq<Span>, dpi: int)
    ensures PaintHits(page, isAlnum, PaintHits(page, isAlnum, st, a, dpi), b, dpi)
            == PaintHits(page, isAlnum, st, a + b, dpi)
    decreases |b|
  {
    if b == [] {
      assert a + b == a;
    } else {
      var n := |b| - 1;
      assert (a + b)[..|a + b| - 1] == a + b[..n];
      PaintHitsConcat(page, isAlnum, st, a, b[..n], dpi);
    }
  }

  lemma PaintHitsSnoc(page: Page, isAlnum: char -> bool, st: Paint, hits: seq<Span>, s: Span, dpi: int)
    ensures PaintHits(page, isAlnum, st, hits + [s], dpi)
            == PaintHit(page, isAlnum, PaintHits(page, isAlnum, st, hits, dpi), s, dpi)
  {
    assert (hits + [s])[..|hits|] == hits;
  }

  method PaintAllRepeats(page: Page, isAlnum: char -> bool, byValue: seq<Labelled>, dpi: int,
                         rects0: seq<Rect>, covered0: seq<Range>) returns (rects: seq<Rect>, covered: seq<Range>)
    ensures Paint(rects, covered)
            == PaintHits(page, isAlnum, Paint(rects0, covered0), RepeatSpans(page.text, byValue), dpi)
  {
    rects, covered := rects0, covered0;
    ghost var st := Paint(rects0, covered0);
    for i := 0 to |byValue|
      invariant Paint(rects, covered) == PaintHits(page, isAlnum, st, RepeatSpans(page.text, byValue[..i]), dpi)
    {
      assert byValue[..i + 1] == byValue[..i] + [byValue[i]];
      ghost var before := RepeatSpans(page.text, byValue[..i]);
      RepeatSpansSnoc(page.text, byValue[..i], byValue[i]);
      if byValue[i].value != "" {
        rects, covered := PaintRepeats(page, isAlnum, byValue[i], dpi, rects, covered);
        PaintHitsConcat(page, isAlnum, st, before, Occurrences(page.text, byValue[i].value, 0, byValue[i].lbl), dpi);
      } else {
        assert before + [] == before;
      }
    }
    assert byValue[..|byValue|] == byValue;
  }

  method PaintRepeats(page: Page, isAlnum: char -> bool, v: Labelled, dpi: int,
                      rects0: seq<Rect>, covered0: seq<Range>) returns (rects: seq<Rect>, covered: seq<Range>)
    requires v.value != ""
    ensures Paint(rects, covered)
            == PaintHits(page, isAlnum, Paint(rects0, covered0), Occurrences(page.text, v.value, 0, v.lbl), dpi)
  {
    hide Find, PaintHit, Occurrences;
    rects, covered := rects0, covered0;
    ghost var st := Paint(rects0, covered0);
    ghost var hits: seq<Span> := [];
    var start: nat := 0;
    var hit := Find(page.text, v.value, start);
    while hit.Some?
      invariant hit == Find(page.text, v.value, start)
      invariant hits + Occurrences(page.text, v.value, start, v.lbl) == Occurrences(page.text, v.value, 0, v.lbl)
      invariant Paint(rects, covered) == PaintHits(page, isAlnum, st, hits, dpi)
      decreases |page.text| + 1 - start
    {
      var cs, ce := hit.value, hit.value + |v.value|;
      ghost var s := Span(cs, ce, v.lbl);
      OccurrencesStep(page.text, v.value, start, v.lbl);
      Assoc(hits, [s], Occurrences(page.text, v.value, ce, v.lbl));
      PaintHitsSnoc(page, isAlnum, st, hits, s, dpi);
      hits := hits + [s];
      start := ce;
      rects, covered := PaintIfFree(page, isAlnum, cs, ce, v.lbl, dpi, rects, covered);
      hit := Find(page.text, v.value, start);
    }
    OccurrencesStep(page.text, v.value, start, v.lbl);
    assert hits + [] == hits;
  }

  method PaintIfFree(page: Page, isAlnum: char -> bool, cs: nat, ce: nat, lbl: string, dpi: int,
                     rects0: seq<Rect>, covered0: seq<Range>) returns (rects: seq<Rect>, covered: seq<Range>)
    ensures Paint(rects, covered) == PaintHit(page, isAlnum, Paint(rects0, covered0), Span(cs, ce, lbl), dpi)
  {
    rects, covered := rects0, covered0;
    if !Overlaps(covered, cs, ce) && WordBounded(isAlnum, page.text, cs, ce) {
      rects := EmitRects(page, cs, ce, lbl, dpi, rects);
      covered := covered + [Range(cs, ce)];
    }
  }

  // ----- Everything covered stays covered

  predicate Extends(a: Paint, b: Paint) {
    a.rects <= b.rects && a.covered <= b.covered
  }

  ghost predicate GlyphPainted(page: Page, rects: seq<Rect>, i: nat, dpi: int)
    requires i < |page.charBoxes| && page.charBoxes[i].Some?
  {
    exists r :: r in rects && Hides(page, dpi, r, page.charBoxes[i].value)
  }

  ghost predicate RangePainted(page: Page, rects: seq<Rect>, r: Range, dpi: int) {
    forall i :: 0 <= i && r.start <= i < r.end && i < |page.charBoxes| && page.charBoxes[i].Some? ==>
      GlyphPainted(page, rects, i, dpi)
  }

  /** Every covered range has all its glyphs inside rectangles. */
  ghost predicate AllPainted(page: Page, st: Paint, dpi: int) {
    forall r :: r in st.covered ==> RangePainted(page, st.rects, r, dpi)
  }

  lemma MoreRects(page: Page, a: seq<Rect>, b: seq<Rect>, r: Range, dpi: int)
    requires RangePainted(page, a, r, dpi) && a <= b
    ensures RangePainted(page, b, r, dpi)
  {
    forall i | 0 <= i && r.start <= i < r.end && i < |page.charBoxes| && page.charBoxes[i].Some?
      ensures GlyphPainted(page, b, i, dpi)
    {
      assert GlyphPainted(page, a, i, dpi);
    }
  }

  lemma NewRangePainted(page: Page, rects: seq<Rect>, cs: int, ce: int, lbl: string, dpi: nat)
    ensures RangePainted(page, rects + RectsFor(page, cs, ce, lbl, dpi), Range(cs, ce), dpi)
  {
    var after := rects + RectsFor(page, cs, ce, lbl, dpi);
    forall i | 0 <= i && cs <= i < ce && i < |page.charBoxes| && page.charBoxes[i].Some?
      ensures GlyphPainted(page, after, i, dpi)
    {
      RangeIsCovered(page, cs, ce, lbl, dpi, i);
    }
  }

  lemma PaintRangeKeeps(page: Page, st: Paint, cs: int, ce: int, lbl: string, dpi: nat)
    requires AllPainted(page, st, dpi)
    ensures AllPainted(page, PaintRange(page, st, cs, ce, lbl, dpi), dpi)
    ensures Extends(st, PaintRange(page, st, cs, ce, lbl, dpi))
  {
    var after := PaintRange(page, st, cs, ce, lbl, dpi);
    forall r | r in after.covered ensures RangePainted(page, after.rects, r, dpi) {
      if r in st.covered {
        MoreRects(page, st.rects, after.rects, r, dpi);
      } else {
        NewRangePainted(page, st.rects, cs, ce, lbl, dpi);
      }
    }
  }

  lemma {:induction false} DetectionsPainted(page: Page, b2c: map<int, nat>, upper: string -> string,
                                             labels: seq<LabelEntry>, dets: seq<Detection>, dpi: nat)
    ensures AllPainted(page, PaintDetections(page, b2c, upper, labels, dets, dpi), dpi)
  {
    if dets != [] {
      var n := |dets| - 1;
      DetectionsPainted(page, b2c, upper, labels, dets[..n], dpi);
      var d := dets[n];
      if d.start in b2c && d.end in b2c && b2c[d.start] < b2c[d.end] {
        PaintRangeKeeps(page, PaintDetections(page, b2c, upper, labels, dets[..n], dpi), b2c[d.start], b2c[d.end],
                        Lookup(labels, (upper(d.entityType), d.text)), dpi);
      }
    }
  }

  lemma ExtendsTrans(a: Paint, b: Paint, c: Paint)
    requires Extends(a, b) && Extends(b, c)
    ensures Extends(a, c)
  {
  }

  lemma PaintHitKeeps(page: Page, isAlnum: char -> bool, st: Paint, s: Span, dpi: nat)
    requires AllPainted(page, st, dpi)
    ensures AllPainted(page, PaintHit(page, isAlnum, st, s, dpi), dpi)
    ensures Extends(st, PaintHit(page, isAlnum, st, s, dpi))
  {
    if !Overlaps(st.covered, s.start, s.end) && WordBounded(isAlnum, page.text, s.start, s.end) {
      PaintRangeKeeps(page, st, s.start, s.end, s.lbl, dpi);
    }
  }

  lemma {:induction false} PaintHitsKeep(page: Page, isAlnum: char -> bool, st: Paint, hits: seq<Span>, dpi: nat)
    requires AllPainted(page, st, dpi)
    ensures AllPainted(page, PaintHits(page, isAlnum, st, hits, dpi), dpi)
    ensures Extends(st, PaintHits(page, isAlnum, st, hits, dpi))
  {
    if hits != [] {
      var n := |hits| - 1;
      PaintHitsKeep(page, isAlnum, st, hits[..n], dpi);
      var before := PaintHits(page, isAlnum, st, hits[..n], dpi);
      PaintHitKeeps(page, isAlnum, before, hits[n], dpi);
      ExtendsTrans(st, before, PaintHits(page, isAlnum, st, hits, dpi));
    }
  }

  // The rectangles of a detection are among those painted.
  lemma {:induction false} DetectionRects(page: Page, b2c: map<int, nat>, upper: string -> string,
                                          labels: seq<LabelEntry>, dets: seq<Detection>, dpi: int,
                                          d: Detection, r: Rect)
    requires d in dets && d.start in b2c && d.end in b2c && b2c[d.start] < b2c[d.end]
    requires r in RectsFor(page, b2c[d.start], b2c[d.end], Lookup(labels, (upper(d.entityType), d.text)), dpi)
    ensures r in PaintDetections(page, b2c, upper, labels, dets, dpi).rects
  {
    var n := |dets| - 1;
    if d in dets[..n] {
      DetectionRects(page, b2c, upper, labels, dets[..n], dpi, d, r);
    } else {
      assert d == dets[n];
    }
  }

  /** Some rectangle with this label holds the whole glyph. */
  ghost predicate GlyphLabelled(page: Page, rects: seq<Rect>, i: nat, dpi: int, lbl: string)
    requires i < |page.charBoxes| && page.charBoxes[i].Some?
  {
    exists r :: r in rects && r.lbl == lbl && Hides(page, dpi, r, page.charBoxes[i].value)
  }

  /** Every glyph of a detection on character boundaries of its page is painted
      over with the detection's label. */
  lemma PageCover(page: Page, b2c: map<int, nat>, upper: string -> string, isAlnum: char -> bool,
                  labels: seq<LabelEntry>, dets: seq<Detection>, dpi: nat, d: Detection, k: nat, l: nat, i: nat)
    requires IsByteMap(page.text, b2c) && d in dets
    requires k <= i < l <= |page.text| && d.start == Width(page.text[..k]) && d.end == Width(page.text[..l])
    requires i < |page.charBoxes| && page.charBoxes[i].Some?
    ensures GlyphLabelled(page, PaintPage(page, b2c, upper, isAlnum, labels, dets, dpi).rects, i, dpi,
                          Lookup(labels, (upper(d.entityType), d.text)))
  {
    var lbl := Lookup(labels, (upper(d.entityType), d.text));
    var st := PaintDetections(page, b2c, upper, labels, dets, dpi);
    RangeIsCovered(page, k, l, lbl, dpi, i);
    var r :| r in RectsFor(page, k, l, lbl, dpi) && r.lbl == lbl
      && Hides(page, dpi, r, page.charBoxes[i].value);
    DetectionRects(page, b2c, upper, labels, dets, dpi, d, r);
    DetectionsPainted(page, b2c, upper, labels, dets, dpi);
    PaintHitsKeep(page, isAlnum, st, RepeatSpans(page.text, SortBy(ByValue(labels), LongerFirst)), dpi);
    assert r in PaintPage(page, b2c, upper, isAlnum, labels, dets, dpi).rects;
  }

  // ----- The whole document

  function Texts(pages: seq<Page>): (ts: seq<string>)
    ensures |ts| == |pages| && forall k :: 0 <= k < |pages| ==> ts[k] == pages[k].text
  {
    seq(|pages|, k requires 0 <= k < |pages| => pages[k].text)
  }

  /** What is painted on page `p` for the whole document's detections. */
  function DocumentRects(pages: seq<Page>, sep: string, p: nat, b2c: map<int, nat>, upper: string -> string,
                         isAlnum: char -> bool, labels: seq<LabelEntry>, dets: seq<Detection>, dpi: int): seq<Rect>
    requires p < |pages|
  {
    var local := OnPage(dets, Offsets(Texts(pages), sep), Widths(Texts(pages)), p);
    PaintPage(pages[p], b2c, upper, isAlnum, labels, local, dpi).rects
  }

  /** End to end: for a detection on the characters `k .. l` of page `p`, given by
      byte offsets into the joined document, each glyph box of those characters
      lies inside a rectangle painted on that page with the detection's label. */
  lemma DetectedGlyphsAreCovered(pages: seq<Page>, sep: string, p: nat, b2c: map<int, nat>, upper: string -> string,
                                 isAlnum: char -> bool, labels: seq<LabelEntry>, dets: seq<Detection>, dpi: nat,
                                 d: Detection, k: nat, l: nat, i: nat)
    requires p < |pages| && IsByteMap(pages[p].text, b2c) && d in dets
    requires k <= i < l <= |pages[p].text|
    requires d.start == Offsets(Texts(pages), sep)[p] + Width(pages[p].text[..k])
    requires d.end == Offsets(Texts(pages), sep)[p] + Width(pages[p].text[..l])
    requires i < |pages[p].charBoxes| && pages[p].charBoxes[i].Some?
    ensures GlyphLabelled(pages[p], DocumentRects(pages, sep, p, b2c, upper, isAlnum, labels, dets, dpi), i, dpi,
                          Lookup(labels, (upper(d.entityType), d.text)))
  {
    var page := pages[p];
    var offsets, lengths := Offsets(Texts(pages), sep), Widths(Texts(pages));
    PagesStack(Texts(pages), sep);
    BoundaryOrder(page.text, k, l);
    DetectionReachesItsPage(offsets, lengths, dets, p, d);
    var local := OnPage(dets, offsets, lengths, p);
    var e := d.(start := d.start - offsets[p], end := d.end - offsets[p]);
    PageCover(page, b2c, upper, isAlnum, labels, local, dpi, e, k, l, i);
  }

  lemma BoundaryOrder(text: string, k: nat, l: nat)
    requires k < l <= |text|
    ensures Width(text[..k]) < Width(text[..l]) <= Width(text)
  {
    WidthMonotone(text, k, l);
    WidthMonotone(text, l, |text|);
    assert text[..|text|] == text;
  }
}
