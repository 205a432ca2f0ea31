/** Box geometry for visual redaction: from glyph boxes to pixel rectangles. */
module Boxes {
  import opened Wrappers
  import opened Utf8

  datatype Box = Box(x0: real, y0: real, x1: real, y1: real)

  /** A page: its text, one box (or none) per character, and whether boxes are in
      pixels from the top left (OCR) or in points from the bottom left. */
  datatype Page = Page(height: real, text: string, charBoxes: seq<Option<Box>>, isOcr: bool)

  datatype Rect = Rect(x0: int, y0: int, x1: int, y1: int, lbl: string)

  // ----- Byte offsets to character offsets

  /** Exactly the byte offsets of character boundaries, each with its index. */
  ghost predicate IsByteMap(text: string, m: map<int, nat>) {
    && (forall k :: 0 <= k <= |text| ==> Width(text[..k]) in m && m[Width(text[..k])] == k)
    && (forall b :: b in m ==> m[b] <= |text| && b == Width(text[..m[b]]))
  }

  lemma BoundaryStep(text: string, k: nat)
    requires k < |text|
    ensures Width(text[..k + 1]) == Width(text[..k]) + |CharBytes(text[k])|
  {
    assert text[..k + 1] == text[..k] + [text[k]];
    WidthConcat(text[..k], [text[k]]);
    assert Encode([text[k]]) == CharBytes(text[k]) + Encode([text[k]][1..]);
  }

  lemma BoundariesDiffer(text: string, j: nat, k: nat)
    requires j < k <= |text|
    ensures Width(text[..j]) < Width(text[..k])
  {
    WidthMonotone(text, j, k);
  }

  // The map while it is being filled.
  ghost predicate PartialMap(text: string, m: map<int, nat>, n: nat)
    requires n <= |text| + 1
  {
    && (forall k :: 0 <= k < n ==> Width(text[..k]) in m && m[Width(text[..k])] == k)
    && (forall b :: b in m ==> m[b] < n && b == Width(text[..m[b]]))
  }

  lemma AddBoundary(text: string, m: map<int, nat>, n: nat)
    requires n <= |text| && PartialMap(text, m, n)
    ensures PartialMap(text, m[Width(text[..n]) := n], n + 1)
  {
    var w := Width(text[..n]);
    forall k | 0 <= k < n ensures Width(text[..k]) != w {
      BoundariesDiffer(text, k, n);
    }
  }

  method ByteToCharMap(text: string) returns (m: map<int, nat>)
    ensures IsByteMap(text, m)
  {
    m := map[];
    var running := 0;
    for i := 0 to |text|
      invariant running == Width(text[..i]) && PartialMap(text, m, i)
    {
      BoundaryStep(text, i);
      AddBoundary(text, m, i);
      m := m[running := i];
      running := running + |CharBytes(text[i])|;
    }
    AddBoundary(text, m, |text|);
    m := m[running := |text|];
  }

  lemma ByteMapExists(text: string) returns (m: map<int, nat>)
    ensures IsByteMap(text, m)
  {
    m := map[];
    for i := 0 to |text| + 1
      invariant PartialMap(text, m, i)
    {
      AddBoundary(text, m, i);
      m := m[Width(text[..i]) := i];
    }
  }

  /** The map is determined by the text. */
  lemma ByteMapUnique(text: string, m: map<int, nat>, n: map<int, nat>)
    requires IsByteMap(text, m) && IsByteMap(text, n)
    ensures m == n
  {
    forall b | b in m ensures b in n && n[b] == m[b] {
      assert Width(text[..m[b]]) in n;
    }
    forall b | b in n ensures b in m {
      assert Width(text[..n[b]]) in m;
    }
  }

  // ----- Grouping by line

  function Abs(x: real): real {
    if x < 0.0 then -x else x
  }

  function CenterY(b: Box): real {
    (b.y0 + b.y1) / 2.0
  }

  function LineHeight(b: Box): real {
    if b.y1 - b.y0 == 0.0 then 1.0 else Abs(b.y1 - b.y0)
  }

  predicate SameLine(b: Box, first: Box) {
    Abs(CenterY(b) - CenterY(first)) <= LineHeight(b) * 0.6
  }

  type Line = g: seq<Box> | g != [] witness [Box(0.0, 0.0, 0.0, 0.0)]

  /** The first line whose first box is level with `b`, or the number of lines. */
  function LineFor(lines: seq<Line>, b: Box, from: nat): (k: nat)
    requires from <= |lines|
    ensures from <= k <= |lines|
    ensures k < |lines| ==> SameLine(b, lines[k][0])
    ensures forall j :: from <= j < k ==> !SameLine(b, lines[j][0])
    decreases |lines| - from
  {
    if from == |lines| || SameLine(b, lines[from][0]) then from else LineFor(lines, b, from + 1)
  }

  function PlaceIn(lines: seq<Line>, b: Box): seq<Line> {
    var k := LineFor(lines, b, 0);
    if k < |lines| then lines[k := lines[k] + [b]] else lines + [[b]]
  }

  function Grouped(boxes: seq<Box>): seq<Line> {
    if boxes == [] then [] else PlaceIn(Grouped(boxes[..|boxes| - 1]), boxes[|boxes| - 1])
  }

  method GroupByLine(boxes: seq<Box>) returns (lines: seq<Line>)
    ensures lines == Grouped(boxes)
  {
    lines := [];
    for i := 0 to |boxes|
      invariant lines == Grouped(boxes[..i])
    {
      assert boxes[..i + 1][..i] == boxes[..i];
      var b := boxes[i];
      var k := 0;
      while k < |lines| && !SameLine(b, lines[k][0])
        invariant 0 <= k <= |lines| && LineFor(lines, b, 0) == LineFor(lines, b, k)
      {
        k := k + 1;
      }
      if k < |lines| {
        lines := lines[k := lines[k] + [b]];
      } else {
        lines := lines + [[b]];
      }
    }
    assert boxes[..|boxes|] == boxes;
  }

  ghost predicate OnSomeLine(b: Box, lines: seq<Line>) {
    exists k :: 0 <= k < |lines| && b in lines[k]
  }

  lemma PlaceKeeps(lines: seq<Line>, b: Box, c: Box)
    requires OnSomeLine(c, lines) || c == b
    ensures OnSomeLine(c, PlaceIn(lines, b))
  {
    var k := LineFor(lines, b, 0);
    var after := PlaceIn(lines, b);
    if c == b {
      assert c in after[k];
    } else {
      var j :| 0 <= j < |lines| && c in lines[j];
      assert c in after[j];
    }
  }

  /** No box is lost. */
  lemma {:induction false} EveryBoxGrouped(boxes: seq<Box>, b: Box)
    requires b in boxes
    ensures OnSomeLine(b, Grouped(boxes))
  {
    var n := |boxes| - 1;
    if b in boxes[..n] {
      EveryBoxGrouped(boxes[..n], b);
    } else {
      assert b == boxes[n];
    }
    PlaceKeeps(Grouped(boxes[..n]), boxes[n], b);
  }

  /** The centres are no further apart than 0.6 of the box's height, a flat box
      counting as one unit high. */
  predicate Level(b: Box, first: Box) {
    var gap := (b.y0 + b.y1) - (first.y0 + first.y1);
    var height := if b.y1 == b.y0 then 1.0 else if b.y1 < b.y0 then b.y0 - b.y1 else b.y1 - b.y0;
    -12.0 * height <= 10.0 * gap <= 12.0 * height
  }

  lemma SameLineIsLevel(b: Box, first: Box)
    ensures SameLine(b, first) <==> Level(b, first)
  {
  }

  lemma {:induction false} LineFrom(boxes: seq<Box>, k: nat, b: Box)
    requires k < |Grouped(boxes)| && b in Grouped(boxes)[k]
    ensures b in boxes && (b == Grouped(boxes)[k][0] || SameLine(b, Grouped(boxes)[k][0]))
    ensures forall j :: 0 <= j < k ==> !SameLine(b, Grouped(boxes)[j][0])
  {
    hide SameLine;
    var n := |boxes| - 1;
    var lines := Grouped(boxes[..n]);
    if k < |lines| && b in lines[k] {
      LineFrom(boxes[..n], k, b);
    } else {
      assert b == boxes[n];
    }
  }

  /** Everything on a line was given, is level with the line's first box or is that
      box, and is level with the first box of no earlier line. */
  lemma LinesAreLevel(boxes: seq<Box>, k: nat, b: Box)
    requires k < |Grouped(boxes)| && b in Grouped(boxes)[k]
    ensures b in boxes && (b == Grouped(boxes)[k][0] || Level(b, Grouped(boxes)[k][0]))
    ensures forall j :: 0 <= j < k ==> !Level(b, Grouped(boxes)[j][0])
  {
    hide SameLine, Level;
    LineFrom(boxes, k, b);
    SameLineIsLevel(b, Grouped(boxes)[k][0]);
    forall j | 0 <= j < k ensures !Level(b, Grouped(boxes)[j][0]) {
      SameLineIsLevel(b, Grouped(boxes)[j][0]);
    }
  }

  // ----- Bounds of a line

  function Min(a: real, b: real): real {
    if a <= b then a else b
  }

  function Max(a: real, b: real): real {
    if a <= b then b else a
  }

  function Union(a: Box, b: Box): Box {
    Box(Min(a.x0, b.x0), Min(a.y0, b.y0), Max(a.x1, b.x1), Max(a.y1, b.y1))
  }

  function Bounds(line: Line): Box {
    if |line| == 1 then line[0]
    else
      var n := |line| - 1;
      assert line[..n] != [];
      Union(Bounds(line[..n]), line[n])
  }

  predicate Within(a: Box, b: Box) {
    b.x0 <= a.x0 && b.y0 <= a.y0 && a.x1 <= b.x1 && a.y1 <= b.y1
  }

  /** The bounds hold every box of the line, and each side is some box's side. */
  lemma {:induction false} BoundsAreTight(line: Line)
    ensures forall b :: b in line ==> Within(b, Bounds(line))
    ensures exists b :: b in line && b.x0 == Bounds(line).x0
    ensures exists b :: b in line && b.y0 == Bounds(line).y0
    ensures exists b :: b in line && b.x1 == Bounds(line).x1
    ensures exists b :: b in line && b.y1 == Bounds(line).y1
  {
    var n := |line| - 1;
    if n == 0 {
      assert line[0] in line;
    } else {
      var front: Line := line[..n];
      BoundsAreTight(front);
      assert line == front + [line[n]];
      assert line[n] in line && forall b :: b in front ==> b in line;
    }
  }

  // ----- Pixels

  function Ceil(x: real): int {
    -((-x).Floor)
  }

  lemma CeilBounds(x: real)
    ensures Ceil(x) as real - 1.0 < x <= Ceil(x) as real
  {
    var f := (-x).Floor;
    assert f as real <= -x < f as real + 1.0;
  }

  function Scale(dpi: int): real {
    dpi as real / 72.0
  }

  function Scaled(x: real, s: real): real {
    x * s
  }

  function ToPixels(page: Page, b: Box, dpi: int, lbl: string): Rect {
    if page.isOcr then Rect(b.x0.Floor, b.y0.Floor, Ceil(b.x1), Ceil(b.y1), lbl)
    else
      var s := Scale(dpi);
      Rect(Scaled(b.x0, s).Floor, Scaled(page.height - b.y1, s).Floor,
           Ceil(Scaled(b.x1, s)), Ceil(Scaled(page.height - b.y0, s)), lbl)
  }

  /** The rectangle holds the whole box. On an OCR page both are in pixels; otherwise
      the box is in points from the bottom left, `dpi` pixels to 72 points, and the
      rectangle in pixels from the top left. */
  predicate Hides(page: Page, dpi: int, r: Rect, b: Box) {
    if page.isOcr then
      r.x0 as real <= b.x0 && r.y0 as real <= b.y0 && b.x1 <= r.x1 as real && b.y1 <= r.y1 as real
    else
      && 72.0 * r.x0 as real <= dpi as real * b.x0
      && 72.0 * r.y0 as real <= dpi as real * (page.height - b.y1)
      && dpi as real * b.x1 <= 72.0 * r.x1 as real
      && dpi as real * (page.height - b.y0) <= 72.0 * r.y1 as real
  }

  /** The rectangle is larger than the box by less than a pixel on each side. */
  predicate Hugs(page: Page, dpi: int, r: Rect, b: Box) {
    if page.isOcr then
      b.x0 < (r.x0 + 1) as real && b.y0 < (r.y0 + 1) as real && (r.x1 - 1) as real < b.x1 && (r.y1 - 1) as real < b.y1
    else
      && dpi as real * b.x0 < 72.0 * (r.x0 + 1) as real
      && dpi as real * (page.height - b.y1) < 72.0 * (r.y0 + 1) as real
      && 72.0 * (r.x1 - 1) as real < dpi as real * b.x1
      && 72.0 * (r.y1 - 1) as real < dpi as real * (page.height - b.y0)
  }

  lemma ScaleLaw(x: real, dpi: int)
    ensures 72.0 * Scaled(x, Scale(dpi)) == dpi as real * x
  {
    assert 72.0 * Scale(dpi) == dpi as real;
    assert 72.0 * (x * Scale(dpi)) == (72.0 * Scale(dpi)) * x;
  }

  lemma FloorBounds(x: real)
    ensures x.Floor as real <= x < (x.Floor + 1) as real
  {
  }

  /** Rounding goes outward, and by less than a pixel. */
  lemma RoundsOutward(page: Page, b: Box, dpi: int, lbl: string)
    ensures var r := ToPixels(page, b, dpi, lbl);
            r.lbl == lbl && Hides(page, dpi, r, b) && Hugs(page, dpi, r, b)
  {
    hide Scale, Scaled, Ceil;
    if page.isOcr {
      FloorBounds(b.x0);
      FloorBounds(b.y0);
      CeilBounds(b.x1);
      CeilBounds(b.y1);
    } else {
      var s := Scale(dpi);
      ScaleLaw(b.x0, dpi);
      ScaleLaw(page.height - b.y1, dpi);
      ScaleLaw(b.x1, dpi);
      ScaleLaw(page.height - b.y0, dpi);
      FloorBounds(Scaled(b.x0, s));
      FloorBounds(Scaled(page.height - b.y1, s));
      CeilBounds(Scaled(b.x1, s));
      CeilBounds(Scaled(page.height - b.y0, s));
    }
  }

  lemma TimesKeepsOrder(a: real, b: real, dpi: nat)
    requires a <= b
    ensures dpi as real * a <= dpi as real * b
  {
    assert 0.0 <= dpi as real * (b - a);
  }

  lemma HidesInner(page: Page, dpi: nat, r: Rect, a: Box, b: Box)
    requires Within(a, b) && Hides(page, dpi, r, b)
    ensures Hides(page, dpi, r, a)
  {
    if !page.isOcr {
      TimesKeepsOrder(b.x0, a.x0, dpi);
      TimesKeepsOrder(a.x1, b.x1, dpi);
      TimesKeepsOrder(page.height - b.y1, page.height - a.y1, dpi);
      TimesKeepsOrder(page.height - a.y0, page.height - b.y0, dpi);
    }
  }

  // ----- Rectangles for a range of characters

  /** The boxes of characters `cs .. ce`, where there are any. */
  function GlyphBoxes(page: Page, cs: int, ce: int): seq<Box>
    decreases ce - cs
  {
    if ce <= cs then []
    else
      GlyphBoxes(page, cs, ce - 1)
      + (if 0 <= ce - 1 < |page.charBoxes| && page.charBoxes[ce - 1].Some? then [page.charBoxes[ce - 1].value] else [])
  }

  function LineRects(page: Page, lines: seq<Line>, lbl: string, dpi: int): (rs: seq<Rect>)
    ensures |rs| == |lines| && forall k :: 0 <= k < |lines| ==> rs[k] == ToPixels(page, Bounds(lines[k]), dpi, lbl)
  {
    seq(|lines|, k requires 0 <= k < |lines| => ToPixels(page, Bounds(lines[k]), dpi, lbl))
  }

  function RectsFor(page: Page, cs: int, ce: int, lbl: string, dpi: int): seq<Rect> {
    LineRects(page, Grouped(GlyphBoxes(page, cs, ce)), lbl, dpi)
  }

  lemma NoLines()
    ensures Grouped([]) == []
  {
  }

  method EmitRects(page: Page, cs: nat, ce: int, lbl: string, dpi: int, rects: seq<Rect>) returns (out: seq<Rect>)
    ensures out == rects + RectsFor(page, cs, ce, lbl, dpi)
  {
    hide ToPixels, Bounds, LineFor, Grouped;
    var boxes: seq<Box> := [];
    var stop := if ce < |page.charBoxes| then ce else |page.charBoxes|;
    var i := cs;
    while i < stop
      invariant cs <= i && (i <= stop || i == cs)
      invariant boxes == GlyphBoxes(page, cs, i)
    {
      if page.charBoxes[i].Some? {
        boxes := boxes + [page.charBoxes[i].value];
      }
      i := i + 1;
    }
    NoGlyphsPastEnd(page, cs, i, ce);
    out := rects;
    if boxes == [] {
      NoLines();
      return;
    }
    var lines := GroupByLine(boxes);
    for k := 0 to |lines|
      invariant out == rects + LineRects(page, lines, lbl, dpi)[..k]
    {
      var b := Bounds(lines[k]);
      out := out + [ToPixels(page, b, dpi, lbl)];
    }
  }

  lemma {:induction false} NoGlyphsPastEnd(page: Page, cs: nat, i: int, ce: int)
    requires cs <= i && (i < ce ==> |page.charBoxes| <= i) && (i > ce ==> i == cs)
    ensures GlyphBoxes(page, cs, ce) == GlyphBoxes(page, cs, i)
    decreases ce - i
  {
    if i < ce {
      NoGlyphsPastEnd(page, cs, i, ce - 1);
    }
  }

  lemma {:induction false} GlyphIncluded(page: Page, cs: int, ce: int, i: nat)
    requires cs <= i < ce && i < |page.charBoxes| && page.charBoxes[i].Some?
    ensures page.charBoxes[i].value in GlyphBoxes(page, cs, ce)
    decreases ce
  {
    if i < ce - 1 {
      GlyphIncluded(page, cs, ce - 1, i);
    }
  }

  /** Every glyph box of the range lies in one of its rectangles. */
  lemma RangeIsCovered(page: Page, cs: int, ce: int, lbl: string, dpi: nat, i: nat)
    requires cs <= i < ce && i < |page.charBoxes| && page.charBoxes[i].Some?
    ensures exists r :: r in RectsFor(page, cs, ce, lbl, dpi) && r.lbl == lbl
                        && Hides(page, dpi, r, page.charBoxes[i].value)
  {
    hide ToPixels, Hides, Bounds;
    var b := page.charBoxes[i].value;
    var boxes := GlyphBoxes(page, cs, ce);
    GlyphIncluded(page, cs, ce, i);
    EveryBoxGrouped(boxes, b);
    var lines := Grouped(boxes);
    var k :| 0 <= k < |lines| && b in lines[k];
    BoundsAreTight(lines[k]);
    RoundsOutward(page, Bounds(lines[k]), dpi, lbl);
    var r := RectsFor(page, cs, ce, lbl, dpi)[k];
    HidesInner(page, dpi, r, b, Bounds(lines[k]));
    assert r.lbl == lbl && Hides(page, dpi, r, b);
  }

  lemma {:induction false} GlyphComesFrom(page: Page, cs: int, ce: int, b: Box) returns (i: nat)
    requires b in GlyphBoxes(page, cs, ce)
    ensures cs <= i < ce && i < |page.charBoxes| && page.charBoxes[i] == Some(b)
    decreases ce - cs
  {
    if b in GlyphBoxes(page, cs, ce - 1) {
      i := GlyphComesFrom(page, cs, ce - 1, b);
    } else {
      i := ce - 1;
    }
  }

  /** The box is the glyph of a character of the range. */
  ghost predicate IsGlyphOf(page: Page, cs: int, ce: int, b: Box) {
    exists i :: 0 <= i < |page.charBoxes| && cs <= i < ce && page.charBoxes[i] == Some(b)
  }

  /** The sides of four glyphs of the range, put together. */
  ghost predicate BoundedByGlyphs(page: Page, cs: int, ce: int, hull: Box) {
    && (exists b :: IsGlyphOf(page, cs, ce, b) && b.x0 == hull.x0)
    && (exists b :: IsGlyphOf(page, cs, ce, b) && b.y0 == hull.y0)
    && (exists b :: IsGlyphOf(page, cs, ce, b) && b.x1 == hull.x1)
    && (exists b :: IsGlyphOf(page, cs, ce, b) && b.y1 == hull.y1)
  }

  /** Nothing more is painted than the range's own glyphs reach to, up to a pixel. */
  lemma RectHugsGlyphs(page: Page, cs: int, ce: int, lbl: string, dpi: int, r: Rect) returns (hull: Box)
    requires r in RectsFor(page, cs, ce, lbl, dpi)
    ensures r.lbl == lbl && Hides(page, dpi, r, hull) && Hugs(page, dpi, r, hull)
    ensures BoundedByGlyphs(page, cs, ce, hull)
  {
    hide ToPixels, Hides, Hugs, Bounds;
    var boxes := GlyphBoxes(page, cs, ce);
    var lines := Grouped(boxes);
    var rects := RectsFor(page, cs, ce, lbl, dpi);
    var k :| 0 <= k < |rects| && rects[k] == r;
    hull := Bounds(lines[k]);
    RoundsOutward(page, hull, dpi, lbl);
    BoundsAreTight(lines[k]);
    forall b | b in lines[k] ensures IsGlyphOf(page, cs, ce, b) {
      LinesAreLevel(boxes, k, b);
      var i := GlyphComesFrom(page, cs, ce, b);
    }
  }
}
