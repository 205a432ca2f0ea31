/** Reversible redaction: detections carry byte offsets, each becomes a token,
    and the token map lets a vault restore the text. */
module Reversible {
  import opened Strings
  import opened Utf8
  import opened Sorting
  import opened Placeholders
  import opened RestoreOrder
  import opened Labels
  import opened Spans
  import Splice

  /** A slice with the source language's index rules: negative indices count from
      the end, everything is clamped, and a reversed range is empty. */
  function PySlice(bs: Bytes, a: int, b: int): Bytes {
    var lo := Clamp(a, |bs|);
    var hi := Clamp(b, |bs|);
    if lo <= hi then bs[lo..hi] else []
  }

  function Clamp(i: int, n: nat): nat {
    if i + n < 0 then 0 else if i < 0 then n + i else if i > n then n else i
  }

  predicate EarlierDetection(a: Detection, b: Detection) {
    a.start <= b.start
  }

  predicate EarlierSpan(a: Span, b: Span) {
    a.start <= b.start
  }

  /** Token to value; a token shared by several values keeps the last one. */
  function TokenMap(labels: seq<LabelEntry>): Entries {
    if labels == [] then map[]
    else
      var n := |labels| - 1;
      TokenMap(labels[..n])[labels[n].text := labels[n].value]
  }

  function TokenSpans(nm: Naming, labels: seq<LabelEntry>, dets: seq<Detection>): seq<Span> {
    if dets == [] then []
    else
      var n := |dets| - 1;
      var t := Lookup(labels, SurfaceKey(nm, dets[n]));
      var rest := TokenSpans(nm, labels, dets[..n]);
      if t == "" then rest else rest + [Span(dets[n].start, dets[n].end, t)]
  }

  datatype Cursor = Cursor(out: Bytes, pos: int)

  function CutNext(bs: Bytes, c: Cursor, s: Span): Cursor {
    if s.start < c.pos || s.start > |bs| || s.end > |bs| then c
    else Cursor(c.out + PySlice(bs, c.pos, s.start) + Encode(s.lbl), s.end)
  }

  /** The left-to-right pass with its cursor. */
  function Cut(bs: Bytes, spans: seq<Span>): Cursor {
    if spans == [] then Cursor([], 0)
    else
      var n := |spans| - 1;
      CutNext(bs, Cut(bs, spans[..n]), spans[n])
  }

  function CutAll(bs: Bytes, spans: seq<Span>): Bytes {
    var c := Cut(bs, spans);
    c.out + PySlice(bs, c.pos, |bs|)
  }

  function OrderedLabels(nm: Naming, dets: seq<Detection>): seq<LabelEntry> {
    LabelsOf(nm, SortBy(dets, EarlierDetection))
  }

  function OrderedSpans(nm: Naming, dets: seq<Detection>): seq<Span> {
    SortBy(TokenSpans(nm, OrderedLabels(nm, dets), dets), EarlierSpan)
  }

  /** The redacted bytes. */
  function Redacted(nm: Naming, text: string, dets: seq<Detection>): Bytes {
    if OrderedLabels(nm, dets) == [] then Encode(text) else CutAll(Encode(text), OrderedSpans(nm, dets))
  }

  lemma TokenMapSnoc(labels: seq<LabelEntry>, l: LabelEntry)
    ensures TokenMap(labels + [l]) == TokenMap(labels)[l.text := l.value]
  {
    assert (labels + [l])[..|labels|] == labels;
  }

  method RedactReversible(nm: Naming, text: string, dets: seq<Detection>)
    returns (redacted: Bytes, tokenMap: Entries)
    ensures redacted == Redacted(nm, text, dets)
    ensures tokenMap == TokenMap(OrderedLabels(nm, dets))
  {
    hide Encode, PySlice, Lookup;
    var labels := BuildLabels(nm, SortBy(dets, EarlierDetection));
    tokenMap := map[];
    for i := 0 to |labels|
      invariant tokenMap == TokenMap(labels[..i])
    {
      assert labels[..i + 1] == labels[..i] + [labels[i]];
      TokenMapSnoc(labels[..i], labels[i]);
      tokenMap := tokenMap[labels[i].text := labels[i].value];
    }
    assert labels[..|labels|] == labels;
    if labels == [] {
      return Encode(text), map[];
    }
    var bytes := Encode(text);
    var spans: seq<Span> := [];
    for i := 0 to |dets|
      invariant spans == TokenSpans(nm, labels, dets[..i])
    {
      assert dets[..i + 1][..i] == dets[..i];
      var token := Lookup(labels, SurfaceKey(nm, dets[i]));
      if token != "" {
        spans := spans + [Span(dets[i].start, dets[i].end, token)];
      }
    }
    assert dets[..|dets|] == dets;
    spans := SortBy(spans, EarlierSpan);
    redacted := [];
    var cursor := 0;
    for i := 0 to |spans|
      invariant Cursor(redacted, cursor) == Cut(bytes, spans[..i])
    {
      assert spans[..i + 1][..i] == spans[..i];
      var s := spans[i];
      if s.start < cursor || s.start > |bytes| || s.end > |bytes| {
        continue;
      }
      redacted := redacted + PySlice(bytes, cursor, s.start) + Encode(s.lbl);
      cursor := s.end;
    }
    assert spans[..|spans|] == spans;
    redacted := redacted + PySlice(bytes, cursor, |bytes|);
  }

  // ----- Spans that lie in the text

  lemma PySliceInside(bs: Bytes, a: int, b: int)
    requires 0 <= a <= b <= |bs|
    ensures PySlice(bs, a, b) == bs[a..b]
  {
  }

  lemma {:induction false} CutIsGreedy(bs: Bytes, spans: seq<Span>)
    requires AllFit(spans, |bs|)
    ensures Spaced(Greedy(spans), |bs|)
    ensures Cut(bs, spans) == Cursor(Stitched(bs, Greedy(spans), Encode), LastEnd(Greedy(spans)))
  {
    hide Encode, PySlice;
    GreedyIsSpaced(spans, |bs|);
    if spans != [] {
      var n := |spans| - 1;
      CutIsGreedy(bs, spans[..n]);
      var c := Greedy(spans[..n]);
      assert Fits(spans[n], |bs|);
      LastEndBound(c, |bs|);
      if spans[n].start >= LastEnd(c) {
        PySliceInside(bs, LastEnd(c), spans[n].start);
        assert (c + [spans[n]])[..|c|] == c;
      }
    }
  }

  lemma CutAllStitches(bs: Bytes, spans: seq<Span>)
    requires AllFit(spans, |bs|)
    ensures Spaced(Greedy(spans), |bs|) && CutAll(bs, spans) == Stitch(bs, Greedy(spans), Encode)
  {
    hide Encode, Greedy, Stitched, PySlice;
    CutIsGreedy(bs, spans);
    LastEndBound(Greedy(spans), |bs|);
    PySliceInside(bs, LastEnd(Greedy(spans)), |bs|);
  }

  lemma CutSnoc(bs: Bytes, spans: seq<Span>, s: Span)
    ensures Cut(bs, spans + [s]) == CutNext(bs, Cut(bs, spans), s)
  {
    hide Encode, PySlice;
    assert (spans + [s])[..|spans|] == spans;
  }

  /** Spans that reach outside the text are passed over. */
  lemma {:induction false} CutIgnoresOutside(bs: Bytes, spans: seq<Span>)
    requires forall i :: 0 <= i < |spans| ==> spans[i].start < spans[i].end
    ensures Cut(bs, spans) == Cut(bs, Splice.ValidSpans(spans, |bs|)) && 0 <= Cut(bs, spans).pos
  {
    hide Encode, PySlice;
    if spans != [] {
      hide Cut;
      var n := |spans| - 1;
      CutIgnoresOutside(bs, spans[..n]);
      assert spans == spans[..n] + [spans[n]];
      CutSnoc(bs, spans[..n], spans[n]);
      CutSnoc(bs, Splice.ValidSpans(spans[..n], |bs|), spans[n]);
    }
  }

  /** Some label stands for the bytes the span covers. */
  ghost predicate Stands(s: Span, bs: Bytes, labels: seq<LabelEntry>)
    requires Fits(s, |bs|)
  {
    exists i :: 0 <= i < |labels| && EntryCovers(labels[i], s, bs)
  }

  ghost predicate EntryCovers(l: LabelEntry, s: Span, bs: Bytes)
    requires Fits(s, |bs|)
  {
    l.text == s.lbl && l.value != "" && bs[s.start..s.end] == Encode(l.value)
  }

  ghost predicate AllStand(c: seq<Span>, bs: Bytes, labels: seq<LabelEntry>) {
    forall i :: 0 <= i < |c| ==> Fits(c[i], |bs|) && Stands(c[i], bs, labels)
  }

  /** Every token in the pieces is the label of the surface it replaced. */
  ghost predicate FromLabels(ps: seq<Piece>, labels: seq<LabelEntry>) {
    forall i :: 0 <= i < |ps| && ps[i].Tok? ==> IsLabel(ps[i].token, ps[i].surface, labels)
  }

  ghost predicate IsLabel(token: string, surface: string, labels: seq<LabelEntry>) {
    exists i :: 0 <= i < |labels| && labels[i].text == token && labels[i].value == surface
  }

  ghost predicate PlaceholderLabels(labels: seq<LabelEntry>) {
    forall i :: 0 <= i < |labels| ==> IsPlaceholder(labels[i].text)
  }

  lemma {:induction false} RenderSnoc(ps: seq<Piece>, p: Piece)
    ensures Render(ps + [p]) == Render(ps) + Shown(p)
  {
    hide Shown;
    if ps == [] {
      assert ps + [p] == [p] && [p][1..] == [];
      assert Render([p]) == Shown(p) + Render([]);
    } else {
      RenderSnoc(ps[1..], p);
      assert (ps + [p])[1..] == ps[1..] + [p];
      assert Render(ps + [p]) == Shown(ps[0]) + (Render(ps[1..]) + Shown(p));
    }
  }

  lemma {:induction false} OriginalSnoc(ps: seq<Piece>, p: Piece)
    ensures Original(ps + [p]) == Original(ps) + Stood(p)
  {
    hide Stood;
    if ps == [] {
      assert ps + [p] == [p] && [p][1..] == [];
      assert Original([p]) == Stood(p) + Original([]);
    } else {
      OriginalSnoc(ps[1..], p);
      assert (ps + [p])[1..] == ps[1..] + [p];
      assert Original(ps + [p]) == Stood(ps[0]) + (Original(ps[1..]) + Stood(p));
    }
  }

  lemma AddLiteral(ps: seq<Piece>, t: string, labels: seq<LabelEntry>) returns (qs: seq<Piece>)
    requires Clean(ps) && FromLabels(ps, labels) && BraceFree(t)
    ensures Clean(qs) && FromLabels(qs, labels)
    ensures Render(qs) == Render(ps) + t && Original(qs) == Original(ps) + t
  {
    qs := ps + [Lit(t)];
    RenderSnoc(ps, Lit(t));
    OriginalSnoc(ps, Lit(t));
  }

  lemma AddToken(ps: seq<Piece>, token: string, v: string, labels: seq<LabelEntry>) returns (qs: seq<Piece>)
    requires Clean(ps) && FromLabels(ps, labels) && IsPlaceholder(token) && IsLabel(token, v, labels)
    ensures Clean(qs) && FromLabels(qs, labels)
    ensures Render(qs) == Render(ps) + token && Original(qs) == Original(ps) + v
  {
    qs := ps + [Tok(token, v)];
    RenderSnoc(ps, Tok(token, v));
    OriginalSnoc(ps, Tok(token, v));
  }

  lemma MiddleOf(text: string, front: string, a: string, b: string, c: string)
    requires front == a + b && text == front + c
    ensures Width(a) <= Width(front) <= Width(text)
    ensures Encode(text)[Width(a)..Width(front)] == Encode(b)
    ensures Encode(text)[Width(front)..] == Encode(c)
  {
    hide Encode;
    EncodeConcat(a, b);
    EncodeConcat(front, c);
    var x, y, z := Encode(a), Encode(b), Encode(c);
    assert (x + y + z)[|x|..|x + y|] == y && (x + y + z)[|x + y|..] == z;
  }

  // The characters between two byte offsets that are character boundaries.
  lemma BytesBetween(text: string, k: nat, l: nat)
    requires k <= l <= |text|
    ensures Width(text[..k]) <= Width(text[..l]) <= Width(text)
    ensures Encode(text)[Width(text[..k])..Width(text[..l])] == Encode(text[k..l])
    ensures Encode(text)[Width(text[..l])..] == Encode(text[l..])
  {
    hide Encode;
    MiddleOf(text, text[..l], text[..k], text[k..l], text[l..]);
  }

  lemma OffsetsAgree(text: string, k: nat, l: nat)
    requires k <= |text| && l <= |text| && Width(text[..k]) <= Width(text[..l])
    ensures k <= l
  {
    if l < k {
      WidthMonotone(text, l, k);
    }
  }

  lemma BraceFreeSlice(text: string, k: nat, l: nat)
    requires BraceFree(text) && k <= l <= |text|
    ensures BraceFree(text[k..l])
  {
    assert forall i :: 0 <= i < l - k ==> text[k..l][i] == text[k + i];
  }

  lemma PieceStep(text: string, labels: seq<LabelEntry>, qs: seq<Piece>, j: nat, b: nat, e: nat, token: string)
    returns (ps: seq<Piece>)
    requires BraceFree(text) && Clean(qs) && FromLabels(qs, labels)
    requires j <= b <= e <= |text| && Original(qs) == text[..j]
    requires IsPlaceholder(token) && IsLabel(token, text[b..e], labels)
    ensures Clean(ps) && FromLabels(ps, labels)
    ensures Original(ps) == text[..e]
    ensures Encode(Render(ps)) == Encode(Render(qs)) + Encode(text[j..b]) + Encode(token)
  {
    hide Encode, Render, Original;
    BraceFreeSlice(text, j, b);
    var rs := AddLiteral(qs, text[j..b], labels);
    ps := AddToken(rs, token, text[b..e], labels);
    assert text[..e] == text[..j] + text[j..b] + text[b..e];
    EncodeConcat(Render(qs), text[j..b]);
    EncodeConcat(Render(rs), token);
  }

  // The label and the characters behind a span that some label stands for.
  lemma SpanIsText(text: string, s: Span, labels: seq<LabelEntry>) returns (b: nat, e: nat)
    requires PlaceholderLabels(labels) && Fits(s, Width(text)) && Stands(s, Encode(text), labels)
    ensures b < e <= |text| && Width(text[..b]) == s.start && Width(text[..e]) == s.end
    ensures IsPlaceholder(s.lbl) && IsLabel(s.lbl, text[b..e], labels)
  {
    var i :| 0 <= i < |labels| && EntryCovers(labels[i], s, Encode(text));
    b, e := SliceIsText(text, s.start, s.end, labels[i].value);
  }

  /** The chosen spans cut the text into clean pieces. */
  lemma {:induction false} PiecesOf(text: string, c: seq<Span>, labels: seq<LabelEntry>)
    returns (ps: seq<Piece>, k: nat)
    requires BraceFree(text) && Spaced(c, Width(text))
    requires PlaceholderLabels(labels) && AllStand(c, Encode(text), labels)
    ensures Clean(ps) && FromLabels(ps, labels)
    ensures k <= |text| && Width(text[..k]) == LastEnd(c)
    ensures Original(ps) == text[..k]
    ensures Stitched(Encode(text), c, Encode) == Encode(Render(ps))
  {
    if c == [] {
      ps, k := [], 0;
    } else {
      hide Encode, Render, Original;
      var n := |c| - 1;
      var qs, j := PiecesOf(text, c[..n], labels);
      var s := c[n];
      var b, e := SpanIsText(text, s, labels);
      LastEndSpaced(c, Width(text));
      OffsetsAgree(text, j, b);
      BytesBetween(text, j, b);
      ps := PieceStep(text, labels, qs, j, b, e, s.lbl);
      k := e;
    }
  }

  lemma LastPiece(text: string, labels: seq<LabelEntry>, qs: seq<Piece>, k: nat) returns (ps: seq<Piece>)
    requires BraceFree(text) && Clean(qs) && FromLabels(qs, labels)
    requires k <= |text| && Original(qs) == text[..k]
    ensures Clean(ps) && FromLabels(ps, labels)
    ensures Original(ps) == text
    ensures Encode(Render(ps)) == Encode(Render(qs)) + Encode(text[k..])
  {
    hide Encode, Render, Original;
    BraceFreeSlice(text, k, |text|);
    ps := AddLiteral(qs, text[k..], labels);
    assert text == text[..k] + text[k..];
    EncodeConcat(Render(qs), text[k..]);
  }

  lemma FinishPieces(text: string, c: seq<Span>, labels: seq<LabelEntry>) returns (ps: seq<Piece>)
    requires BraceFree(text) && Spaced(c, Width(text))
    requires PlaceholderLabels(labels) && AllStand(c, Encode(text), labels)
    ensures Clean(ps) && FromLabels(ps, labels)
    ensures Original(ps) == text
    ensures Stitch(Encode(text), c, Encode) == Encode(Render(ps))
  {
    var qs, k := PiecesOf(text, c, labels);
    BytesBetween(text, k, k);
    ps := LastPiece(text, labels, qs, k);
  }

  // ----- From detections to spans

  /** The detection's byte range holds exactly its text. */
  predicate Faithful(d: Detection, bs: Bytes) {
    0 <= d.start <= d.end <= |bs| && bs[d.start..d.end] == Encode(d.text)
  }

  ghost predicate AllFaithful(dets: seq<Detection>, bs: Bytes) {
    forall i :: 0 <= i < |dets| && dets[i].text != "" ==> Faithful(dets[i], bs)
  }

  lemma {:induction false} LookupFinds(labels: seq<LabelEntry>, k: Key2)
    requires Lookup(labels, k) != ""
    ensures IsLabel(Lookup(labels, k), k.1, labels)
  {
    if (labels[0].typ, labels[0].value) != k {
      LookupFinds(labels[1..], k);
      var i :| 0 <= i < |labels[1..]| && labels[1..][i].text == Lookup(labels, k) && labels[1..][i].value == k.1;
      assert labels[i + 1] == labels[1..][i];
    }
  }

  lemma NoEmptyValue(nm: Naming, dets: seq<Detection>, i: nat)
    requires i < |LabelsOf(nm, dets)|
    ensures LabelsOf(nm, dets)[i].value != ""
  {
    SurfaceKeysCover(nm, dets);
    assert SurfaceKeys(nm, dets)[i] in SurfaceKeys(nm, dets);
  }

  lemma FaithfulStands(nm: Naming, labels: seq<LabelEntry>, d: Detection, bs: Bytes)
    requires forall i :: 0 <= i < |labels| ==> labels[i].value != ""
    requires Lookup(labels, SurfaceKey(nm, d)) != "" && (d.text != "" ==> Faithful(d, bs))
    ensures var s := Span(d.start, d.end, Lookup(labels, SurfaceKey(nm, d)));
            Fits(s, |bs|) && Stands(s, bs, labels)
  {
    var s := Span(d.start, d.end, Lookup(labels, SurfaceKey(nm, d)));
    LookupFinds(labels, SurfaceKey(nm, d));
    var i :| 0 <= i < |labels| && labels[i].text == s.lbl && labels[i].value == d.text;
    assert bs[s.start..s.end] == Encode(d.text);
    assert |bs[s.start..s.end]| >= 1;
    assert EntryCovers(labels[i], s, bs);
  }

  lemma {:induction false} SpansStand(nm: Naming, labels: seq<LabelEntry>, dets: seq<Detection>, bs: Bytes)
    requires forall i :: 0 <= i < |labels| ==> labels[i].value != ""
    requires AllFaithful(dets, bs)
    ensures AllStand(TokenSpans(nm, labels, dets), bs, labels)
  {
    hide Encode, Stands;
    if dets != [] {
      var n := |dets| - 1;
      SpansStand(nm, labels, dets[..n], bs);
      if Lookup(labels, SurfaceKey(nm, dets[n])) != "" {
        FaithfulStands(nm, labels, dets[n], bs);
      }
    }
  }

  lemma StandMembers(spans: seq<Span>, sub: seq<Span>, bs: Bytes, labels: seq<LabelEntry>)
    requires AllStand(spans, bs, labels) && forall s :: s in sub ==> s in spans
    ensures AllStand(sub, bs, labels)
  {
    forall i | 0 <= i < |sub| ensures Fits(sub[i], |bs|) && Stands(sub[i], bs, labels) {
      assert sub[i] in spans;
    }
  }

  lemma LabelsArePlaceholders(nm: Naming, dets: seq<Detection>)
    requires forall i :: 0 <= i < |dets| ==> BraceFree(nm.title(nm.upper(dets[i].entityType)))
    ensures PlaceholderLabels(LabelsOf(nm, dets))
  {
    var ks := SurfaceKeys(nm, dets);
    SurfaceKeysCover(nm, dets);
    forall i | 0 <= i < |ks| ensures IsPlaceholder(LabelsOf(nm, dets)[i].text) {
      assert ks[i] in ks;
      var d :| d in dets && d.text != "" && SurfaceKey(nm, d) == ks[i];
      LabelIsPlaceholder(nm.title(ks[i].0), Rank(CanonKeys(nm, ks), CanonKey(nm, ks[i])));
    }
  }

  // ----- The token map

  lemma {:induction false} TokenMapHolds(labels: seq<LabelEntry>, t: string)
    requires t in TokenMap(labels)
    ensures IsLabel(t, TokenMap(labels)[t], labels)
  {
    var n := |labels| - 1;
    if t != labels[n].text {
      var front := labels[..n];
      TokenMapHolds(front, t);
      var i :| 0 <= i < |front| && front[i].text == t && front[i].value == TokenMap(front)[t];
      assert labels[i] == front[i];
    }
  }

  /** A token shared by several surface values keeps the last of them. */
  lemma {:induction false} TokenMapKeepsLast(labels: seq<LabelEntry>, i: nat)
    requires i < |labels| && forall j :: i < j < |labels| ==> labels[j].text != labels[i].text
    ensures labels[i].text in TokenMap(labels) && TokenMap(labels)[labels[i].text] == labels[i].value
  {
    var n := |labels| - 1;
    if i < n {
      assert labels[..n][i] == labels[i];
      TokenMapKeepsLast(labels[..n], i);
    }
  }

  lemma {:induction false} TokenMapHasAll(labels: seq<LabelEntry>, i: nat)
    requires i < |labels|
    ensures labels[i].text in TokenMap(labels)
  {
    var n := |labels| - 1;
    if i < n {
      assert labels[..n][i] == labels[i];
      TokenMapHasAll(labels[..n], i);
    }
  }

  /** Each label stands for one surface value. */
  ghost predicate OneSurface(labels: seq<LabelEntry>) {
    forall i, j :: 0 <= i < |labels| && 0 <= j < |labels| && labels[i].text == labels[j].text ==>
      labels[i].value == labels[j].value
  }

  lemma MapGivesSurface(labels: seq<LabelEntry>, token: string, surface: string)
    requires OneSurface(labels) && IsLabel(token, surface, labels)
    ensures token in TokenMap(labels) && TokenMap(labels)[token] == surface
  {
    var i :| 0 <= i < |labels| && labels[i].text == token && labels[i].value == surface;
    TokenMapHasAll(labels, i);
    TokenMapHolds(labels, token);
  }

  lemma {:induction false} FilledIsOriginal(ps: seq<Piece>, labels: seq<LabelEntry>)
    requires FromLabels(ps, labels) && OneSurface(labels)
    ensures Filled(ps, TokenMap(labels)) == Original(ps)
  {
    if ps != [] {
      FilledIsOriginal(ps[1..], labels);
      if ps[0].Tok? {
        MapGivesSurface(labels, ps[0].token, ps[0].surface);
      }
    }
  }

  // ----- Redact, then restore

  ghost predicate BraceFreeTitles(nm: Naming, dets: seq<Detection>) {
    forall i :: 0 <= i < |dets| ==> BraceFree(nm.title(nm.upper(dets[i].entityType)))
  }

  lemma SortedTitles(nm: Naming, dets: seq<Detection>)
    requires BraceFreeTitles(nm, dets)
    ensures BraceFreeTitles(nm, SortBy(dets, EarlierDetection))
  {
    SortMembers(dets, EarlierDetection);
    var sorted := SortBy(dets, EarlierDetection);
    forall i | 0 <= i < |sorted| ensures BraceFree(nm.title(nm.upper(sorted[i].entityType))) {
      assert sorted[i] in dets;
    }
  }

  lemma NoEmptyLabels(nm: Naming, dets: seq<Detection>)
    ensures forall i :: 0 <= i < |OrderedLabels(nm, dets)| ==> OrderedLabels(nm, dets)[i].value != ""
  {
    var sorted := SortBy(dets, EarlierDetection);
    forall i | 0 <= i < |LabelsOf(nm, sorted)| ensures LabelsOf(nm, sorted)[i].value != "" {
      NoEmptyValue(nm, sorted, i);
    }
  }

  lemma OrderedSpansStand(nm: Naming, dets: seq<Detection>, bs: Bytes)
    requires AllFaithful(dets, bs)
    ensures AllStand(OrderedSpans(nm, dets), bs, OrderedLabels(nm, dets))
    ensures AllFit(OrderedSpans(nm, dets), |bs|)
  {
    var labels := OrderedLabels(nm, dets);
    var spans := TokenSpans(nm, labels, dets);
    NoEmptyLabels(nm, dets);
    SpansStand(nm, labels, dets, bs);
    SortMembers(spans, EarlierSpan);
    StandMembers(spans, OrderedSpans(nm, dets), bs, labels);
  }

  // What the pass produces, as the chosen spans stitched into the text.
  lemma RedactedStitches(nm: Naming, text: string, dets: seq<Detection>)
    requires AllFaithful(dets, Encode(text)) && OrderedLabels(nm, dets) != []
    ensures var c := Greedy(OrderedSpans(nm, dets));
            && Spaced(c, Width(text)) && AllStand(c, Encode(text), OrderedLabels(nm, dets))
            && Redacted(nm, text, dets) == Stitch(Encode(text), c, Encode)
  {
    var bs := Encode(text);
    var spans := OrderedSpans(nm, dets);
    OrderedSpansStand(nm, dets, bs);
    CutAllStitches(bs, spans);
    GreedyIsSpaced(spans, |bs|);
    StandMembers(spans, Greedy(spans), bs, OrderedLabels(nm, dets));
  }

  /** On brace-free text, redaction writes out clean pieces of that text. */
  lemma RedactionCutsPieces(nm: Naming, text: string, dets: seq<Detection>) returns (ps: seq<Piece>)
    requires BraceFree(text) && BraceFreeTitles(nm, dets) && AllFaithful(dets, Encode(text))
    ensures Clean(ps) && FromLabels(ps, OrderedLabels(nm, dets))
    ensures Original(ps) == text
    ensures Redacted(nm, text, dets) == Encode(Render(ps))
  {
    var labels := OrderedLabels(nm, dets);
    if labels == [] {
      ps := LastPiece(text, labels, [], 0);
      assert text[0..] == text;
    } else {
      SortedTitles(nm, dets);
      LabelsArePlaceholders(nm, SortBy(dets, EarlierDetection));
      RedactedStitches(nm, text, dets);
      ps := FinishPieces(text, Greedy(OrderedSpans(nm, dets)), labels);
    }
  }

  // Every value the token map can hold is brace-free.
  lemma LabelValuesBraceFree(nm: Naming, text: string, dets: seq<Detection>, i: nat)
    requires BraceFree(text) && AllFaithful(dets, Encode(text)) && i < |OrderedLabels(nm, dets)|
    ensures BraceFree(OrderedLabels(nm, dets)[i].value)
  {
    var sorted := SortBy(dets, EarlierDetection);
    var ks := SurfaceKeys(nm, sorted);
    SurfaceKeysCover(nm, sorted);
    assert ks[i] in ks;
    var d :| d in sorted && d.text != "" && SurfaceKey(nm, d) == ks[i];
    SortMembers(dets, EarlierDetection);
    assert Faithful(d, Encode(text));
    var k, l := SliceIsText(text, d.start, d.end, d.text);
    BraceFreeSlice(text, k, l);
  }

  lemma TokenMapWellFormed(nm: Naming, text: string, dets: seq<Detection>)
    requires BraceFree(text) && BraceFreeTitles(nm, dets) && AllFaithful(dets, Encode(text))
    ensures WellFormed(TokenMap(OrderedLabels(nm, dets)))
  {
    var labels := OrderedLabels(nm, dets);
    var m := TokenMap(labels);
    SortedTitles(nm, dets);
    LabelsArePlaceholders(nm, SortBy(dets, EarlierDetection));
    forall t | t in m ensures IsPlaceholder(t) && BraceFree(m[t]) {
      TokenMapHolds(labels, t);
      var i :| 0 <= i < |labels| && labels[i].text == t && labels[i].value == m[t];
      LabelValuesBraceFree(nm, text, dets, i);
    }
  }

  /** Restoring the redacted text, in any order of the token map, fills every
      spliced token with the map's value for it; that is the original text when
      each label has one surface value. */
  lemma RedactThenRestore(nm: Naming, text: string, dets: seq<Detection>, order: seq<string>)
    returns (redacted: string, ps: seq<Piece>)
    requires BraceFree(text) && BraceFreeTitles(nm, dets) && AllFaithful(dets, Encode(text))
    requires IsOrder(order, TokenMap(OrderedLabels(nm, dets)))
    ensures Redacted(nm, text, dets) == Encode(redacted)
    ensures Clean(ps) && FromLabels(ps, OrderedLabels(nm, dets)) && redacted == Render(ps) && Original(ps) == text
    ensures RestoreInOrder(redacted, order, TokenMap(OrderedLabels(nm, dets)))
            == Filled(ps, TokenMap(OrderedLabels(nm, dets)))
    ensures OneSurface(OrderedLabels(nm, dets)) ==>
              RestoreInOrder(redacted, order, TokenMap(OrderedLabels(nm, dets))) == text
  {
    var labels := OrderedLabels(nm, dets);
    ps := RedactionCutsPieces(nm, text, dets);
    redacted := Render(ps);
    TokenMapWellFormed(nm, text, dets);
    RestoreFillsPieces(ps, order, TokenMap(labels));
    if OneSurface(labels) {
      FilledIsOriginal(ps, labels);
    }
  }

  lemma {:induction false} SpanOf(nm: Naming, labels: seq<LabelEntry>, dets: seq<Detection>, i: nat)
    requires i < |dets| && Lookup(labels, SurfaceKey(nm, dets[i])) != ""
    ensures Span(dets[i].start, dets[i].end, Lookup(labels, SurfaceKey(nm, dets[i]))) in TokenSpans(nm, labels, dets)
  {
    var n := |dets| - 1;
    if i < n {
      assert dets[..n][i] == dets[i];
      SpanOf(nm, labels, dets[..n], i);
    }
  }

  lemma {:induction false} LookupTotal(labels: seq<LabelEntry>, k: Key2)
    requires HasKey(labels, k) && forall i :: 0 <= i < |labels| ==> labels[i].text != ""
    ensures Lookup(labels, k) != ""
  {
    var i :| 0 <= i < |labels| && (labels[i].typ, labels[i].value) == k;
    if i > 0 {
      assert labels[1..][i - 1] == labels[i];
      LookupTotal(labels[1..], k);
    }
  }

  lemma DetectionHasLabel(nm: Naming, dets: seq<Detection>, i: nat)
    requires i < |dets| && dets[i].text != ""
    ensures Lookup(OrderedLabels(nm, dets), SurfaceKey(nm, dets[i])) != ""
  {
    var sorted := SortBy(dets, EarlierDetection);
    SortMembers(dets, EarlierDetection);
    SurfaceKeysCover(nm, sorted);
    assert dets[i] in sorted;
    HasKeyIffSurface(nm, sorted, SurfaceKey(nm, dets[i]));
    LookupTotal(OrderedLabels(nm, dets), SurfaceKey(nm, dets[i]));
  }

  /** Every detection with a text covers something, in or outside the encoded text;
      its text need not be what the bytes say. */
  ghost predicate Forward(dets: seq<Detection>) {
    forall i :: 0 <= i < |dets| && dets[i].text != "" ==> dets[i].start < dets[i].end
  }

  lemma LabelledHasText(nm: Naming, labels: seq<LabelEntry>, d: Detection)
    requires forall i :: 0 <= i < |labels| ==> labels[i].value != ""
    requires Lookup(labels, SurfaceKey(nm, d)) != ""
    ensures d.text != ""
  {
    LookupFinds(labels, SurfaceKey(nm, d));
  }

  /** The spans that lie in the text, in the order of the pass. */
  function SpansInText(nm: Naming, text: string, dets: seq<Detection>): seq<Span> {
    Splice.ValidSpans(OrderedSpans(nm, dets), Width(text))
  }

  lemma {:induction false} ValidKeepsOrder(spans: seq<Span>, n: nat)
    requires ByStart(spans)
    ensures ByStart(Splice.ValidSpans(spans, n))
  {
    if spans != [] {
      var k := |spans| - 1;
      ValidKeepsOrder(spans[..k], n);
      Splice.ValidMembers(spans[..k], n);
      var rest := Splice.ValidSpans(spans[..k], n);
      forall i | 0 <= i < |rest| ensures rest[i].start <= spans[k].start {
        assert rest[i] in spans[..k];
      }
    }
  }

  lemma SpansInTextFit(nm: Naming, text: string, dets: seq<Detection>)
    ensures AllFit(SpansInText(nm, text, dets), Width(text)) && ByStart(SpansInText(nm, text, dets))
    ensures forall s :: s in SpansInText(nm, text, dets) <==> s in OrderedSpans(nm, dets) && Fits(s, Width(text))
  {
    hide TokenSpans, OrderedLabels;
    SortOrders(TokenSpans(nm, OrderedLabels(nm, dets), dets), EarlierSpan);
    Splice.ValidMembers(OrderedSpans(nm, dets), Width(text));
    ValidKeepsOrder(OrderedSpans(nm, dets), Width(text));
  }

  lemma SpansAreForward(nm: Naming, dets: seq<Detection>)
    requires Forward(dets)
    ensures forall i :: 0 <= i < |OrderedSpans(nm, dets)| ==>
              OrderedSpans(nm, dets)[i].start < OrderedSpans(nm, dets)[i].end
  {
    hide OrderedSpans;
    forall i | 0 <= i < |OrderedSpans(nm, dets)|
      ensures OrderedSpans(nm, dets)[i].start < OrderedSpans(nm, dets)[i].end
    {
      var k := ListedSpanIsDetection(nm, dets, OrderedSpans(nm, dets)[i]);
    }
  }

  /** The span a detection becomes. */
  function DetectionSpan(nm: Naming, dets: seq<Detection>, i: nat): Span
    requires i < |dets|
  {
    Span(dets[i].start, dets[i].end, Lookup(OrderedLabels(nm, dets), SurfaceKey(nm, dets[i])))
  }

  lemma DetectionSpanListed(nm: Naming, dets: seq<Detection>, i: nat)
    requires i < |dets| && dets[i].text != ""
    ensures DetectionSpan(nm, dets, i) in OrderedSpans(nm, dets)
  {
    var labels := OrderedLabels(nm, dets);
    DetectionHasLabel(nm, dets, i);
    SpanOf(nm, labels, dets, i);
    SortMembers(TokenSpans(nm, labels, dets), EarlierSpan);
  }

  lemma {:induction false} SpanComesFrom(nm: Naming, labels: seq<LabelEntry>, dets: seq<Detection>, s: Span)
    returns (i: nat)
    requires s in TokenSpans(nm, labels, dets)
    ensures i < |dets| && Lookup(labels, SurfaceKey(nm, dets[i])) != ""
    ensures s == Span(dets[i].start, dets[i].end, Lookup(labels, SurfaceKey(nm, dets[i])))
  {
    var n := |dets| - 1;
    if s in TokenSpans(nm, labels, dets[..n]) {
      i := SpanComesFrom(nm, labels, dets[..n], s);
    } else {
      i := n;
    }
  }

  lemma ListedSpanIsDetection(nm: Naming, dets: seq<Detection>, s: Span) returns (i: nat)
    requires s in OrderedSpans(nm, dets)
    ensures i < |dets| && dets[i].text != "" && s == DetectionSpan(nm, dets, i)
  {
    var labels := OrderedLabels(nm, dets);
    SortMembers(TokenSpans(nm, labels, dets), EarlierSpan);
    i := SpanComesFrom(nm, labels, dets, s);
    NoEmptyLabels(nm, dets);
    LabelledHasText(nm, labels, dets[i]);
  }

  // What the pass produces, as the chosen spans of those in the text.
  lemma RedactedIsStitched(nm: Naming, text: string, dets: seq<Detection>)
    requires Forward(dets) && OrderedLabels(nm, dets) != []
    ensures Spaced(Greedy(SpansInText(nm, text, dets)), Width(text))
    ensures Redacted(nm, text, dets) == Stitch(Encode(text), Greedy(SpansInText(nm, text, dets)), Encode)
  {
    hide Encode, OrderedSpans, Greedy, Stitch, Cut, PySlice, Splice.ValidSpans;
    SpansAreForward(nm, dets);
    SpansInTextFit(nm, text, dets);
    CutIgnoresOutside(Encode(text), OrderedSpans(nm, dets));
    CutAllStitches(Encode(text), SpansInText(nm, text, dets));
  }

  /** Nothing detected in the text is left where it starts: the first byte of every
      such detection lies in a range that a token replaced, also when its text is a
      cleaned form of what its bytes hold, and whatever detections reach outside. When
      any two spans in the text that overlap have a head, the whole detection lies in
      one such range. */
  lemma EveryDetectionIsHit(nm: Naming, text: string, dets: seq<Detection>, i: nat)
    requires Forward(dets) && i < |dets| && dets[i].text != "" && 0 <= dets[i].start && dets[i].end <= Width(text)
    ensures Spaced(Greedy(SpansInText(nm, text, dets)), Width(text))
    ensures Redacted(nm, text, dets) == Stitch(Encode(text), Greedy(SpansInText(nm, text, dets)), Encode)
    ensures Inside(dets[i].start, Greedy(SpansInText(nm, text, dets)))
    ensures Headed(SpansInText(nm, text, dets)) ==>
              Whole(DetectionSpan(nm, dets, i), Greedy(SpansInText(nm, text, dets)))
  {
    hide Encode, OrderedSpans, Redacted;
    DetectionHasLabel(nm, dets, i);
    assert OrderedLabels(nm, dets) != [];
    RedactedIsStitched(nm, text, dets);
    SpansInTextFit(nm, text, dets);
    DetectionSpanListed(nm, dets, i);
    StartIsInside(SpansInText(nm, text, dets), Width(text), DetectionSpan(nm, dets, i));
    AllWholeIffHeaded(SpansInText(nm, text, dets), Width(text));
  }

  /** Every detection in the text is replaced whole, in one piece, exactly when any
      two of the spans in the text that overlap have a head. */
  lemma AllDetectionsWholeIffHeaded(nm: Naming, text: string, dets: seq<Detection>)
    requires Forward(dets)
    ensures (forall i :: 0 <= i < |dets| && dets[i].text != "" && 0 <= dets[i].start && dets[i].end <= Width(text) ==>
               Whole(DetectionSpan(nm, dets, i), Greedy(SpansInText(nm, text, dets))))
            <==> Headed(SpansInText(nm, text, dets))
  {
    hide OrderedSpans, Width, SpansInText;
    var spans, n := SpansInText(nm, text, dets), Width(text);
    SpansInTextFit(nm, text, dets);
    AllWholeIffHeaded(spans, n);
    if forall i :: 0 <= i < |dets| && dets[i].text != "" && 0 <= dets[i].start && dets[i].end <= n ==>
         Whole(DetectionSpan(nm, dets, i), Greedy(spans))
    {
      forall s | s in spans ensures Whole(s, Greedy(spans)) {
        var i := ListedSpanIsDetection(nm, dets, s);
      }
    }
    if Headed(spans) {
      forall i | 0 <= i < |dets| && dets[i].text != "" && 0 <= dets[i].start && dets[i].end <= n
        ensures Whole(DetectionSpan(nm, dets, i), Greedy(spans))
      {
        DetectionSpanListed(nm, dets, i);
      }
    }
  }

  /** The bytes of a later span behind an earlier, overlapping one stay in the
      output; on equal starts the one listed first wins, also when it is shorter. */
  lemma LaterTailStays(bs: Bytes, a: Span, b: Span)
    requires Fits(a, |bs|) && Fits(b, |bs|) && a.start <= b.start < a.end < b.end
    ensures CutAll(bs, [a, b]) == bs[..a.start] + Encode(a.lbl) + bs[a.end..]
  {
    hide Encode, CutAll, Greedy;
    PairTaken(a, b);
    CutAllStitches(bs, [a, b]);
    var c := [a];
    assert c[..0] == [];
    assert Stitched(bs, c, Encode) == Stitched(bs, [], Encode) + bs[0..a.start] + Encode(a.lbl);
    assert bs[0..a.start] == bs[..a.start];
  }
}
