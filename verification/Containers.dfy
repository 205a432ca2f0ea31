/** Text containers (paragraphs, cells) joined for detection, and the detected
    spans taken back to the containers they lie in. */
module Containers {
  import opened Wrappers
  import opened Utf8
  import opened Labels
  import opened Spans
  import opened Splice
  import opened Pages
  import opened Boxes

  const NEWLINE := "\n"

  /** The character offset of container `i` in the joined text. */
  function StartOf(texts: seq<string>, i: nat): nat
    requires i < |texts|
  {
    |Before(texts, NEWLINE, i)|
  }

  lemma NextStart(texts: seq<string>, i: nat)
    requires i + 1 < |texts|
    ensures StartOf(texts, i + 1) == StartOf(texts, i) + |texts[i]| + 1
  {
    JoinedStep(texts, NEWLINE, i);
  }

  predicate Fills(texts: seq<string>, i: nat, cs: int, ce: int)
    requires i < |texts|
  {
    StartOf(texts, i) <= cs && ce <= StartOf(texts, i) + |texts[i]|
  }

  /** The first container that holds the range, or their number. */
  function Owner(texts: seq<string>, cs: int, ce: int, from: nat): (i: nat)
    requires from <= |texts|
    ensures from <= i <= |texts|
    ensures i < |texts| ==> Fills(texts, i, cs, ce)
    ensures forall j :: from <= j < i ==> !Fills(texts, j, cs, ce)
    decreases |texts| - from
  {
    if from == |texts| || Fills(texts, from, cs, ce) then from else Owner(texts, cs, ce, from + 1)
  }

  // The detection's span in container `i`, if it goes there.
  function SpanIn(texts: seq<string>, b2c: map<int, nat>, upper: string -> string, labels: seq<LabelEntry>,
                  d: Detection, i: nat): Option<Span>
    requires i < |texts|
  {
    if d.start !in b2c || d.end !in b2c || b2c[d.start] >= b2c[d.end] then None
    else
      var lbl := Lookup(labels, (upper(d.entityType), d.text));
      if lbl == "" || Owner(texts, b2c[d.start], b2c[d.end], 0) != i then None
      else Some(Span(b2c[d.start] - StartOf(texts, i), b2c[d.end] - StartOf(texts, i), lbl))
  }

  function SpansIn(texts: seq<string>, b2c: map<int, nat>, upper: string -> string, labels: seq<LabelEntry>,
                   dets: seq<Detection>, i: nat): seq<Span>
    requires i < |texts|
  {
    if dets == [] then []
    else
      var n := |dets| - 1;
      var rest := SpansIn(texts, b2c, upper, labels, dets[..n], i);
      match SpanIn(texts, b2c, upper, labels, dets[n], i)
      case None => rest
      case Some(s) => rest + [s]
  }

  ghost predicate AllSpansIn(texts: seq<string>, b2c: map<int, nat>, upper: string -> string, labels: seq<LabelEntry>,
                             dets: seq<Detection>, per: seq<seq<Span>>) {
    |per| == |texts| && forall i :: 0 <= i < |texts| ==> per[i] == SpansIn(texts, b2c, upper, labels, dets, i)
  }

  method ContainerRanges(texts: seq<string>) returns (ranges: seq<(int, int)>)
    ensures |ranges| == |texts|
    ensures forall i :: 0 <= i < |texts| ==> ranges[i] == (StartOf(texts, i), StartOf(texts, i) + |texts[i]|)
  {
    ranges := [];
    var pos := 0;
    for i := 0 to |texts|
      invariant |ranges| == i && (i < |texts| ==> pos == StartOf(texts, i))
      invariant forall k :: 0 <= k < i ==> ranges[k] == (StartOf(texts, k), StartOf(texts, k) + |texts[k]|)
    {
      if i + 1 < |texts| {
        NextStart(texts, i);
      }
      ranges := ranges + [(pos, pos + |texts[i]|)];
      pos := pos + |texts[i]| + 1;
    }
  }

  method FindOwner(texts: seq<string>, ranges: seq<(int, int)>, cs: int, ce: int) returns (i: nat)
    requires |ranges| == |texts|
    requires forall i :: 0 <= i < |texts| ==> ranges[i] == (StartOf(texts, i), StartOf(texts, i) + |texts[i]|)
    ensures i == Owner(texts, cs, ce, 0)
  {
    i := 0;
    while i < |texts| && !(ranges[i].0 <= cs && ce <= ranges[i].1)
      invariant 0 <= i <= |texts| && Owner(texts, cs, ce, 0) == Owner(texts, cs, ce, i)
    {
      i := i + 1;
    }
  }

  lemma SpansInSnoc(texts: seq<string>, b2c: map<int, nat>, upper: string -> string, labels: seq<LabelEntry>,
                    dets: seq<Detection>, d: Detection, i: nat)
    requires i < |texts|
    ensures SpansIn(texts, b2c, upper, labels, dets + [d], i)
            == SpansIn(texts, b2c, upper, labels, dets, i)
               + (match SpanIn(texts, b2c, upper, labels, d, i) case None => [] case Some(s) => [s])
  {
    assert (dets + [d])[..|dets|] == dets;
  }

  // A detection that goes nowhere changes nothing.
  lemma SkipSpan(texts: seq<string>, b2c: map<int, nat>, upper: string -> string, labels: seq<LabelEntry>,
                 dets: seq<Detection>, d: Detection, per: seq<seq<Span>>)
    requires AllSpansIn(texts, b2c, upper, labels, dets, per)
    ensures (forall i :: 0 <= i < |texts| ==> SpanIn(texts, b2c, upper, labels, d, i).None?) ==>
              AllSpansIn(texts, b2c, upper, labels, dets + [d], per)
  {
    forall i | 0 <= i < |texts| && SpanIn(texts, b2c, upper, labels, d, i).None?
      ensures per[i] == SpansIn(texts, b2c, upper, labels, dets + [d], i)
    {
      SpansInSnoc(texts, b2c, upper, labels, dets, d, i);
    }
  }

  lemma AddSpan(texts: seq<string>, b2c: map<int, nat>, upper: string -> string, labels: seq<LabelEntry>,
                dets: seq<Detection>, d: Detection, per: seq<seq<Span>>, i: nat)
    requires AllSpansIn(texts, b2c, upper, labels, dets, per) && i < |texts|
    requires SpanIn(texts, b2c, upper, labels, d, i).Some?
    ensures AllSpansIn(texts, b2c, upper, labels, dets + [d],
                       per[i := per[i] + [SpanIn(texts, b2c, upper, labels, d, i).value]])
  {
    var after := per[i := per[i] + [SpanIn(texts, b2c, upper, labels, d, i).value]];
    forall j | 0 <= j < |texts| ensures after[j] == SpansIn(texts, b2c, upper, labels, dets + [d], j) {
      SpansInSnoc(texts, b2c, upper, labels, dets, d, j);
    }
  }

  method ContainerSpansOf(texts: seq<string>, upper: string -> string, labels: seq<LabelEntry>, dets: seq<Detection>)
    returns (per: seq<seq<Span>>)
    ensures forall m :: IsByteMap(Joined(texts, NEWLINE), m) ==> AllSpansIn(texts, m, upper, labels, dets, per)
  {
    var full, _ := AssemblePages(texts, NEWLINE);
    var b2c := ByteToCharMap(full);
    per := AssignSpans(texts, b2c, upper, labels, dets);
    forall m | IsByteMap(full, m) ensures m == b2c {
      ByteMapUnique(full, m, b2c);
    }
  }

  method AssignSpans(texts: seq<string>, b2c: map<int, nat>, upper: string -> string, labels: seq<LabelEntry>,
                     dets: seq<Detection>) returns (per: seq<seq<Span>>)
    ensures AllSpansIn(texts, b2c, upper, labels, dets, per)
  {
    var ranges := ContainerRanges(texts);
    per := seq(|texts|, i => []);
    for k := 0 to |dets|
      invariant AllSpansIn(texts, b2c, upper, labels, dets[..k], per)
    {
      var d := dets[k];
      assert dets[..k + 1] == dets[..k] + [d];
      SkipSpan(texts, b2c, upper, labels, dets[..k], d, per);
      if d.start !in b2c || d.end !in b2c || b2c[d.start] >= b2c[d.end] {
        continue;
      }
      var cs, ce := b2c[d.start], b2c[d.end];
      var lbl := Lookup(labels, (upper(d.entityType), d.text));
      if lbl == "" {
        continue;
      }
      var i := FindOwner(texts, ranges, cs, ce);
      if i < |texts| {
        AddSpan(texts, b2c, upper, labels, dets[..k], d, per, i);
        per := per[i := per[i] + [Span(cs - ranges[i].0, ce - ranges[i].0, lbl)]];
      }
    }
    assert dets[..|dets|] == dets;
  }

  // ----- Detections reach their containers

  lemma {:induction false} StartsApart(texts: seq<string>, i: nat, j: nat)
    requires i < j < |texts|
    ensures StartOf(texts, i) + |texts[i]| < StartOf(texts, j)
    decreases j
  {
    NextStart(texts, j - 1);
    if i < j - 1 {
      StartsApart(texts, i, j - 1);
    }
  }

  lemma OwnerIs(texts: seq<string>, i: nat, cs: int, ce: int)
    requires i < |texts| && Fills(texts, i, cs, ce) && cs < ce
    ensures Owner(texts, cs, ce, 0) == i
  {
    var j := Owner(texts, cs, ce, 0);
    if j < i {
      StartsApart(texts, j, i);
    }
  }

  // The byte offset of a character of a container.
  lemma BoundaryInJoined(texts: seq<string>, i: nat, k: nat)
    requires i < |texts| && k <= |texts[i]|
    ensures StartOf(texts, i) + k <= |Joined(texts, NEWLINE)|
    ensures Width(Joined(texts, NEWLINE)[..StartOf(texts, i) + k])
            == Width(Before(texts, NEWLINE, i)) + Width(texts[i][..k])
  {
    var rest := PageInDocument(texts, NEWLINE, i);
    var b := Before(texts, NEWLINE, i);
    PrefixInMiddle(b, texts[i], rest, k);
    WidthConcat(b, texts[i][..k]);
  }

  lemma PrefixInMiddle(b: string, t: string, rest: string, k: nat)
    requires k <= |t|
    ensures (b + (t + rest))[..|b| + k] == b + t[..k]
  {
  }

  lemma CharOffset(texts: seq<string>, b2c: map<int, nat>, i: nat, k: nat, b: int)
    requires IsByteMap(Joined(texts, NEWLINE), b2c) && i < |texts| && k <= |texts[i]|
    requires b == Width(Before(texts, NEWLINE, i)) + Width(texts[i][..k])
    ensures b in b2c && b2c[b] == StartOf(texts, i) + k
  {
    BoundaryInJoined(texts, i, k);
  }

  lemma {:induction false} SpansInHold(texts: seq<string>, b2c: map<int, nat>, upper: string -> string,
                                       labels: seq<LabelEntry>, dets: seq<Detection>, i: nat, d: Detection)
    requires i < |texts| && d in dets && SpanIn(texts, b2c, upper, labels, d, i).Some?
    ensures SpanIn(texts, b2c, upper, labels, d, i).value in SpansIn(texts, b2c, upper, labels, dets, i)
  {
    var n := |dets| - 1;
    if d in dets[..n] {
      SpansInHold(texts, b2c, upper, labels, dets[..n], i, d);
    } else {
      assert d == dets[n];
    }
  }

  lemma SpanReaches(texts: seq<string>, b2c: map<int, nat>, upper: string -> string, labels: seq<LabelEntry>,
                    dets: seq<Detection>, i: nat, d: Detection, k: nat, l: nat)
    requires i < |texts| && d in dets && k < l <= |texts[i]|
    requires d.start in b2c && d.end in b2c
    requires b2c[d.start] == StartOf(texts, i) + k && b2c[d.end] == StartOf(texts, i) + l
    requires Lookup(labels, (upper(d.entityType), d.text)) != ""
    ensures Span(k, l, Lookup(labels, (upper(d.entityType), d.text))) in SpansIn(texts, b2c, upper, labels, dets, i)
    ensures forall j :: 0 <= j < |texts| && j != i ==> SpanIn(texts, b2c, upper, labels, d, j).None?
  {
    OwnerIs(texts, i, StartOf(texts, i) + k, StartOf(texts, i) + l);
    SpansInHold(texts, b2c, upper, labels, dets, i, d);
  }

  /** A labelled detection on the characters `k .. l` of container `i` becomes
      exactly that span of exactly that container. */
  lemma DetectionReachesItsContainer(texts: seq<string>, b2c: map<int, nat>, upper: string -> string,
                                     labels: seq<LabelEntry>, dets: seq<Detection>, i: nat, d: Detection,
                                     k: nat, l: nat)
    requires IsByteMap(Joined(texts, NEWLINE), b2c) && i < |texts| && d in dets && k < l <= |texts[i]|
    requires d.start == Width(Before(texts, NEWLINE, i)) + Width(texts[i][..k])
    requires d.end == Width(Before(texts, NEWLINE, i)) + Width(texts[i][..l])
    requires Lookup(labels, (upper(d.entityType), d.text)) != ""
    ensures Span(k, l, Lookup(labels, (upper(d.entityType), d.text))) in SpansIn(texts, b2c, upper, labels, dets, i)
    ensures forall j :: 0 <= j < |texts| && j != i ==> SpanIn(texts, b2c, upper, labels, d, j).None?
  {
    CharOffset(texts, b2c, i, k, d.start);
    CharOffset(texts, b2c, i, l, d.end);
    SpanReaches(texts, b2c, upper, labels, dets, i, d, k, l);
  }

  lemma {:induction false} SpansInOnly(texts: seq<string>, b2c: map<int, nat>, upper: string -> string,
                                       labels: seq<LabelEntry>, dets: seq<Detection>, i: nat, s: Span)
    returns (d: Detection)
    requires i < |texts| && s in SpansIn(texts, b2c, upper, labels, dets, i)
    ensures d in dets && SpanIn(texts, b2c, upper, labels, d, i) == Some(s)
  {
    var n := |dets| - 1;
    if s in SpansIn(texts, b2c, upper, labels, dets[..n], i) {
      d := SpansInOnly(texts, b2c, upper, labels, dets[..n], i, s);
    } else {
      d := dets[n];
    }
  }

  /** Detection `d` is the characters of `s` in container `i`, by byte offsets into
      the joined text. */
  predicate LiesAt(texts: seq<string>, i: nat, d: Detection, s: Span)
    requires i < |texts|
  {
    && 0 <= s.start < s.end <= |texts[i]|
    && d.start == Width(Before(texts, NEWLINE, i)) + Width(texts[i][..s.start])
    && d.end == Width(Before(texts, NEWLINE, i)) + Width(texts[i][..s.end])
  }

  lemma OffsetOfChar(texts: seq<string>, b2c: map<int, nat>, i: nat, k: nat, b: int)
    requires IsByteMap(Joined(texts, NEWLINE), b2c) && i < |texts| && k <= |texts[i]|
    requires b in b2c && b2c[b] == StartOf(texts, i) + k
    ensures b == Width(Before(texts, NEWLINE, i)) + Width(texts[i][..k])
  {
    hide Width, Before, Joined;
    BoundaryInJoined(texts, i, k);
  }

  lemma SpanInMeans(texts: seq<string>, b2c: map<int, nat>, upper: string -> string, labels: seq<LabelEntry>,
                    i: nat, d: Detection, s: Span)
    requires i < |texts| && SpanIn(texts, b2c, upper, labels, d, i) == Some(s)
    ensures d.start in b2c && b2c[d.start] == StartOf(texts, i) + s.start
    ensures d.end in b2c && b2c[d.end] == StartOf(texts, i) + s.end
    ensures 0 <= s.start < s.end <= |texts[i]|
    ensures s.lbl == Lookup(labels, (upper(d.entityType), d.text)) != ""
  {
    hide StartOf, Lookup;
  }

  lemma SpanLies(texts: seq<string>, b2c: map<int, nat>, upper: string -> string, labels: seq<LabelEntry>,
                 i: nat, d: Detection, s: Span)
    requires IsByteMap(Joined(texts, NEWLINE), b2c) && i < |texts|
    requires SpanIn(texts, b2c, upper, labels, d, i) == Some(s)
    ensures LiesAt(texts, i, d, s) && s.lbl == Lookup(labels, (upper(d.entityType), d.text)) != ""
  {
    hide SpanIn, IsByteMap, StartOf, Lookup, Width, Before;
    SpanInMeans(texts, b2c, upper, labels, i, d, s);
    OffsetOfChar(texts, b2c, i, s.start, d.start);
    OffsetOfChar(texts, b2c, i, s.end, d.end);
  }

  /** A container gets exactly the labelled detections that lie inside it, each on
      its own characters. */
  lemma ContainerSpansExactly(texts: seq<string>, b2c: map<int, nat>, upper: string -> string,
                              labels: seq<LabelEntry>, dets: seq<Detection>, i: nat, s: Span)
    requires IsByteMap(Joined(texts, NEWLINE), b2c) && i < |texts|
    ensures s in SpansIn(texts, b2c, upper, labels, dets, i)
            <==> exists d :: d in dets && LiesAt(texts, i, d, s)
                             && s.lbl == Lookup(labels, (upper(d.entityType), d.text)) != ""
  {
    hide SpansIn, SpanIn, Lookup;
    if s in SpansIn(texts, b2c, upper, labels, dets, i) {
      var d := SpansInOnly(texts, b2c, upper, labels, dets, i, s);
      SpanLies(texts, b2c, upper, labels, i, d, s);
    }
    if d :| d in dets && LiesAt(texts, i, d, s) && s.lbl == Lookup(labels, (upper(d.entityType), d.text)) != "" {
      DetectionReachesItsContainer(texts, b2c, upper, labels, dets, i, d, s.start, s.end);
    }
  }

  /** End to end: redacting the container replaces a range that holds the first
      character of every labelled detection inside it, and all its characters when
      any two spans and repeats that overlap lie inside a third. */
  lemma DetectionIsRedacted(texts: seq<string>, b2c: map<int, nat>, upper: string -> string, labels: seq<LabelEntry>,
                            dets: seq<Detection>, byValue: seq<Labelled>, i: nat, d: Detection, k: nat, l: nat)
    requires IsByteMap(Joined(texts, NEWLINE), b2c) && i < |texts| && d in dets && k < l <= |texts[i]|
    requires d.start == Width(Before(texts, NEWLINE, i)) + Width(texts[i][..k])
    requires d.end == Width(Before(texts, NEWLINE, i)) + Width(texts[i][..l])
    requires Lookup(labels, (upper(d.entityType), d.text)) != ""
    ensures var spans := SpansIn(texts, b2c, upper, labels, dets, i);
            var chosen := ContainerSpans(texts[i], spans, byValue);
            && Inside(k, chosen)
            && (Enclosed(spans + RepeatSpans(texts[i], byValue), |texts[i]|) ==>
                  Replaced(Span(k, l, Lookup(labels, (upper(d.entityType), d.text))), chosen))
  {
    var spans := SpansIn(texts, b2c, upper, labels, dets, i);
    var s := Span(k, l, Lookup(labels, (upper(d.entityType), d.text)));
    DetectionReachesItsContainer(texts, b2c, upper, labels, dets, i, d, k, l);
    DetectedSpansAreHit(texts[i], spans, byValue, s);
    if Whole(s, ContainerSpans(texts[i], spans, byValue)) {
      WholeIsReplaced(s, ContainerSpans(texts[i], spans, byValue));
    }
  }
}
