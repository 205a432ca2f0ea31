/** In which order reversible redaction numbers its tokens. */
module ReversibleOrder {
  import opened Sorting
  import opened Labels
  import opened LabelTheorems
  import opened Reversible

  lemma SortedByStart(dets: seq<Detection>, p: nat, q: nat)
    requires p <= q < |SortBy(dets, EarlierDetection)|
    ensures SortBy(dets, EarlierDetection)[p].start <= SortBy(dets, EarlierDetection)[q].start
  {
    SortOrders(dets, EarlierDetection);
    if p < q {
      assert EarlierDetection(SortBy(dets, EarlierDetection)[p], SortBy(dets, EarlierDetection)[q]);
    }
  }

  /** Tokens are listed, and hence numbered, by where their values first stand in the
      text, whatever order the detections come in: some detection of an earlier entry
      starts no later than every detection of a later one. */
  lemma TokensInTextOrder(nm: Naming, dets: seq<Detection>, i: nat, j: nat) returns (d: Detection)
    requires i < j < |OrderedLabels(nm, dets)|
    ensures d in dets && Names(nm, OrderedLabels(nm, dets)[i], d)
    ensures forall e :: e in dets && Names(nm, OrderedLabels(nm, dets)[j], e) ==> d.start <= e.start
  {
    hide LabelsOf, SortBy, Names;
    var sorted := SortBy(dets, EarlierDetection);
    SortMembers(dets, EarlierDetection);
    var p, q := EntriesInFirstAppearanceOrder(nm, sorted, i, j);
    d := sorted[p];
    assert d in sorted;
    forall e | e in dets && Names(nm, OrderedLabels(nm, dets)[j], e) ensures d.start <= e.start {
      assert e in sorted;
      var r :| 0 <= r < |sorted| && sorted[r] == e;
      assert r >= q;
      SortedByStart(dets, p, r);
    }
  }
}
