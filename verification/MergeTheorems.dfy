/** Merging keeps exactly one detection of each connected component. */
module MergeTheorems {
  import opened Sorting
  import opened Labels
  import opened Merge

  lemma {:induction false} GroupMembers(upper: string -> string, dets: seq<Detection>, t: string)
    ensures forall d :: d in GroupOf(upper, dets, t) <==> d in dets && TypeOf(upper, d) == t
  {
    if dets != [] {
      var n := |dets| - 1;
      GroupMembers(upper, dets[..n], t);
      assert dets == dets[..n] + [dets[n]];
    }
  }

  lemma SortedGroupOk(upper: string -> string, dets: seq<Detection>, t: string)
    requires NonEmpty(dets)
    ensures IsGroup(upper, dets, t, SortedGroup(upper, dets, t))
    ensures Ordered(SortedGroup(upper, dets, t), StartThenLonger)
    ensures forall d :: d in SortedGroup(upper, dets, t) <==> d in dets && TypeOf(upper, d) == t
  {
    var g := GroupOf(upper, dets, t);
    GroupMembers(upper, dets, t);
    SortMembers(g, StartThenLonger);
    SortOrders(g, StartThenLonger);
  }

  lemma {:induction false} KeysCover(upper: string -> string, dets: seq<Detection>)
    ensures forall d :: d in dets ==> TypeOf(upper, d) in TypeKeys(upper, dets)
    ensures forall i, j :: 0 <= i < j < |TypeKeys(upper, dets)| ==> TypeKeys(upper, dets)[i] != TypeKeys(upper, dets)[j]
  {
    if dets != [] {
      var n := |dets| - 1;
      KeysCover(upper, dets[..n]);
      assert dets == dets[..n] + [dets[n]];
    }
  }

  function ClustersOf(upper: string -> string, dets: seq<Detection>, t: string): seq<Cluster> {
    Clusters(SortedGroup(upper, dets, t))
  }

  // ----- Components are chains of overlaps

  ghost predicate Overlapping(upper: string -> string, p: seq<Detection>, i: int)
    requires 0 <= i < |p| - 1
  {
    Overlap(upper, p[i], p[i + 1])
  }

  ghost predicate Chain(upper: string -> string, dets: seq<Detection>, p: seq<Detection>, a: Detection, b: Detection) {
    && p != [] && p[0] == a && p[|p| - 1] == b
    && (forall d :: d in p ==> d in dets)
    && (forall i :: 0 <= i < |p| - 1 ==> Overlapping(upper, p, i))
  }

  lemma {:induction false} ChainConnects(upper: string -> string, dets: seq<Detection>, p: seq<Detection>,
      a: Detection, b: Detection)
    requires Chain(upper, dets, p, a, b)
    ensures Connected(upper, dets, a, b)
    decreases |p|
  {
    var n := |p| - 1;
    if n > 0 {
      assert forall i :: 0 <= i < n - 1 ==> Overlapping(upper, p, i) ==> Overlapping(upper, p[..n], i);
      ChainConnects(upper, dets, p[..n], a, p[n - 1]);
      assert Overlapping(upper, p, n - 1);
      OverlapConnects(upper, dets, p[n - 1], b);
      ConnectedTrans(upper, dets, a, p[n - 1], b);
    }
  }

  lemma ChainGrows(upper: string -> string, dets: seq<Detection>, p: seq<Detection>, a: Detection,
      b: Detection, c: Detection)
    requires Chain(upper, dets, p, a, b) && c in dets && Overlap(upper, b, c)
    ensures Chain(upper, dets, p + [c], a, c)
  {
    var q := p + [c];
    forall i | 0 <= i < |q| - 1 ensures Overlapping(upper, q, i) {
      assert i < |p| - 1 ==> Overlapping(upper, p, i);
    }
  }

  /** Two detections are connected exactly when a chain of overlaps joins them. */
  lemma ConnectedIffChained(upper: string -> string, dets: seq<Detection>, a: Detection, b: Detection)
    requires a in dets
    ensures Connected(upper, dets, a, b) <==> exists p :: Chain(upper, dets, p, a, b)
  {
    forall p | Chain(upper, dets, p, a, b) ensures Connected(upper, dets, a, b) {
      ChainConnects(upper, dets, p, a, b);
    }
    var reached := set y | y in dets && exists p :: Chain(upper, dets, p, a, y);
    forall x, y | x in reached && y in dets && Overlap(upper, x, y) ensures y in reached {
      var p :| Chain(upper, dets, p, a, x);
      ChainGrows(upper, dets, p, a, x, y);
    }
    assert Closed(upper, reached, dets);
    assert Chain(upper, dets, [a], a, a);
    assert a in reached;
  }

  // ----- Clusters are the components

  ghost predicate SplitAt(upper: string -> string, dets: seq<Detection>, t: string, x: int) {
    forall d :: d in dets && TypeOf(upper, d) == t ==> d.end <= x || x <= d.start
  }

  lemma NotAcross(upper: string -> string, dets: seq<Detection>, t: string, x: int, d: Detection, e: Detection)
    requires NonEmpty(dets) && SplitAt(upper, dets, t, x)
    requires d in dets && e in dets && TypeOf(upper, d) == t && TypeOf(upper, e) == t
    requires d.end <= x <= e.start
    ensures !Connected(upper, dets, d, e) && !Connected(upper, dets, e, d)
  {
    var left := set y | y in dets && TypeOf(upper, y) == t && y.end <= x;
    var right := set y | y in dets && TypeOf(upper, y) == t && x <= y.start;
    assert Closed(upper, left, dets) && d in left && e !in left;
    assert Closed(upper, right, dets) && e in right && d !in right;
  }

  lemma NotAcrossTypes(upper: string -> string, dets: seq<Detection>, d: Detection, e: Detection)
    requires d in dets && TypeOf(upper, d) != TypeOf(upper, e)
    ensures !Connected(upper, dets, d, e)
  {
    var same := set y | y in dets && TypeOf(upper, y) == TypeOf(upper, d);
    assert Closed(upper, same, dets) && d in same && e !in same;
  }

  lemma ClusterFor(upper: string -> string, dets: seq<Detection>, d: Detection) returns (k: nat)
    requires NonEmpty(dets) && d in dets
    ensures k < |ClustersOf(upper, dets, TypeOf(upper, d))| && In(d, ClustersOf(upper, dets, TypeOf(upper, d))[k])
  {
    var g := SortedGroup(upper, dets, TypeOf(upper, d));
    SortedGroupOk(upper, dets, TypeOf(upper, d));
    var i :| 0 <= i < |g| && g[i] == d;
    k := ClusterOf(g, i);
  }

  lemma SplitAtClusters(upper: string -> string, dets: seq<Detection>, t: string, k: nat)
    requires NonEmpty(dets) && k < |ClustersOf(upper, dets, t)|
    ensures SplitAt(upper, dets, t, ClustersOf(upper, dets, t)[k].lo)
  {
    var cs := ClustersOf(upper, dets, t);
    SortedGroupOk(upper, dets, t);
    ClustersLaid(SortedGroup(upper, dets, t));
    forall d | d in dets && TypeOf(upper, d) == t ensures d.end <= cs[k].lo || cs[k].lo <= d.start {
      var j := ClusterFor(upper, dets, d);
    }
  }

  /** Spans in different clusters of a type are in different components. */
  lemma DifferentClusters(upper: string -> string, dets: seq<Detection>, t: string, j: nat, k: nat,
      d: Detection, e: Detection)
    requires NonEmpty(dets) && j < |ClustersOf(upper, dets, t)| && k < |ClustersOf(upper, dets, t)| && j != k
    requires d in dets && e in dets && TypeOf(upper, d) == t && TypeOf(upper, e) == t
    requires In(d, ClustersOf(upper, dets, t)[j]) && In(e, ClustersOf(upper, dets, t)[k])
    ensures !Connected(upper, dets, d, e) && d != e
  {
    var cs := ClustersOf(upper, dets, t);
    SortedGroupOk(upper, dets, t);
    ClustersLaid(SortedGroup(upper, dets, t));
    if j < k {
      SplitAtClusters(upper, dets, t, k);
      NotAcross(upper, dets, t, cs[k].lo, d, e);
    } else {
      SplitAtClusters(upper, dets, t, j);
      NotAcross(upper, dets, t, cs[j].lo, e, d);
    }
  }

  // ----- The representatives

  ghost predicate RepAt(upper: string -> string, dets: seq<Detection>, r: Detection, k: int) {
    0 <= k < |ClustersOf(upper, dets, TypeOf(upper, r))| && ClustersOf(upper, dets, TypeOf(upper, r))[k].rep == r
  }

  lemma RepFacts(upper: string -> string, dets: seq<Detection>, t: string, k: nat)
    requires NonEmpty(dets) && k < |ClustersOf(upper, dets, t)|
    ensures var c := ClustersOf(upper, dets, t)[k];
            && c.rep in dets && TypeOf(upper, c.rep) == t && In(c.rep, c) && RepAt(upper, dets, c.rep, k)
            && forall d :: d in dets && TypeOf(upper, d) == t && In(d, c) ==>
                 Outranks(c.rep, d) && Connected(upper, dets, d, c.rep)
  {
    SortedGroupOk(upper, dets, t);
    ClusterRepresents(upper, dets, t, SortedGroup(upper, dets, t), k);
  }

  lemma RepOnce(upper: string -> string, dets: seq<Detection>, t: string, j: nat, k: nat)
    requires NonEmpty(dets) && j < |ClustersOf(upper, dets, t)| && k < |ClustersOf(upper, dets, t)| && j != k
    ensures ClustersOf(upper, dets, t)[j].rep != ClustersOf(upper, dets, t)[k].rep
  {
    var cs := ClustersOf(upper, dets, t);
    RepFacts(upper, dets, t, j);
    RepFacts(upper, dets, t, k);
    DifferentClusters(upper, dets, t, j, k, cs[j].rep, cs[k].rep);
  }

  lemma GroupRepsNoRepeats(upper: string -> string, dets: seq<Detection>, t: string)
    requires NonEmpty(dets)
    ensures NoRepeats(Reps(ClustersOf(upper, dets, t)))
  {
    var rs := Reps(ClustersOf(upper, dets, t));
    forall i, j | 0 <= i < j < |rs| ensures rs[i] != rs[j] {
      RepOnce(upper, dets, t, i, j);
    }
  }

  lemma {:induction false} AllRepsMembers(upper: string -> string, dets: seq<Detection>, keys: seq<string>,
      r: Detection)
    requires NonEmpty(dets)
    ensures r in AllReps(upper, dets, keys) <==> TypeOf(upper, r) in keys && exists k :: RepAt(upper, dets, r, k)
  {
    if keys != [] {
      var n := |keys| - 1;
      AllRepsMembers(upper, dets, keys[..n], r);
      var rs := Reps(ClustersOf(upper, dets, keys[n]));
      if r in rs {
        var k :| 0 <= k < |rs| && rs[k] == r;
        RepFacts(upper, dets, keys[n], k);
      }
      if TypeOf(upper, r) == keys[n] && exists k :: RepAt(upper, dets, r, k) {
        var k :| RepAt(upper, dets, r, k);
        assert rs[k] == r;
      }
      assert keys == keys[..n] + [keys[n]];
    }
  }

  lemma {:induction false} AllRepsCount(upper: string -> string, dets: seq<Detection>, keys: seq<string>, r: Detection)
    requires NonEmpty(dets) && NoRepeats(keys)
    ensures multiset(AllReps(upper, dets, keys))[r] <= 1
  {
    if keys != [] {
      var n := |keys| - 1;
      AllRepsCount(upper, dets, keys[..n], r);
      AllRepsMembers(upper, dets, keys[..n], r);
      var a, b := AllReps(upper, dets, keys[..n]), Reps(ClustersOf(upper, dets, keys[n]));
      GroupRepsNoRepeats(upper, dets, keys[n]);
      CountNoRepeats(b, r);
      if r in b {
        var k :| 0 <= k < |b| && b[k] == r;
        RepFacts(upper, dets, keys[n], k);
        assert r !in a;
        assert r !in multiset(a);
      }
      assert multiset(a + b)[r] == multiset(a)[r] + multiset(b)[r];
    }
  }

  /** No detection is output twice, and the outputs are the clusters' representatives. */
  lemma MergedMembers(upper: string -> string, dets: seq<Detection>, r: Detection)
    requires NonEmpty(dets)
    ensures multiset(Merged(upper, dets))[r] <= 1
    ensures r in Merged(upper, dets) <==> r in dets && exists k :: RepAt(upper, dets, r, k)
  {
    var keys := TypeKeys(upper, dets);
    var all := AllReps(upper, dets, keys);
    KeysCover(upper, dets);
    AllRepsCount(upper, dets, keys, r);
    AllRepsMembers(upper, dets, keys, r);
    SortPermutes(all, Earlier);
    SortMembers(all, Earlier);
    if exists k :: RepAt(upper, dets, r, k) {
      var k :| RepAt(upper, dets, r, k);
      RepFacts(upper, dets, TypeOf(upper, r), k);
    }
  }

  // ----- Theorems

  /** Exactly one output per connected component of the same-type overlap relation,
      the widest input detection of its component, of several the one that starts
      first. */
  lemma OnePerComponent(upper: string -> string, dets: seq<Detection>)
    requires NonEmpty(dets)
    ensures forall r :: r in Merged(upper, dets) ==> r in dets && multiset(Merged(upper, dets))[r] == 1
    ensures forall d :: d in dets ==> exists r :: r in Merged(upper, dets) && Connected(upper, dets, d, r)
    ensures forall r, s :: r in Merged(upper, dets) && s in Merged(upper, dets) && r != s ==>
              !Connected(upper, dets, r, s)
    ensures forall d, r :: d in dets && r in Merged(upper, dets) && Connected(upper, dets, d, r) ==>
              Outranks(r, d)
  {
    hide Connected, Merged, Outranks;
    var out := Merged(upper, dets);
    forall r | r in out ensures r in dets && multiset(out)[r] == 1 {
      MergedMembers(upper, dets, r);
      assert r in multiset(out);
    }
    forall d | d in dets ensures exists r :: r in out && Connected(upper, dets, d, r) {
      var r := RepresentativeOf(upper, dets, d);
    }
    forall d, r | d in dets && r in out && Connected(upper, dets, d, r) ensures Outranks(r, d) {
      RepIsWidest(upper, dets, d, r);
    }
    forall r, s | r in out && s in out && r != s ensures !Connected(upper, dets, r, s) {
      RepsApart(upper, dets, r, s);
    }
  }

  /** The output is in order of start offsets. */
  lemma MergedIsOrdered(upper: string -> string, dets: seq<Detection>)
    ensures forall i, j :: 0 <= i < j < |Merged(upper, dets)| ==>
              Merged(upper, dets)[i].start <= Merged(upper, dets)[j].start
  {
    SortOrders(AllReps(upper, dets, TypeKeys(upper, dets)), Earlier);
  }

  lemma RepresentativeOf(upper: string -> string, dets: seq<Detection>, d: Detection) returns (r: Detection)
    requires NonEmpty(dets) && d in dets
    ensures r in Merged(upper, dets) && Connected(upper, dets, d, r)
  {
    var t := TypeOf(upper, d);
    var k := ClusterFor(upper, dets, d);
    RepFacts(upper, dets, t, k);
    r := ClustersOf(upper, dets, t)[k].rep;
    MergedMembers(upper, dets, r);
  }

  lemma RepIsWidest(upper: string -> string, dets: seq<Detection>, d: Detection, r: Detection)
    requires NonEmpty(dets) && d in dets && r in Merged(upper, dets) && Connected(upper, dets, d, r)
    ensures Outranks(r, d)
  {
    var t := TypeOf(upper, r);
    MergedMembers(upper, dets, r);
    var k :| RepAt(upper, dets, r, k);
    RepFacts(upper, dets, t, k);
    if TypeOf(upper, d) != t {
      NotAcrossTypes(upper, dets, d, r);
    } else {
      var j := ClusterFor(upper, dets, d);
      if j != k {
        DifferentClusters(upper, dets, t, j, k, d, r);
      }
    }
  }

  lemma RepsApart(upper: string -> string, dets: seq<Detection>, r: Detection, s: Detection)
    requires NonEmpty(dets) && r in Merged(upper, dets) && s in Merged(upper, dets) && r != s
    ensures !Connected(upper, dets, r, s)
  {
    MergedMembers(upper, dets, r);
    MergedMembers(upper, dets, s);
    var j :| RepAt(upper, dets, r, j);
    var k :| RepAt(upper, dets, s, k);
    RepFacts(upper, dets, TypeOf(upper, r), j);
    RepFacts(upper, dets, TypeOf(upper, s), k);
    if TypeOf(upper, r) != TypeOf(upper, s) {
      NotAcrossTypes(upper, dets, r, s);
    } else {
      DifferentClusters(upper, dets, TypeOf(upper, r), j, k, r, s);
    }
  }

  /** Outputs of one type do not overlap. */
  lemma OutputsDisjoint(upper: string -> string, dets: seq<Detection>, r: Detection, s: Detection)
    requires NonEmpty(dets) && r in Merged(upper, dets) && s in Merged(upper, dets) && r != s
    ensures !Overlap(upper, r, s)
  {
    RepsApart(upper, dets, r, s);
    MergedMembers(upper, dets, r);
    MergedMembers(upper, dets, s);
    if Overlap(upper, r, s) {
      OverlapConnects(upper, dets, r, s);
    }
  }

  // Among pairwise disjoint detections, components are single detections.
  lemma AloneInComponent(upper: string -> string, dets: seq<Detection>, a: Detection, b: Detection)
    requires forall r, s :: r in dets && s in dets && r != s ==> !Overlap(upper, r, s)
    requires a in dets && Connected(upper, dets, a, b)
    ensures a == b
  {
    assert Closed(upper, {a}, dets);
  }

  /** Merging again changes nothing but, possibly, the order. */
  lemma MergeIsIdempotent(upper: string -> string, dets: seq<Detection>)
    requires NonEmpty(dets)
    ensures multiset(Merged(upper, Merged(upper, dets))) == multiset(Merged(upper, dets))
  {
    var out := Merged(upper, dets);
    var again := Merged(upper, out);
    OnePerComponent(upper, dets);
    OnePerComponent(upper, out);
    forall r, s | r in out && s in out && r != s ensures !Overlap(upper, r, s) {
      OutputsDisjoint(upper, dets, r, s);
    }
    forall x ensures multiset(again)[x] == multiset(out)[x] {
      assert x in multiset(again) <==> x in again;
      assert x in multiset(out) <==> x in out;
      if x in out {
        var r :| r in again && Connected(upper, out, x, r);
        AloneInComponent(upper, out, x, r);
      }
    }
  }

  // ----- When merging loses no character

  predicate Holds(c: Detection, d: Detection) {
    c.start <= d.start && d.end <= c.end
  }

  ghost predicate HeldByOutput(upper: string -> string, dets: seq<Detection>, d: Detection) {
    exists r :: r in Merged(upper, dets) && TypeOf(upper, r) == TypeOf(upper, d) && Holds(r, d)
  }

  /** `c` is in the component of `d` and contains all of it. */
  ghost predicate HoldsComponent(upper: string -> string, dets: seq<Detection>, d: Detection, c: Detection) {
    Connected(upper, dets, d, c) && forall x :: x in dets && Connected(upper, dets, d, x) ==> Holds(c, x)
  }

  ghost predicate HasHolder(upper: string -> string, dets: seq<Detection>, d: Detection) {
    exists c :: c in dets && HoldsComponent(upper, dets, d, c)
  }

  lemma SameType(upper: string -> string, dets: seq<Detection>, a: Detection, b: Detection)
    requires a in dets && Connected(upper, dets, a, b)
    ensures TypeOf(upper, a) == TypeOf(upper, b)
  {
    if TypeOf(upper, a) != TypeOf(upper, b) {
      NotAcrossTypes(upper, dets, a, b);
    }
  }

  lemma HolderIsOutput(upper: string -> string, dets: seq<Detection>, d: Detection)
    requires NonEmpty(dets) && d in dets && HasHolder(upper, dets, d)
    ensures HeldByOutput(upper, dets, d)
  {
    var c :| c in dets && HoldsComponent(upper, dets, d, c);
    var r := RepresentativeOf(upper, dets, d);
    MergedMembers(upper, dets, r);
    ConnectedSym(upper, dets, d, c);
    ConnectedTrans(upper, dets, c, d, r);
    RepIsWidest(upper, dets, c, r);
    SameType(upper, dets, d, r);
    assert Connected(upper, dets, d, d);
  }

  lemma HeldIsConnected(upper: string -> string, dets: seq<Detection>, x: Detection, r: Detection)
    requires NonEmpty(dets) && x in dets && r in dets && TypeOf(upper, r) == TypeOf(upper, x) && Holds(r, x)
    ensures Connected(upper, dets, x, r)
  {
    OverlapConnects(upper, dets, x, r);
  }

  lemma OutputHoldsComponent(upper: string -> string, dets: seq<Detection>, d: Detection)
    requires NonEmpty(dets) && d in dets && forall x :: x in dets ==> HeldByOutput(upper, dets, x)
    ensures HasHolder(upper, dets, d)
  {
    var r := RepresentativeOf(upper, dets, d);
    MergedMembers(upper, dets, r);
    forall x | x in dets && Connected(upper, dets, d, x) ensures Holds(r, x) {
      var s :| s in Merged(upper, dets) && TypeOf(upper, s) == TypeOf(upper, x) && Holds(s, x);
      MergedMembers(upper, dets, s);
      HeldIsConnected(upper, dets, x, s);
      ConnectedTrans(upper, dets, d, x, s);
      ConnectedSym(upper, dets, d, r);
      ConnectedTrans(upper, dets, r, d, s);
      if r != s {
        RepsApart(upper, dets, r, s);
      }
    }
    assert HoldsComponent(upper, dets, d, r);
  }

  /** Every input lies inside an output of its type exactly when each component has a
      member that contains all of it. */
  lemma NothingLostIffHolders(upper: string -> string, dets: seq<Detection>)
    requires NonEmpty(dets)
    ensures (forall d :: d in dets ==> HeldByOutput(upper, dets, d))
            <==> (forall d :: d in dets ==> HasHolder(upper, dets, d))
  {
    if forall d :: d in dets ==> HeldByOutput(upper, dets, d) {
      forall d | d in dets ensures HasHolder(upper, dets, d) {
        OutputHoldsComponent(upper, dets, d);
      }
    }
    if forall d :: d in dets ==> HasHolder(upper, dets, d) {
      forall d | d in dets ensures HeldByOutput(upper, dets, d) {
        HolderIsOutput(upper, dets, d);
      }
    }
  }

  /** Two detections of one type that overlap in part: one of them is cut short. */
  lemma PartialOverlapLoses(upper: string -> string, a: Detection, b: Detection)
    requires TypeOf(upper, a) == TypeOf(upper, b) && a.start < b.start < a.end < b.end
    ensures !HeldByOutput(upper, [a, b], a) || !HeldByOutput(upper, [a, b], b)
  {
    hide Merged, Connected, HeldByOutput;
    var dets := [a, b];
    assert a in dets && b in dets && forall d :: d in dets <==> d == a || d == b;
    OverlapConnects(upper, dets, a, a);
    OverlapConnects(upper, dets, a, b);
    NothingLostIffHolders(upper, dets);
    assert !HasHolder(upper, dets, a);
  }
}
