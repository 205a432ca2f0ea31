/** Collapsing overlapping detections of one type to a single representative. */
module Merge {
  import opened Wrappers
  import opened Sorting
  import opened Labels

  function Length(d: Detection): int {
    d.end - d.start
  }

  predicate StartThenLonger(a: Detection, b: Detection) {
    a.start < b.start || (a.start == b.start && a.end >= b.end)
  }

  predicate Earlier(a: Detection, b: Detection) {
    a.start <= b.start
  }

  // ----- What the sweep computes

  function TypeOf(upper: string -> string, d: Detection): string {
    upper(d.entityType)
  }

  /** The types, in first-appearance order. */
  function TypeKeys(upper: string -> string, dets: seq<Detection>): seq<string> {
    if dets == [] then []
    else
      var n := |dets| - 1;
      var ks := TypeKeys(upper, dets[..n]);
      if TypeOf(upper, dets[n]) in ks then ks else ks + [TypeOf(upper, dets[n])]
  }

  function GroupOf(upper: string -> string, dets: seq<Detection>, t: string): seq<Detection> {
    if dets == [] then []
    else
      var n := |dets| - 1;
      var g := GroupOf(upper, dets[..n], t);
      if TypeOf(upper, dets[n]) == t then g + [dets[n]] else g
  }

  /** A run of overlapping spans: where it starts and ends so far, and its widest span. */
  datatype Cluster = Cluster(lo: int, hi: int, rep: Detection)

  function Extend(c: Cluster, d: Detection): Cluster {
    Cluster(c.lo, if d.end > c.hi then d.end else c.hi, if Length(d) > Length(c.rep) then d else c.rep)
  }

  function AddTo(cs: seq<Cluster>, d: Detection): seq<Cluster> {
    if cs == [] || d.start >= cs[|cs| - 1].hi then cs + [Cluster(d.start, d.end, d)]
    else cs[..|cs| - 1] + [Extend(cs[|cs| - 1], d)]
  }

  function Clusters(g: seq<Detection>): seq<Cluster> {
    if g == [] then [] else AddTo(Clusters(g[..|g| - 1]), g[|g| - 1])
  }

  function Reps(cs: seq<Cluster>): (rs: seq<Detection>)
    ensures |rs| == |cs| && forall k :: 0 <= k < |cs| ==> rs[k] == cs[k].rep
  {
    seq(|cs|, k requires 0 <= k < |cs| => cs[k].rep)
  }

  function SortedGroup(upper: string -> string, dets: seq<Detection>, t: string): seq<Detection> {
    SortBy(GroupOf(upper, dets, t), StartThenLonger)
  }

  function AllReps(upper: string -> string, dets: seq<Detection>, keys: seq<string>): seq<Detection> {
    if keys == [] then []
    else
      var n := |keys| - 1;
      AllReps(upper, dets, keys[..n]) + Reps(Clusters(SortedGroup(upper, dets, keys[n])))
  }

  function Merged(upper: string -> string, dets: seq<Detection>): seq<Detection> {
    SortBy(AllReps(upper, dets, TypeKeys(upper, dets)), Earlier)
  }

  // The dictionary of groups: its keys in insertion order, and its values.
  ghost predicate GroupsBy(upper: string -> string, dets: seq<Detection>, keys: seq<string>,
      byType: map<string, seq<Detection>>) {
    && keys == TypeKeys(upper, dets)
    && (forall t :: t in byType <==> t in keys)
    && (forall t :: (if t in byType then byType[t] else []) == GroupOf(upper, dets, t))
  }

  lemma GroupsSnoc(upper: string -> string, dets: seq<Detection>, d: Detection, keys: seq<string>,
      byType: map<string, seq<Detection>>)
    requires GroupsBy(upper, dets, keys, byType)
    ensures var t := TypeOf(upper, d);
            if t in byType then GroupsBy(upper, dets + [d], keys, byType[t := byType[t] + [d]])
            else GroupsBy(upper, dets + [d], keys + [t], byType[t := [d]])
  {
    assert (dets + [d])[..|dets|] == dets;
  }

  lemma NoGroups(upper: string -> string)
    ensures GroupsBy(upper, [], [], map[])
  {
  }

  method MergeOverlappingSpans(upper: string -> string, detections: seq<Detection>) returns (out: seq<Detection>)
    ensures out == Merged(upper, detections)
  {
    hide Clusters, SortBy, TypeKeys, GroupOf;
    var byType: map<string, seq<Detection>> := map[];
    var keys: seq<string> := [];
    NoGroups(upper);
    assert detections[..0] == [];
    for i := 0 to |detections|
      invariant GroupsBy(upper, detections[..i], keys, byType)
    {
      var d := detections[i];
      assert detections[..i + 1] == detections[..i] + [d];
      GroupsSnoc(upper, detections[..i], d, keys, byType);
      hide GroupsBy;
      var t := upper(d.entityType);
      if t in byType {
        byType := byType[t := byType[t] + [d]];
      } else {
        byType := byType[t := [d]];
        keys := keys + [t];
      }
    }
    assert detections[..|detections|] == detections;
    out := [];
    for i := 0 to |keys|
      invariant out == AllReps(upper, detections, keys[..i])
    {
      assert keys[..i + 1][..i] == keys[..i];
      assert keys[i] in byType;
      var group := SortBy(byType[keys[i]], StartThenLonger);
      var reps := SweepGroup(group);
      out := out + reps;
    }
    assert keys[..|keys|] == keys;
    out := SortBy(out, Earlier);
  }

  // The loop variables of the sweep: the open cluster and the closed ones.
  ghost predicate Sweeping(cs: seq<Cluster>, out: seq<Detection>, rep: Option<Detection>, clusterEnd: int) {
    if rep.None? then cs == [] && out == []
    else
      && |cs| == |out| + 1
      && cs[|out|].rep == rep.value && cs[|out|].hi == clusterEnd
      && forall k :: 0 <= k < |out| ==> out[k] == cs[k].rep
  }

  lemma ClustersStep(g: seq<Detection>, i: nat)
    requires i < |g|
    ensures Clusters(g[..i + 1]) == AddTo(Clusters(g[..i]), g[i])
  {
    assert g[..i + 1][..i] == g[..i];
  }

  // Which cluster changes, and how.
  lemma AddToStep(cs: seq<Cluster>, d: Detection)
    ensures var n, after := |cs|, AddTo(cs, d);
            if n == 0 || d.start >= cs[n - 1].hi then
              |after| == n + 1 && after[..n] == cs && after[n].rep == d && after[n].hi == d.end
            else
              && |after| == n && after[..n - 1] == cs[..n - 1]
              && after[n - 1].hi == (if d.end > cs[n - 1].hi then d.end else cs[n - 1].hi)
              && var rep := cs[n - 1].rep;
                 after[n - 1].rep == if d.end - d.start > rep.end - rep.start then d else rep
  {
  }

  lemma NoClusters()
    ensures Clusters([]) == []
  {
  }

  method SweepGroup(group: seq<Detection>) returns (out: seq<Detection>)
    ensures out == Reps(Clusters(group))
  {
    hide Clusters, AddTo;
    out := [];
    var rep: Option<Detection> := None;
    var clusterEnd := -1;
    ghost var cs: seq<Cluster> := [];
    NoClusters();
    assert group[..0] == [];
    for i := 0 to |group|
      invariant cs == Clusters(group[..i])
      invariant Sweeping(cs, out, rep, clusterEnd)
    {
      var d := group[i];
      ClustersStep(group, i);
      AddToStep(cs, d);
      cs := AddTo(cs, d);
      if rep.Some? && d.start < clusterEnd {
        clusterEnd := if d.end > clusterEnd then d.end else clusterEnd;
        if d.end - d.start > rep.value.end - rep.value.start {
          rep := Some(d);
        }
      } else {
        if rep.Some? {
          out := out + [rep.value];
        }
        rep, clusterEnd := Some(d), d.end;
      }
    }
    assert group[..|group|] == group;
    if rep.Some? {
      out := out + [rep.value];
    }
  }

  // ----- Connected components of the same-type overlap relation

  predicate Overlap(upper: string -> string, a: Detection, b: Detection) {
    TypeOf(upper, a) == TypeOf(upper, b) && a.start < b.end && b.start < a.end
  }

  ghost predicate Closed(upper: string -> string, s: set<Detection>, dets: seq<Detection>) {
    forall a, b :: a in s && b in dets && Overlap(upper, a, b) ==> b in s
  }

  /** `b` lies in every overlap-closed set that holds `a`: they are in one
      connected component. */
  ghost predicate Connected(upper: string -> string, dets: seq<Detection>, a: Detection, b: Detection) {
    forall s :: Closed(upper, s, dets) && a in s ==> b in s
  }

  lemma ConnectedTrans(upper: string -> string, dets: seq<Detection>, a: Detection, b: Detection, c: Detection)
    requires Connected(upper, dets, a, b) && Connected(upper, dets, b, c)
    ensures Connected(upper, dets, a, c)
  {
  }

  lemma ConnectedSym(upper: string -> string, dets: seq<Detection>, a: Detection, b: Detection)
    requires a in dets && b in dets && Connected(upper, dets, a, b)
    ensures Connected(upper, dets, b, a)
  {
    forall s | Closed(upper, s, dets) && b in s ensures a in s {
      var rest := set d | d in dets && d !in s;
      assert Closed(upper, rest, dets);
      assert a !in s ==> a in rest;
    }
  }

  lemma OverlapConnects(upper: string -> string, dets: seq<Detection>, a: Detection, b: Detection)
    requires a in dets && b in dets && Overlap(upper, a, b)
    ensures Connected(upper, dets, a, b) && Connected(upper, dets, b, a)
  {
  }

  ghost predicate NonEmpty(dets: seq<Detection>) {
    forall d :: d in dets ==> d.start < d.end
  }

  // ----- The clusters of one sorted group

  predicate In(d: Detection, c: Cluster) {
    c.lo <= d.start && d.end <= c.hi
  }

  ghost predicate Laid(cs: seq<Cluster>) {
    && (forall k :: 0 <= k < |cs| ==> cs[k].lo < cs[k].hi)
    && (forall j, k :: 0 <= j < k < |cs| ==> cs[j].hi <= cs[k].lo)
  }

  /** `r` is wider than `d`, or as wide and no later. */
  predicate Outranks(r: Detection, d: Detection) {
    d.end - d.start < r.end - r.start || (d.end - d.start == r.end - r.start && r.start <= d.start)
  }

  ghost predicate Represents(upper: string -> string, dets: seq<Detection>, g: seq<Detection>, c: Cluster) {
    && c.rep in g && In(c.rep, c)
    && (exists m :: m in g && In(m, c) && m.end == c.hi)
    && (forall d :: d in g && In(d, c) ==> Outranks(c.rep, d) && Connected(upper, dets, d, c.rep))
  }

  // One type, drawn from `dets`, non-empty.
  ghost predicate IsGroup(upper: string -> string, dets: seq<Detection>, t: string, g: seq<Detection>) {
    && (forall d :: d in g ==> d in dets && TypeOf(upper, d) == t)
    && NonEmpty(g)
  }

  lemma AddLaid(cs: seq<Cluster>, d: Detection)
    requires Laid(cs) && d.start < d.end
    ensures Laid(AddTo(cs, d))
  {
    var n := |cs| - 1;
    assert forall k :: 0 <= k < n ==> cs[k].hi <= cs[n].lo;
  }

  lemma {:induction false} ClustersLaid(g: seq<Detection>)
    requires NonEmpty(g)
    ensures Laid(Clusters(g)) && (g != [] ==> Clusters(g) != [])
  {
    if g != [] {
      ClustersLaid(g[..|g| - 1]);
      AddLaid(Clusters(g[..|g| - 1]), g[|g| - 1]);
    }
  }

  function Open(g: seq<Detection>): Cluster
    requires Clusters(g) != []
  {
    Clusters(g)[|Clusters(g)| - 1]
  }

  // The open cluster starts no later than the last span.
  lemma {:induction false} OpenStarts(g: seq<Detection>)
    requires Ordered(g, StartThenLonger) && Clusters(g) != []
    ensures g != [] && Open(g).lo <= g[|g| - 1].start
  {
    var n := |g| - 1;
    var cs := Clusters(g[..n]);
    if cs != [] && g[n].start < cs[|cs| - 1].hi {
      OpenStarts(g[..n]);
      assert StartThenLonger(g[n - 1], g[n]);
    }
  }

  /** Every span lies in a cluster. */
  lemma {:induction false} ClusterOf(g: seq<Detection>, i: nat) returns (k: nat)
    requires NonEmpty(g) && Ordered(g, StartThenLonger) && i < |g|
    ensures k < |Clusters(g)| && In(g[i], Clusters(g)[k])
  {
    var n := |g| - 1;
    if i < n {
      assert g[..n][i] == g[i];
      k := ClusterOf(g[..n], i);
    } else {
      ClustersLaid(g);
      OpenStarts(g);
      k := |Clusters(g)| - 1;
    }
  }

  lemma EndsBelow(g: seq<Detection>, x: Detection)
    requires NonEmpty(g) && Ordered(g, StartThenLonger) && x in g
    ensures Clusters(g) != [] && x.end <= Open(g).hi
  {
    var i :| 0 <= i < |g| && g[i] == x;
    var k := ClusterOf(g, i);
    ClustersLaid(g);
    assert k < |Clusters(g)| - 1 ==> Clusters(g)[k].hi <= Open(g).lo;
  }

  // What starts at or after the open cluster's start is in it.
  lemma OpenMembers(g: seq<Detection>, x: Detection)
    requires NonEmpty(g) && Ordered(g, StartThenLonger) && x in g && Clusters(g) != []
    requires Open(g).lo <= x.start
    ensures In(x, Open(g))
  {
    var i :| 0 <= i < |g| && g[i] == x;
    var k := ClusterOf(g, i);
    ClustersLaid(g);
  }

  // A later span that starts past a cluster's end is not in that cluster.
  lemma StillRepresents(upper: string -> string, dets: seq<Detection>, g: seq<Detection>, d: Detection, c: Cluster)
    requires Represents(upper, dets, g, c) && !In(d, c)
    ensures Represents(upper, dets, g + [d], c)
  {
    var m :| m in g && In(m, c) && m.end == c.hi;
    assert m in g + [d];
  }

  lemma FreshRepresents(upper: string -> string, dets: seq<Detection>, g: seq<Detection>, d: Detection)
    requires NonEmpty(g) && forall x :: x in g ==> x.end <= d.start
    ensures Represents(upper, dets, g + [d], Cluster(d.start, d.end, d))
  {
    var c := Cluster(d.start, d.end, d);
    assert d in g + [d] && In(d, c);
    assert forall x :: x in g + [d] && In(x, c) ==> x == d;
  }

  lemma JoinsCluster(upper: string -> string, dets: seq<Detection>, t: string, g: seq<Detection>,
      last: Cluster, d: Detection)
    requires IsGroup(upper, dets, t, g + [d]) && Represents(upper, dets, g, last)
    requires d.start < last.hi && forall x :: x in g ==> x.start <= d.start
    ensures Connected(upper, dets, d, last.rep) && Connected(upper, dets, last.rep, d)
  {
    var m :| m in g && In(m, last) && m.end == last.hi;
    assert m in g + [d] && d in g + [d] && last.rep in g + [d];
    OverlapConnects(upper, dets, d, m);
    ConnectedTrans(upper, dets, d, m, last.rep);
    ConnectedSym(upper, dets, d, last.rep);
  }

  lemma GrownRepresents(upper: string -> string, dets: seq<Detection>, t: string, g: seq<Detection>,
      last: Cluster, d: Detection)
    requires IsGroup(upper, dets, t, g + [d]) && Represents(upper, dets, g, last)
    requires last.lo <= d.start < last.hi && forall x :: x in g ==> x.start <= d.start
    requires forall x :: x in g && In(x, Extend(last, d)) ==> In(x, last)
    ensures Represents(upper, dets, g + [d], Extend(last, d))
  {
    var c := Extend(last, d);
    JoinsCluster(upper, dets, t, g, last, d);
    assert d in g + [d] && last.rep in g + [d];
    var m :| m in g && In(m, last) && m.end == last.hi;
    assert m in g + [d];
    if d.end > last.hi {
      assert In(d, c) && d.end == c.hi;
    } else {
      assert In(m, c) && m.end == c.hi;
    }
    forall x | x in g + [d] && In(x, c)
      ensures Outranks(c.rep, x) && Connected(upper, dets, x, c.rep)
    {
      if x in g {
        assert In(x, last);
        ConnectedTrans(upper, dets, x, last.rep, d);
      }
    }
  }

  lemma StartsBefore(g: seq<Detection>, d: Detection)
    requires Ordered(g + [d], StartThenLonger)
    ensures Ordered(g, StartThenLonger) && forall x :: x in g ==> x.start <= d.start
  {
    var h := g + [d];
    assert forall i :: 0 <= i < |g| ==> g[i] == h[i];
    forall x | x in g ensures x.start <= d.start {
      var i :| 0 <= i < |g| && g[i] == x;
      assert StartThenLonger(h[i], h[|g|]);
    }
  }

  // The cluster that the span `d`, which comes last, opens or joins.
  lemma LastRepresents(upper: string -> string, dets: seq<Detection>, t: string, g: seq<Detection>, d: Detection)
    requires IsGroup(upper, dets, t, g + [d]) && Ordered(g + [d], StartThenLonger)
    requires Clusters(g) != [] ==> Represents(upper, dets, g, Open(g))
    ensures var cs := AddTo(Clusters(g), d);
            Represents(upper, dets, g + [d], cs[|cs| - 1])
  {
    var cs := Clusters(g);
    StartsBefore(g, d);
    ClustersLaid(g);
    if cs == [] || d.start >= cs[|cs| - 1].hi {
      forall x | x in g ensures x.end <= d.start {
        EndsBelow(g, x);
      }
      FreshRepresents(upper, dets, g, d);
    } else {
      OpenStarts(g);
      var last := Open(g);
      forall x | x in g && In(x, Extend(last, d)) ensures In(x, last) {
        OpenMembers(g, x);
      }
      GrownRepresents(upper, dets, t, g, last, d);
    }
  }

  lemma EarlierUntouched(upper: string -> string, dets: seq<Detection>, g: seq<Detection>, d: Detection, k: nat)
    requires NonEmpty(g + [d]) && Ordered(g + [d], StartThenLonger)
    requires k < |Clusters(g)| && Represents(upper, dets, g, Clusters(g)[k])
    requires k < |AddTo(Clusters(g), d)| - 1
    ensures AddTo(Clusters(g), d)[k] == Clusters(g)[k]
    ensures Represents(upper, dets, g + [d], Clusters(g)[k])
  {
    var cs := Clusters(g);
    StartsBefore(g, d);
    ClustersLaid(g);
    OpenStarts(g);
    assert d in g + [d];
    assert k < |cs| - 1 ==> cs[k].hi <= cs[|cs| - 1].lo;
    StillRepresents(upper, dets, g, d, cs[k]);
  }

  lemma FrontIsGroup(upper: string -> string, dets: seq<Detection>, t: string, g: seq<Detection>, d: Detection)
    requires IsGroup(upper, dets, t, g + [d])
    ensures IsGroup(upper, dets, t, g)
  {
    assert forall x :: x in g ==> x in g + [d];
  }

  lemma ClustersSnoc(g: seq<Detection>, d: Detection)
    ensures Clusters(g + [d]) == AddTo(Clusters(g), d)
  {
    assert (g + [d])[..|g|] == g;
  }

  lemma ClusterStep(upper: string -> string, dets: seq<Detection>, t: string, g: seq<Detection>, d: Detection, k: nat)
    requires IsGroup(upper, dets, t, g + [d]) && Ordered(g + [d], StartThenLonger)
    requires k < |Clusters(g + [d])|
    requires k < |Clusters(g)| ==> Represents(upper, dets, g, Clusters(g)[k])
    requires Clusters(g) != [] ==> Represents(upper, dets, g, Open(g))
    ensures Represents(upper, dets, g + [d], Clusters(g + [d])[k])
  {
    ClustersSnoc(g, d);
    if k < |AddTo(Clusters(g), d)| - 1 {
      EarlierUntouched(upper, dets, g, d, k);
    } else {
      LastRepresents(upper, dets, t, g, d);
    }
  }

  /** Each cluster is one connected set of spans, represented by its widest. */
  lemma {:induction false} ClusterRepresents(upper: string -> string, dets: seq<Detection>, t: string,
      g: seq<Detection>, k: nat)
    requires IsGroup(upper, dets, t, g) && Ordered(g, StartThenLonger) && k < |Clusters(g)|
    ensures Represents(upper, dets, g, Clusters(g)[k])
  {
    var n := |g| - 1;
    var front, d := g[..n], g[n];
    assert g == front + [d];
    FrontIsGroup(upper, dets, t, front, d);
    StartsBefore(front, d);
    var m := |Clusters(front)|;
    if k < m {
      ClusterRepresents(upper, dets, t, front, k);
    }
    if m > 0 {
      ClusterRepresents(upper, dets, t, front, m - 1);
    }
    ClusterStep(upper, dets, t, front, d, k);
  }
}
