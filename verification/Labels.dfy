/** Assigning `{{Type_N}}` placeholders to detected values. */
module Labels {
  import opened Strings
  import opened Digits
  import opened Placeholders

  datatype Detection = Detection(entityType: string, text: string, start: int, end: int)

  /** The case and canonicalisation functions of the source: upper-casing,
      title-casing, and the key under which surface variants coincide. */
  datatype Naming = Naming(upper: string -> string, title: string -> string, canonical: (string, string) -> string)

  // (TYPE, value)
  type Key2 = (string, string)

  datatype LabelEntry = LabelEntry(typ: string, value: string, text: string)

  function LabelText(title: string, n: nat): string {
    "{{" + (title + "_" + Decimal(n)) + "}}"
  }

  // ----- What the labels are

  function SurfaceKey(nm: Naming, d: Detection): Key2 {
    (nm.upper(d.entityType), d.text)
  }

  function CanonKey(nm: Naming, k: Key2): Key2 {
    (k.0, nm.canonical(k.0, k.1))
  }

  /** The distinct non-empty (TYPE, value) pairs, in first-appearance order. */
  function SurfaceKeys(nm: Naming, dets: seq<Detection>): seq<Key2> {
    if dets == [] then []
    else
      var n := |dets| - 1;
      var ks := SurfaceKeys(nm, dets[..n]);
      if dets[n].text == "" || SurfaceKey(nm, dets[n]) in ks then ks else ks + [SurfaceKey(nm, dets[n])]
  }

  /** The distinct canonical keys, in first-appearance order. */
  function CanonKeys(nm: Naming, keys: seq<Key2>): seq<Key2> {
    if keys == [] then []
    else
      var n := |keys| - 1;
      var cs := CanonKeys(nm, keys[..n]);
      if CanonKey(nm, keys[n]) in cs then cs else cs + [CanonKey(nm, keys[n])]
  }

  function CountType(cs: seq<Key2>, typ: string): nat {
    if cs == [] then 0
    else
      var n := |cs| - 1;
      CountType(cs[..n], typ) + (if cs[n].0 == typ then 1 else 0)
  }

  /** The position of a canonical key among those of its type, counting from 1. */
  function Rank(cs: seq<Key2>, c: Key2): nat {
    if cs == [] then 0
    else
      var n := |cs| - 1;
      if c in cs[..n] then Rank(cs[..n], c) else CountType(cs, c.0)
  }

  function LabelFor(nm: Naming, cs: seq<Key2>, c: Key2): string {
    LabelText(nm.title(c.0), Rank(cs, c))
  }

  function LabelsOf(nm: Naming, dets: seq<Detection>): (ls: seq<LabelEntry>)
    ensures |ls| == |SurfaceKeys(nm, dets)|
  {
    var ks := SurfaceKeys(nm, dets);
    var cs := CanonKeys(nm, ks);
    seq(|ks|, i requires 0 <= i < |ks| => LabelEntry(ks[i].0, ks[i].1, LabelFor(nm, cs, CanonKey(nm, ks[i]))))
  }

  ghost predicate Distinct(ks: seq<Key2>) {
    forall i, j :: 0 <= i < j < |ks| ==> ks[i] != ks[j]
  }

  lemma {:induction false} SurfaceKeysCover(nm: Naming, dets: seq<Detection>)
    ensures Distinct(SurfaceKeys(nm, dets))
    ensures forall k :: k in SurfaceKeys(nm, dets) <==> exists d :: d in dets && d.text != "" && SurfaceKey(nm, d) == k
  {
    if dets != [] {
      var n := |dets| - 1;
      SurfaceKeysCover(nm, dets[..n]);
      assert dets == dets[..n] + [dets[n]];
      assert forall d :: d in dets <==> d in dets[..n] || d == dets[n];
    }
  }

  lemma {:induction false} CanonKeysCover(nm: Naming, keys: seq<Key2>)
    ensures Distinct(CanonKeys(nm, keys))
    ensures forall k :: k in keys ==> CanonKey(nm, k) in CanonKeys(nm, keys)
  {
    if keys != [] {
      var n := |keys| - 1;
      CanonKeysCover(nm, keys[..n]);
      assert keys == keys[..n] + [keys[n]];
    }
  }

  // ----- Numbering

  lemma RankStable(cs: seq<Key2>, x: Key2, c: Key2)
    requires c in cs
    ensures Rank(cs + [x], c) == Rank(cs, c)
  {
    assert (cs + [x])[..|cs|] == cs;
  }

  lemma {:induction false} RankBounds(cs: seq<Key2>, c: Key2)
    requires c in cs
    ensures 1 <= Rank(cs, c) <= CountType(cs, c.0)
  {
    var n := |cs| - 1;
    if c in cs[..n] {
      RankBounds(cs[..n], c);
    } else {
      assert c == cs[n];
    }
  }

  lemma LatestRankIsNew(cs: seq<Key2>, a: Key2, b: Key2)
    requires a in cs && a.0 == b.0 && b !in cs
    ensures Rank(cs, a) < Rank(cs + [b], b)
  {
    RankBounds(cs, a);
    CountTypeSnoc(cs, b, b.0);
    assert (cs + [b])[..|cs|] == cs;
  }

  lemma {:induction false} RankInjective(cs: seq<Key2>, a: Key2, b: Key2)
    requires a in cs && b in cs && a.0 == b.0 && a != b
    ensures Rank(cs, a) != Rank(cs, b)
  {
    var n := |cs| - 1;
    var front := cs[..n];
    assert cs == front + [cs[n]];
    if a in front && b in front {
      RankInjective(front, a, b);
    } else if a in front {
      LatestRankIsNew(front, a, b);
    } else {
      LatestRankIsNew(front, b, a);
    }
  }

  /** The numbers of a type run from 1 without gaps. */
  lemma {:induction false} RanksHaveNoGaps(cs: seq<Key2>, typ: string, r: nat) returns (c: Key2)
    requires Distinct(cs) && 1 <= r <= CountType(cs, typ)
    ensures c in cs && c.0 == typ && Rank(cs, c) == r
  {
    var n := |cs| - 1;
    if r <= CountType(cs[..n], typ) {
      c := RanksHaveNoGaps(cs[..n], typ, r);
    } else {
      c := cs[n];
      assert c !in cs[..n];
    }
  }

  lemma UnderscoreSplit(x: string, d: string, y: string, e: string)
    requires x + "_" + d == y + "_" + e && '_' !in d && '_' !in e
    ensures x == y && d == e
  {
    var l, r := x + "_" + d, y + "_" + e;
    assert l[|x|] == '_' && r[|y|] == '_';
    assert forall i :: |x| < i < |l| ==> l[i] == d[i - |x| - 1];
    assert forall i :: |y| < i < |r| ==> r[i] == e[i - |y| - 1];
    assert |x| == |y|;
    assert l[..|x|] == x && r[..|y|] == y && l[|x| + 1..] == d && r[|y| + 1..] == e;
  }

  lemma LabelTextInjective(t: string, n: nat, u: string, k: nat)
    requires LabelText(t, n) == LabelText(u, k)
    ensures t == u && n == k
  {
    var a, b := t + "_" + Decimal(n), u + "_" + Decimal(k);
    assert LabelText(t, n)[2..|a| + 2] == a && LabelText(u, k)[2..|b| + 2] == b;
    UnderscoreSplit(t, Decimal(n), u, Decimal(k));
    DecimalInjective(n, k);
  }

  lemma LabelIsPlaceholder(t: string, n: nat)
    requires BraceFree(t)
    ensures IsPlaceholder(LabelText(t, n))
  {
    var body := t + "_" + Decimal(n);
    var p := LabelText(t, n);
    assert Body(p) == body && p[..2] == "{{" && p[|p| - 2..] == "}}";
  }

  /** Values of one type share a placeholder exactly when they have the same
      canonical form; values of two types share one exactly when the types have the
      same title and the values the same number. */
  lemma SameLabelIffSameEntity(nm: Naming, dets: seq<Detection>, i: nat, j: nat)
    requires i < |LabelsOf(nm, dets)| && j < |LabelsOf(nm, dets)|
    ensures var a, b := LabelsOf(nm, dets)[i], LabelsOf(nm, dets)[j];
            var ca, cb := CanonKey(nm, (a.typ, a.value)), CanonKey(nm, (b.typ, b.value));
            var cs := CanonKeys(nm, SurfaceKeys(nm, dets));
            && (a.typ == b.typ ==> (a.text == b.text <==> ca == cb))
            && (a.text == b.text <==> nm.title(a.typ) == nm.title(b.typ) && Rank(cs, ca) == Rank(cs, cb))
  {
    var ks := SurfaceKeys(nm, dets);
    var cs := CanonKeys(nm, ks);
    CanonKeysCover(nm, ks);
    var a, b := CanonKey(nm, ks[i]), CanonKey(nm, ks[j]);
    assert ks[i] in ks && ks[j] in ks;
    if LabelFor(nm, cs, a) == LabelFor(nm, cs, b) {
      LabelTextInjective(nm.title(a.0), Rank(cs, a), nm.title(b.0), Rank(cs, b));
    }
    if a.0 == b.0 && a != b {
      RankInjective(cs, a, b);
    }
  }

  // ----- The loop

  // The lookup tables after the surface keys `ks`.
  ghost predicate Tables(nm: Naming, ks: seq<Key2>, canonLabel: map<Key2, string>, counters: map<string, nat>) {
    var cs := CanonKeys(nm, ks);
    && (forall c :: c in canonLabel <==> c in cs)
    && (forall c :: c in canonLabel ==> canonLabel[c] == LabelFor(nm, cs, c))
    && (forall t :: (if t in counters then counters[t] else 0) == CountType(cs, t))
  }

  lemma CanonKeysSnoc(nm: Naming, ks: seq<Key2>, k: Key2)
    ensures CanonKeys(nm, ks + [k])
            == if CanonKey(nm, k) in CanonKeys(nm, ks) then CanonKeys(nm, ks)
               else CanonKeys(nm, ks) + [CanonKey(nm, k)]
  {
    assert (ks + [k])[..|ks|] == ks;
  }

  lemma CountTypeSnoc(cs: seq<Key2>, c: Key2, t: string)
    ensures CountType(cs + [c], t) == CountType(cs, t) + (if c.0 == t then 1 else 0)
  {
    assert (cs + [c])[..|cs|] == cs;
  }

  lemma TablesAdd(nm: Naming, ks: seq<Key2>, k: Key2, canonLabel: map<Key2, string>, counters: map<string, nat>)
    requires Tables(nm, ks, canonLabel, counters) && CanonKey(nm, k) !in canonLabel
    ensures var c := CanonKey(nm, k);
            var n := (if k.0 in counters then counters[k.0] else 0) + 1;
            && LabelFor(nm, CanonKeys(nm, ks + [k]), c) == LabelText(nm.title(k.0), n)
            && Tables(nm, ks + [k], canonLabel[c := LabelText(nm.title(k.0), n)], counters[k.0 := n])
  {
    hide LabelText, CanonKeys;
    var cs := CanonKeys(nm, ks);
    var c := CanonKey(nm, k);
    CanonKeysSnoc(nm, ks, k);
    assert (cs + [c])[..|cs|] == cs;
    forall t ensures CountType(cs + [c], t) == CountType(cs, t) + (if c.0 == t then 1 else 0) {
      CountTypeSnoc(cs, c, t);
    }
    forall d | d in canonLabel ensures LabelFor(nm, cs + [c], d) == LabelFor(nm, cs, d) {
      RankStable(cs, c, d);
    }
  }

  lemma LabelsKeep(nm: Naming, dets: seq<Detection>, d: Detection)
    requires d.text == "" || SurfaceKey(nm, d) in SurfaceKeys(nm, dets)
    ensures LabelsOf(nm, dets + [d]) == LabelsOf(nm, dets)
  {
    assert (dets + [d])[..|dets|] == dets;
  }

  lemma LabelsAdd(nm: Naming, dets: seq<Detection>, d: Detection)
    requires d.text != "" && SurfaceKey(nm, d) !in SurfaceKeys(nm, dets)
    ensures var ks := SurfaceKeys(nm, dets);
            var k := SurfaceKey(nm, d);
            && SurfaceKeys(nm, dets + [d]) == ks + [k]
            && LabelsOf(nm, dets + [d])
               == LabelsOf(nm, dets) + [LabelEntry(k.0, k.1, LabelFor(nm, CanonKeys(nm, ks + [k]), CanonKey(nm, k)))]
  {
    hide Rank, CountType, LabelText, CanonKeys;
    assert (dets + [d])[..|dets|] == dets;
    var ks := SurfaceKeys(nm, dets);
    var k := SurfaceKey(nm, d);
    CanonKeysCover(nm, ks);
    CanonKeysSnoc(nm, ks, k);
    var cs := CanonKeys(nm, ks);
    forall i | 0 <= i < |ks|
      ensures LabelFor(nm, CanonKeys(nm, ks + [k]), CanonKey(nm, ks[i])) == LabelFor(nm, cs, CanonKey(nm, ks[i]))
    {
      assert ks[i] in ks;
      if CanonKey(nm, k) !in cs {
        RankStable(cs, CanonKey(nm, k), CanonKey(nm, ks[i]));
      }
    }
  }

  predicate HasKey(labels: seq<LabelEntry>, k: Key2) {
    exists i :: 0 <= i < |labels| && (labels[i].typ, labels[i].value) == k
  }

  lemma HasKeyIffSurface(nm: Naming, dets: seq<Detection>, k: Key2)
    ensures HasKey(LabelsOf(nm, dets), k) <==> k in SurfaceKeys(nm, dets)
  {
    var ks, ls := SurfaceKeys(nm, dets), LabelsOf(nm, dets);
    assert forall i :: 0 <= i < |ks| ==> (ls[i].typ, ls[i].value) == ks[i];
    if k in ks {
      var i :| 0 <= i < |ks| && ks[i] == k;
      assert (ls[i].typ, ls[i].value) == k;
    }
  }

  /** The label of a (TYPE, value) pair: keys are unique, so the first match is it. */
  function Lookup(labels: seq<LabelEntry>, k: Key2): string {
    if labels == [] then ""
    else if (labels[0].typ, labels[0].value) == k then labels[0].text
    else Lookup(labels[1..], k)
  }

  /** One label per distinct (TYPE, value): variants of one entity share a label,
      and each type is numbered from 1 in first-appearance order. */
  method BuildLabels(nm: Naming, dets: seq<Detection>) returns (labels: seq<LabelEntry>)
    ensures labels == LabelsOf(nm, dets)
  {
    labels := [];
    var canonLabel: map<Key2, string> := map[];
    var counters: map<string, nat> := map[];
    for i := 0 to |dets|
      invariant labels == LabelsOf(nm, dets[..i])
      invariant Tables(nm, SurfaceKeys(nm, dets[..i]), canonLabel, counters)
    {
      var d := dets[i];
      assert dets[..i + 1] == dets[..i] + [d];
      assert dets[..i + 1][..i] == dets[..i];
      var k := SurfaceKey(nm, d);
      HasKeyIffSurface(nm, dets[..i], k);
      if d.text == "" || HasKey(labels, k) {
        LabelsKeep(nm, dets[..i], d);
        continue;
      }
      var c := CanonKey(nm, k);
      LabelsAdd(nm, dets[..i], d);
      ghost var ks := SurfaceKeys(nm, dets[..i]);
      CanonKeysSnoc(nm, ks, k);
      var text: string;
      if c in canonLabel {
        text := canonLabel[c];
      } else {
        TablesAdd(nm, ks, k, canonLabel, counters);
        var n := (if k.0 in counters then counters[k.0] else 0) + 1;
        counters := counters[k.0 := n];
        text := LabelText(nm.title(k.0), n);
        canonLabel := canonLabel[c := text];
      }
      labels := labels + [LabelEntry(k.0, k.1, text)];
    }
    assert dets[..|dets|] == dets;
  }
}
