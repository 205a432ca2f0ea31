/** The placeholders as a reader of the document sees them: which values get one,
    in which order, and with which number. */
module LabelTheorems {
  import opened Digits
  import opened Labels

  // ----- Which values are labelled, and in which order

  /** Detection `d` is of this entry's type and text. */
  predicate Names(nm: Naming, e: LabelEntry, d: Detection) {
    d.text != "" && e.typ == nm.upper(d.entityType) && e.value == d.text
  }

  /** The detection at `p` is the first one the entry names. */
  ghost predicate FirstAt(nm: Naming, dets: seq<Detection>, e: LabelEntry, p: nat) {
    p < |dets| && Names(nm, e, dets[p]) && forall q :: 0 <= q < p ==> !Names(nm, e, dets[q])
  }

  lemma EntryIsKey(nm: Naming, dets: seq<Detection>, i: nat)
    requires i < |LabelsOf(nm, dets)|
    ensures var e := LabelsOf(nm, dets)[i];
            (e.typ, e.value) == SurfaceKeys(nm, dets)[i]
  {
  }

  lemma {:induction false} KeyFirstAt(nm: Naming, dets: seq<Detection>, i: nat) returns (p: nat)
    requires i < |SurfaceKeys(nm, dets)|
    ensures p < |dets| && dets[p].text != "" && SurfaceKey(nm, dets[p]) == SurfaceKeys(nm, dets)[i]
    ensures forall q :: 0 <= q < p ==> dets[q].text == "" || SurfaceKey(nm, dets[q]) != SurfaceKeys(nm, dets)[i]
    ensures SurfaceKeys(nm, dets[..p]) == SurfaceKeys(nm, dets)[..i]
  {
    var n := |dets| - 1;
    var ks := SurfaceKeys(nm, dets[..n]);
    if i < |ks| {
      p := KeyFirstAt(nm, dets[..n], i);
      assert dets[..n][..p] == dets[..p];
    } else {
      p := n;
      SurfaceKeysCover(nm, dets[..n]);
      forall q | 0 <= q < p ensures dets[q].text == "" || SurfaceKey(nm, dets[q]) != SurfaceKeys(nm, dets)[i] {
        assert dets[..n][q] == dets[q];
      }
    }
  }

  /** Entries stand in the order in which their values first appear. */
  lemma EntriesInFirstAppearanceOrder(nm: Naming, dets: seq<Detection>, i: nat, j: nat) returns (p: nat, q: nat)
    requires i < j < |LabelsOf(nm, dets)|
    ensures FirstAt(nm, dets, LabelsOf(nm, dets)[i], p) && FirstAt(nm, dets, LabelsOf(nm, dets)[j], q) && p < q
  {
    hide LabelsOf, SurfaceKeys;
    EntryIsKey(nm, dets, i);
    EntryIsKey(nm, dets, j);
    p := KeyFirstAt(nm, dets, i);
    q := KeyFirstAt(nm, dets, j);
    SurfaceKeysCover(nm, dets[..q]);
    SurfaceKeysCover(nm, dets);
    var k := SurfaceKeys(nm, dets)[i];
    assert k == SurfaceKeys(nm, dets[..q])[i];
    assert k in SurfaceKeys(nm, dets[..q]);
    var d :| d in dets[..q] && d.text != "" && SurfaceKey(nm, d) == k;
    var r :| 0 <= r < q && dets[r] == d;
  }

  /** Exactly the values of the detections with a text are labelled, each once. */
  lemma EntryPerValue(nm: Naming, dets: seq<Detection>)
    ensures forall d :: d in dets && d.text != "" ==>
              exists i :: 0 <= i < |LabelsOf(nm, dets)| && Names(nm, LabelsOf(nm, dets)[i], d)
    ensures forall e :: e in LabelsOf(nm, dets) ==> exists d :: d in dets && Names(nm, e, d)
    ensures forall i, j :: 0 <= i < j < |LabelsOf(nm, dets)| ==>
              LabelsOf(nm, dets)[i].typ != LabelsOf(nm, dets)[j].typ
              || LabelsOf(nm, dets)[i].value != LabelsOf(nm, dets)[j].value
  {
    hide LabelsOf, SurfaceKeys;
    var ls, ks := LabelsOf(nm, dets), SurfaceKeys(nm, dets);
    SurfaceKeysCover(nm, dets);
    forall i | 0 <= i < |ls| ensures (ls[i].typ, ls[i].value) == ks[i] {
      EntryIsKey(nm, dets, i);
    }
    forall d | d in dets && d.text != "" ensures exists i :: 0 <= i < |ls| && Names(nm, ls[i], d) {
      assert SurfaceKey(nm, d) in ks;
      var i :| 0 <= i < |ks| && ks[i] == SurfaceKey(nm, d);
      assert Names(nm, ls[i], d);
    }
    forall e | e in ls ensures exists d :: d in dets && Names(nm, e, d) {
      assert (e.typ, e.value) in ks;
      var d :| d in dets && d.text != "" && SurfaceKey(nm, d) == (e.typ, e.value);
      assert Names(nm, e, d);
    }
  }

  // ----- The numbers

  /** The entities of a type among the first `n` entries. */
  ghost function Entities(nm: Naming, ls: seq<LabelEntry>, n: nat, typ: string): set<string>
    requires n <= |ls|
  {
    set i | 0 <= i < n && ls[i].typ == typ :: nm.canonical(typ, ls[i].value)
  }

  lemma {:induction false} CountIsEntities(nm: Naming, ls: seq<LabelEntry>, ks: seq<Key2>, n: nat, typ: string)
    requires |ls| == |ks| && n <= |ks| && forall i :: 0 <= i < |ks| ==> (ls[i].typ, ls[i].value) == ks[i]
    ensures CountType(CanonKeys(nm, ks[..n]), typ) == |Entities(nm, ls, n, typ)|
    ensures forall v :: v in Entities(nm, ls, n, typ) <==> (typ, v) in CanonKeys(nm, ks[..n])
  {
    if n == 0 {
      assert Entities(nm, ls, 0, typ) == {};
    } else {
      hide CountType;
      CountIsEntities(nm, ls, ks, n - 1, typ);
      var cs, c := CanonKeys(nm, ks[..n - 1]), CanonKey(nm, ks[n - 1]);
      assert ks[..n] == ks[..n - 1] + [ks[n - 1]];
      CanonKeysSnoc(nm, ks[..n - 1], ks[n - 1]);
      CountTypeSnoc(cs, c, typ);
      var before := Entities(nm, ls, n - 1, typ);
      EntitiesSnoc(nm, ls, n, typ);
      if ks[n - 1].0 == typ {
        assert c.1 in before <==> c in cs;
      }
    }
  }

  lemma EntitiesSnoc(nm: Naming, ls: seq<LabelEntry>, n: nat, typ: string)
    requires 0 < n <= |ls|
    ensures Entities(nm, ls, n, typ)
            == Entities(nm, ls, n - 1, typ)
               + (if ls[n - 1].typ == typ then {nm.canonical(typ, ls[n - 1].value)} else {})
  {
  }

  lemma {:induction false} RankWhenAdded(nm: Naming, ks: seq<Key2>, i: nat, n: nat)
    requires i < n <= |ks| && CanonKey(nm, ks[i]) !in CanonKeys(nm, ks[..i])
    ensures CanonKey(nm, ks[i]) in CanonKeys(nm, ks[..n])
    ensures Rank(CanonKeys(nm, ks[..n]), CanonKey(nm, ks[i])) == CountType(CanonKeys(nm, ks[..i + 1]), ks[i].0)
  {
    hide CanonKeys, CountType;
    assert ks[..n] == ks[..n - 1] + [ks[n - 1]];
    CanonKeysSnoc(nm, ks[..n - 1], ks[n - 1]);
    var cs, c := CanonKeys(nm, ks[..n - 1]), CanonKey(nm, ks[i]);
    if n == i + 1 {
      assert (cs + [c])[..|cs|] == cs;
    } else {
      RankWhenAdded(nm, ks, i, n - 1);
      if CanonKey(nm, ks[n - 1]) !in cs {
        RankStable(cs, CanonKey(nm, ks[n - 1]), c);
      }
    }
  }

  /** An entry whose entity is new gets the next number of its type: the count of the
      type's entities so far, itself included. */
  lemma NewEntityGetsNextNumber(nm: Naming, dets: seq<Detection>, i: nat)
    requires i < |LabelsOf(nm, dets)|
    requires var ls := LabelsOf(nm, dets);
             nm.canonical(ls[i].typ, ls[i].value) !in Entities(nm, ls, i, ls[i].typ)
    ensures var ls := LabelsOf(nm, dets);
            ls[i].text
            == "{{" + (nm.title(ls[i].typ) + "_" + Decimal(|Entities(nm, ls, i, ls[i].typ)| + 1)) + "}}"
  {
    hide CanonKeys, Rank, CountType, Entities, SurfaceKeys;
    var ls, ks := LabelsOf(nm, dets), SurfaceKeys(nm, dets);
    CountIsEntities(nm, ls, ks, i, ls[i].typ);
    CountIsEntities(nm, ls, ks, i + 1, ls[i].typ);
    EntitiesSnoc(nm, ls, i + 1, ls[i].typ);
    RankWhenAdded(nm, ks, i, |ks|);
    assert ks[..|ks|] == ks;
  }

  /** An entry whose entity has been seen repeats the earlier entry's placeholder. */
  lemma SeenEntityKeepsPlaceholder(nm: Naming, dets: seq<Detection>, i: nat, j: nat)
    requires i < j < |LabelsOf(nm, dets)|
    requires var a, b := LabelsOf(nm, dets)[i], LabelsOf(nm, dets)[j];
             a.typ == b.typ && nm.canonical(a.typ, a.value) == nm.canonical(b.typ, b.value)
    ensures LabelsOf(nm, dets)[i].text == LabelsOf(nm, dets)[j].text
  {
    SameLabelIffSameEntity(nm, dets, i, j);
  }

  // ----- Finding a label

  lemma {:induction false} LookupIsEntry(ls: seq<LabelEntry>, i: nat)
    requires i < |ls|
    requires forall j :: 0 <= j < i ==> ls[j].typ != ls[i].typ || ls[j].value != ls[i].value
    ensures Lookup(ls, (ls[i].typ, ls[i].value)) == ls[i].text
  {
    if i > 0 {
      LookupIsEntry(ls[1..], i - 1);
    }
  }

  lemma {:induction false} LookupMisses(ls: seq<LabelEntry>, k: Key2)
    requires forall i :: 0 <= i < |ls| ==> ls[i].typ != k.0 || ls[i].value != k.1
    ensures Lookup(ls, k) == ""
  {
    if ls != [] {
      LookupMisses(ls[1..], k);
    }
  }

  /** A detection is shown under the placeholder of its own type and text, and under
      none when it has no text. */
  lemma DetectionFindsItsLabel(nm: Naming, dets: seq<Detection>, d: Detection)
    requires d in dets
    ensures var found := Lookup(LabelsOf(nm, dets), (nm.upper(d.entityType), d.text));
            if d.text == "" then found == ""
            else exists i :: 0 <= i < |LabelsOf(nm, dets)| && Names(nm, LabelsOf(nm, dets)[i], d)
                             && LabelsOf(nm, dets)[i].text == found
  {
    hide LabelsOf, Lookup;
    var ls := LabelsOf(nm, dets);
    EntryPerValue(nm, dets);
    if d.text == "" {
      forall i | 0 <= i < |ls| ensures ls[i].value != "" {
        assert ls[i] in ls;
        var e :| e in dets && Names(nm, ls[i], e);
      }
      LookupMisses(ls, (nm.upper(d.entityType), d.text));
    } else {
      var i :| 0 <= i < |ls| && Names(nm, ls[i], d);
      LookupIsEntry(ls, i);
    }
  }
}
