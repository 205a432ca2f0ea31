/** What splicing and sweeping cannot promise: inputs that leave a value or the
    tail of a detection in the output, and for which values there are any. */
module SpliceLimits {
  import opened Wrappers
  import opened Strings
  import opened Spans
  import opened Splice

  // ----- Why "cannot overlap itself" is needed

  // A character that `v` does not start with.
  function Other(v: string): char
    requires v != ""
  {
    if v[0] == 'x' then 'y' else 'x'
  }

  function Filler(v: string, k: nat): (f: string)
    requires v != ""
    ensures |f| == k + |v| && forall i :: 0 <= i < |f| ==> f[i] == Other(v)
  {
    seq(k + |v|, _ => Other(v))
  }

  /** The value of a detection that stops short inside the text below. */
  function Bait(v: string, k: nat): string
    requires v != ""
  {
    Filler(v, k) + [v[0]]
  }

  /** A text with two copies of `v` at distance `k` after a filler. */
  function Trap(v: string, k: nat): (t: string)
    requires 0 < k < |v|
    ensures |t| == 2 * |Filler(v, k)|
  {
    Filler(v, k) + (v[..k] + v)
  }

  lemma TrapOccurs(v: string, k: nat)
    requires Bordered(v, k)
    ensures var t, n := Trap(v, k), |Filler(v, k)|;
            && OccursAt(t, v, n) && OccursAt(t, v, n + k)
            && OccursAt(t, Bait(v, k), 0) && t[..n + 1] == Bait(v, k)
            && t[n + k - 1] == v[k - 1]
  {
    var t, f, n := Trap(v, k), Filler(v, k), |Filler(v, k)|;
    assert v == v[..k] + v[k..];
    assert t[n..n + |v|] == v[..k] + v[..|v| - k];
    assert t[n + k..n + k + |v|] == v;
    assert t[0..n + 1] == t[..n + 1] == f + [v[0]];
  }

  lemma NoneInFiller(v: string, k: nat, i: nat)
    requires 0 < k < |v| && i < |Filler(v, k)|
    ensures !OccursAt(Trap(v, k), v, i)
  {
    var t := Trap(v, k);
    assert t[i] == Filler(v, k)[i] != v[0];
    assert i + |v| <= |t| ==> t[i..i + |v|][0] == t[i];
  }

  // A scan whose first hit leaves no room for another.
  lemma OneHit(t: string, v: string, n: nat, lbl: string)
    requires v != "" && OccursAt(t, v, n) && |t| < n + |v| + |v| && forall i :: 0 <= i < n ==> !OccursAt(t, v, i)
    ensures Occurrences(t, v, 0, lbl) == [Span(n, n + |v|, lbl)]
  {
    assert Find(t, v, 0) == Some(n) && Find(t, v, n + |v|) == None;
    hide Find, Occurrences, OccursAt;
    OccurrencesStep(t, v, 0, lbl);
    OccurrencesStep(t, v, n + |v|, lbl);
  }

  /** The scan reports only the first copy, and the bait only at the start. */
  lemma TrapScan(v: string, k: nat, lbl: string)
    requires Bordered(v, k)
    ensures var t, n := Trap(v, k), |Filler(v, k)|;
            && Occurrences(t, v, 0, lbl) == [Span(n, n + |v|, lbl)]
            && Occurrences(t, Bait(v, k), 0, lbl) == [Span(0, n + 1, lbl)]
  {
    hide Occurrences, OccursAt;
    TrapOccurs(v, k);
    forall i | 0 <= i < |Filler(v, k)| ensures !OccursAt(Trap(v, k), v, i) {
      NoneInFiller(v, k, i);
    }
    OneHit(Trap(v, k), v, |Filler(v, k)|, lbl);
    OneHit(Trap(v, k), Bait(v, k), 0, lbl);
  }

  /** The values are the keys of a dictionary. */
  ghost predicate IsDict(byValue: seq<Labelled>) {
    forall i, j :: 0 <= i < j < |byValue| ==> byValue[i].value != byValue[j].value
  }

  /** Every span's own text and label are among the swept values. */
  ghost predicate OwnValues(text: string, spans: seq<Span>, byValue: seq<Labelled>) {
    forall s :: s in spans && Fits(s, |text|) ==> Labelled(text[s.start..s.end], s.lbl) in byValue
  }

  lemma TrapSpans(v: string, k: nat, lbl: string, other: string, s: Span)
    requires Bordered(v, k)
    requires s in RepeatSpans(Trap(v, k), [Labelled(v, lbl), Labelled(Bait(v, k), other)])
    ensures var n := |Filler(v, k)|;
            s == Span(n, n + |v|, lbl) || s == Span(0, n + 1, other)
  {
    var t, w := Trap(v, k), Bait(v, k);
    RepeatSpansSnoc(t, [], Labelled(v, lbl));
    RepeatSpansSnoc(t, [Labelled(v, lbl)], Labelled(w, other));
    assert [] + [Labelled(v, lbl)] == [Labelled(v, lbl)];
    assert [Labelled(v, lbl)] + [Labelled(w, other)] == [Labelled(v, lbl), Labelled(w, other)];
    TrapScan(v, k, lbl);
    TrapScan(v, k, other);
  }

  // One range covers the start and meets every other, so it is alone.
  lemma AloneChosen(c: seq<Span>, size: nat, n: nat, m: nat)
    requires Spaced(c, size) && Inside(0, c) && 0 < n
    requires forall s :: s in c ==> (s.start == 0 && s.end == n + 1) || (s.start == n && s.end == m)
    ensures forall s :: s in c ==> s.start == 0 && s.end == n + 1
  {
    var j :| 0 <= j < |c| && c[j].start <= 0 < c[j].end;
    assert c[j] in c;
    forall s | s in c ensures s.start == 0 && s.end == n + 1 {
      var i :| 0 <= i < |c| && c[i] == s;
      assert Fits(c[i], size);
    }
  }

  lemma OnlyStartChosen(d: Span, repeats: seq<Span>, size: nat, n: nat, m: nat, i: int, j: int)
    requires Fits(d, size) && d.start == 0 && d.end == n + 1 && 0 < n < i
    requires forall s :: s in repeats ==> (s.start == 0 && s.end == n + 1) || (s.start == n && s.end == m)
    ensures Untouched(i, j, Chosen([d] + repeats, size))
  {
    hide Chosen;
    var all := [d] + repeats;
    assert all[0] == d && forall s :: s in all <==> s == d || s in repeats;
    ChosenIsSpaced(all, size);
    ChosenCoversStarts(all, size, d);
    var c := Chosen(all, size);
    AloneChosen(c, size, n, m);
    assert forall k :: 0 <= k < |c| ==> c[k] in c;
  }

  function TrapValues(v: string, k: nat, lbl: string, other: string): seq<Labelled>
    requires v != ""
  {
    [Labelled(v, lbl), Labelled(Bait(v, k), other)]
  }

  lemma TrapIsGenuine(v: string, k: nat, lbl: string, other: string)
    requires Bordered(v, k)
    ensures var d, byValue := Span(0, |Filler(v, k)| + 1, other), TrapValues(v, k, lbl, other);
            IsDict(byValue) && OwnValues(Trap(v, k), [d], byValue) && Labelled(v, lbl) in byValue
  {
    hide Trap, Filler, OccursAt;
    var n, byValue := |Filler(v, k)|, TrapValues(v, k, lbl, other);
    TrapOccurs(v, k);
    hide Trap, Bait, OccursAt;
    assert Trap(v, k)[0..n + 1] == Trap(v, k)[..n + 1] == Bait(v, k);
    assert |Trap(v, k)[..n + 1]| == n + 1;
    assert byValue[1] in byValue && byValue[0] in byValue;
  }

  lemma TrapIsUntouched(v: string, k: nat, lbl: string, other: string)
    requires Bordered(v, k)
    ensures var n := |Filler(v, k)|;
            var c := ContainerSpans(Trap(v, k), [Span(0, n + 1, other)], TrapValues(v, k, lbl, other));
            Untouched(n + k, n + k + |v|, c)
  {
    hide Trap, Filler, Bait, Chosen, RepeatSpans;
    var n, text := |Filler(v, k)|, Trap(v, k);
    var d := Span(0, n + 1, other);
    var repeats := RepeatSpans(text, TrapValues(v, k, lbl, other));
    forall s | s in repeats ensures (s.start == 0 && s.end == n + 1) || (s.start == n && s.end == n + |v|) {
      TrapSpans(v, k, lbl, other, s);
    }
    OnlyStartChosen(d, repeats, |text|, n, n + |v|, n + k, n + k + |v|);
  }

  /** A value that can overlap itself survives: its first occurrence, the only one
      the scan reports, loses against a detection that stops short of the second. */
  lemma BorderedSurvives(v: string, k: nat, lbl: string, other: string)
    returns (text: string, spans: seq<Span>, byValue: seq<Labelled>, i: nat)
    requires Bordered(v, k)
    ensures IsDict(byValue) && OwnValues(text, spans, byValue) && Labelled(v, lbl) in byValue
    ensures OccursAt(text, v, i)
    ensures Untouched(i, i + |v|, ContainerSpans(text, spans, byValue))
  {
    hide Trap, Filler, Bait, TrapValues, ContainerSpans, IsDict, OwnValues, Untouched, OccursAt;
    var n := |Filler(v, k)|;
    text, spans, byValue, i := Trap(v, k), [Span(0, n + 1, other)], TrapValues(v, k, lbl, other), n + k;
    TrapOccurs(v, k);
    TrapIsGenuine(v, k, lbl, other);
    TrapIsUntouched(v, k, lbl, other);
  }

  /** On every text and all detections whose own values are swept too, every
      occurrence of the value meets a replaced range. */
  ghost predicate AlwaysTouched(v: string) {
    forall text, spans, byValue, lbl, i ::
      IsDict(byValue) && OwnValues(text, spans, byValue) && Labelled(v, lbl) in byValue && OccursAt(text, v, i) ==>
        !Untouched(i, i + |v|, ContainerSpans(text, spans, byValue))
  }

  /** A labelled value is always touched exactly when it cannot overlap itself. */
  lemma AlwaysTouchedIffUnbordered(v: string)
    requires v != ""
    ensures AlwaysTouched(v) <==> Unbordered(v)
  {
    if Unbordered(v) {
      forall text, spans, byValue, lbl, i |
        IsDict(byValue) && OwnValues(text, spans, byValue) && Labelled(v, lbl) in byValue && OccursAt(text, v, i)
        ensures !Untouched(i, i + |v|, ContainerSpans(text, spans, byValue))
      {
        var k :| 0 <= k < |byValue| && byValue[k] == Labelled(v, lbl);
        NoValueLeft(text, spans, byValue, k, i);
      }
    } else {
      var k :| 0 < k < |v| && Bordered(v, k);
      var text, spans, byValue, i := BorderedSurvives(v, k, "{{A_1}}", "{{B_1}}");
    }
  }

  // ----- Detections of one value

  /** On every text and all detections whose own values are swept too, every
      character of every detection of the value is replaced. */
  ghost predicate AlwaysRedacted(v: string) {
    forall text, spans, byValue, s ::
      && IsDict(byValue) && OwnValues(text, spans, byValue)
      && s in spans && Fits(s, |text|) && text[s.start..s.end] == v ==>
        Replaced(s, ContainerSpans(text, spans, byValue))
  }

  /** The value after a filler, behind a detection that ends on its first character. */
  function Ambush(v: string): (t: string)
    requires v != ""
    ensures |t| == 1 + 2 * |v|
  {
    Filler(v, 1) + v
  }

  lemma NotInAmbush(v: string, i: nat)
    requires v != "" && i != 1 + |v|
    ensures !OccursAt(Ambush(v), v, i)
  {
    var t := Ambush(v);
    if i < 1 + |v| {
      assert t[i] == Filler(v, 1)[i] != v[0];
      assert t[i..i + |v|][0] == t[i];
    }
  }

  lemma BaitOnlyAtStart(v: string, i: nat)
    requires v != "" && i > 0
    ensures !OccursAt(Ambush(v), Bait(v, 1), i)
  {
    var t, n := Ambush(v), 1 + |v|;
    if i + n < |t| {
      assert t[i..i + n + 1][n - i] == t[n] == v[0];
      assert Bait(v, 1)[n - i] == Filler(v, 1)[n - i];
    }
  }

  function AmbushValues(v: string, lbl: string, other: string): seq<Labelled>
    requires v != ""
  {
    [Labelled(v, lbl), Labelled(Bait(v, 1), other)]
  }

  lemma AmbushSpans(v: string, lbl: string, other: string, s: Span)
    requires v != "" && s in RepeatSpans(Ambush(v), AmbushValues(v, lbl, other))
    ensures (s.start == 0 && s.end == |v| + 2) || (s.start == |v| + 1 && s.end == 2 * |v| + 1)
  {
    var t, w := Ambush(v), Bait(v, 1);
    RepeatSpansSnoc(t, [], Labelled(v, lbl));
    RepeatSpansSnoc(t, [Labelled(v, lbl)], Labelled(w, other));
    assert [] + [Labelled(v, lbl)] == [Labelled(v, lbl)];
    assert [Labelled(v, lbl)] + [Labelled(w, other)] == AmbushValues(v, lbl, other);
    if s in Occurrences(t, v, 0, lbl) {
      HitsOccur(t, v, 0, lbl, s);
      if s.start != 1 + |v| {
        NotInAmbush(v, s.start);
      }
    } else {
      HitsOccur(t, w, 0, other, s);
      if s.start != 0 {
        BaitOnlyAtStart(v, s.start);
      }
    }
  }

  lemma AmbushIsGenuine(v: string, lbl: string, other: string)
    requires |v| >= 2
    ensures var n, byValue := 1 + |v|, AmbushValues(v, lbl, other);
            IsDict(byValue) && OwnValues(Ambush(v), [Span(0, n + 1, other), Span(n, n + |v|, lbl)], byValue)
  {
    var t, n, byValue := Ambush(v), 1 + |v|, AmbushValues(v, lbl, other);
    assert t[0..n + 1] == Bait(v, 1) && t[n..n + |v|] == v;
    assert byValue[0] in byValue && byValue[1] in byValue;
  }

  /** A detection of two or more characters can keep all but its first one. */
  lemma DetectionLosesToEarlier(v: string, lbl: string, other: string)
    returns (text: string, spans: seq<Span>, byValue: seq<Labelled>, s: Span)
    requires |v| >= 2
    ensures IsDict(byValue) && OwnValues(text, spans, byValue)
    ensures s in spans && Fits(s, |text|) && text[s.start..s.end] == v
    ensures Untouched(s.start + 1, s.end, ContainerSpans(text, spans, byValue))
    ensures !Replaced(s, ContainerSpans(text, spans, byValue))
  {
    var n := 1 + |v|;
    var d := Span(0, n + 1, other);
    s := Span(n, n + |v|, lbl);
    text, spans, byValue := Ambush(v), [d, s], AmbushValues(v, lbl, other);
    AmbushIsGenuine(v, lbl, other);
    assert text[n..n + |v|] == v;
    var repeats := RepeatSpans(text, byValue);
    forall u | u in [s] + repeats ensures (u.start == 0 && u.end == n + 1) || (u.start == n && u.end == n + |v|) {
      if u in repeats {
        AmbushSpans(v, lbl, other, u);
      }
    }
    OnlyStartChosen(d, [s] + repeats, |text|, n, n + |v|, n + 1, n + |v|);
    assert [d] + ([s] + repeats) == spans + repeats;
    UntouchedStays(n + 1, s, ContainerSpans(text, spans, byValue));
  }

  lemma UntouchedStays(p: int, s: Span, c: seq<Span>)
    requires s.start <= p < s.end && Untouched(p, s.end, c)
    ensures !Replaced(s, c)
  {
    assert !Inside(p, c);
  }

  /** Every detection of a value is replaced whole, on all inputs, exactly when the
      value is a single character. */
  lemma AlwaysRedactedIffSingle(v: string)
    requires v != ""
    ensures AlwaysRedacted(v) <==> |v| == 1
  {
    if |v| == 1 {
      forall text, spans, byValue, s |
        IsDict(byValue) && OwnValues(text, spans, byValue) && s in spans && Fits(s, |text|) && text[s.start..s.end] == v
        ensures Replaced(s, ContainerSpans(text, spans, byValue))
      {
        DetectedSpansAreHit(text, spans, byValue, s);
        assert s.end == s.start + 1;
      }
    } else {
      var text, spans, byValue, s := DetectionLosesToEarlier(v, "{{A_1}}", "{{B_1}}");
    }
  }
}
