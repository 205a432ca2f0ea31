/** Exactly which characters normalisation deletes, by code point, and what it does
    with spans that do not fit. */
module NormalizeTheorems {
  import opened Normalize

  /** Zero-width space, non-joiner and joiner, word joiner, byte-order mark. */
  predicate Invisible(ch: char) {
    var c := ch as int;
    c == 0x200B || c == 0x200C || c == 0x200D || c == 0x2060 || c == 0xFEFF
  }

  /** Hyphen-minus, hyphen, non-breaking hyphen, figure dash or en dash. */
  predicate Dash(ch: char) {
    ch as int == 0x2D || 0x2010 <= ch as int <= 0x2013
  }

  /** A dash at `h`, spaces and tabs, and a line feed at `j`. */
  ghost predicate Hyphenation(category: char -> Category, text: string, h: nat, j: nat)
    requires h < j < |text|
  {
    && Dash(text[h]) && category(text[h]) != Format && text[j] as int == 0x0A
    && forall k :: h < k < j ==> text[k] as int == 0x20 || text[k] as int == 0x09
  }

  ghost predicate InHyphenation(category: char -> Category, text: string, p: nat) {
    exists h, j :: 0 <= h <= p <= j < |text| && h < j && Hyphenation(category, text, h, j)
  }

  ghost predicate Deleted(category: char -> Category, text: string, p: nat)
    requires p < |text|
  {
    Invisible(text[p]) || category(text[p]) == Format || InHyphenation(category, text, p)
  }

  // No hyphenation runs across position `i`.
  ghost predicate Boundary(category: char -> Category, text: string, i: nat) {
    forall h, j :: 0 <= h < i <= j < |text| ==> !Hyphenation(category, text, h, j)
  }

  lemma HyphenationIsBreak(category: char -> Category, text: string, h: nat, j: nat)
    requires h < j < |text|
    ensures Hyphenation(category, text, h, j) <==> category(text[h]) != Format && BreaksLine(text, h, j)
  {
  }

  lemma StepInvisible(category: char -> Category, text: string, i: nat)
    requires i < |text| && Boundary(category, text, i) && (Invisible(text[i]) || category(text[i]) == Format)
    ensures StepAt(category, text, i) == Drop(i + 1) && Boundary(category, text, i + 1)
  {
  }

  lemma StepHyphenation(category: char -> Category, text: string, i: nat, j: nat)
    requires i < j < |text| && Hyphenation(category, text, i, j)
    ensures StepAt(category, text, i) == Drop(j + 1) && Boundary(category, text, j + 1)
  {
    HyphenationIsBreak(category, text, i, j);
    SkipStopsAt(text, i + 1, j);
    forall h, k | 0 <= h < j + 1 <= k < |text| ensures !Hyphenation(category, text, h, k) {
      if h <= i {
        assert text[j] == '\n' && !Blank(text[j]);
      }
    }
  }

  lemma StepKept(category: char -> Category, text: string, i: nat)
    requires i < |text| && Boundary(category, text, i) && !Deleted(category, text, i)
    ensures StepAt(category, text, i).Keep? && Boundary(category, text, i + 1)
  {
    forall j | i < j < |text| ensures !Hyphenation(category, text, i, j) {
      assert Hyphenation(category, text, i, j) ==> InHyphenation(category, text, i);
    }
    if Hyphen(text[i]) {
      var j := SkipBlanks(text, i + 1);
      if j < |text| && text[j] == '\n' {
        assert BreaksLine(text, i, j);
        HyphenationIsBreak(category, text, i, j);
      }
    }
  }

  ghost predicate KeptAt(ks: seq<Kept>, p: nat) {
    exists k :: 0 <= k < |ks| && ks[k].pos == p
  }

  lemma KeptAtCons(x: Kept, rest: seq<Kept>, p: nat)
    ensures KeptAt([x] + rest, p) <==> x.pos == p || KeptAt(rest, p)
  {
    var ks := [x] + rest;
    if x.pos == p {
      assert ks[0].pos == p;
    }
    if KeptAt(rest, p) {
      var k :| 0 <= k < |rest| && rest[k].pos == p;
      assert ks[k + 1].pos == p;
    }
    if KeptAt(ks, p) && x.pos != p {
      var k :| 0 <= k < |ks| && ks[k].pos == p;
      assert rest[k - 1].pos == p;
    }
  }

  lemma NotKeptBefore(category: char -> Category, text: string, i: nat, p: nat)
    requires p < i <= |text|
    ensures !KeptAt(Scan(category, text, i), p)
  {
    ScanIncreasing(category, text, i);
  }

  lemma {:induction false} KeptFrom(category: char -> Category, text: string, i: nat, p: nat)
    requires i <= p < |text| && Boundary(category, text, i)
    ensures KeptAt(Scan(category, text, i), p) <==> !Deleted(category, text, p)
    decreases |text| - i
  {
    hide StepAt, Scan, KeptAt, Invisible, Hyphenation;
    if Invisible(text[i]) || category(text[i]) == Format {
      StepInvisible(category, text, i);
      DropTo(category, text, i, i + 1, p);
    } else if j :| i < j < |text| && Hyphenation(category, text, i, j) {
      StepHyphenation(category, text, i, j);
      assert p <= j ==> InHyphenation(category, text, p);
      DropTo(category, text, i, j + 1, p);
    } else {
      assert !InHyphenation(category, text, i);
      StepKept(category, text, i);
      KeepStep(category, text, i);
      KeptAtCons(Kept(StepAt(category, text, i).ch, i), Scan(category, text, i + 1), p);
      if i < p {
        KeptFrom(category, text, i + 1, p);
      }
    }
  }

  lemma {:induction false} DropTo(category: char -> Category, text: string, i: nat, next: nat, p: nat)
    requires i < next <= |text| && StepAt(category, text, i) == Drop(next) && Boundary(category, text, next)
    requires i <= p < |text| && (p < next ==> Deleted(category, text, p))
    ensures KeptAt(Scan(category, text, i), p) <==> !Deleted(category, text, p)
    decreases |text| - i, 0
  {
    hide Scan, KeptAt, Deleted;
    DropStep(category, text, i);
    if p < next {
      NotKeptBefore(category, text, next, p);
    } else {
      KeptFrom(category, text, next, p);
    }
  }

  /** A position is kept exactly when its character is visible and it is not part of a
      hyphenation at the end of a line. */
  lemma KeptExactly(category: char -> Category, text: string, p: nat)
    requires p < |text|
    ensures (exists k :: 0 <= k < |Scan(category, text, 0)| && Scan(category, text, 0)[k].pos == p)
            <==> !Deleted(category, text, p)
  {
    hide Deleted, Scan;
    KeptFrom(category, text, 0, p);
    assert KeptAt(Scan(category, text, 0), p)
      <==> exists k :: 0 <= k < |Scan(category, text, 0)| && Scan(category, text, 0)[k].pos == p;
  }
}
