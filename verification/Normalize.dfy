/** Normalising text for detection, with the map that takes detected spans back. */
module Normalize {
  /** The general categories the loop branches on; every other one is `Visible`. */
  datatype Category = Format | Separator | Control | PrivateUse | Surrogate | Unassigned | Visible

  predicate ZeroWidth(c: char) {
    c == '\U{200B}' || c == '\U{200C}' || c == '\U{200D}' || c == '\U{2060}' || c == '\U{FEFF}'
  }

  predicate Hyphen(c: char) {
    c == '-' || c == '\U{2010}' || c == '\U{2011}' || c == '\U{2012}' || c == '\U{2013}'
  }

  predicate Blank(c: char) {
    c == ' ' || c == '\t'
  }

  /** The first position from `j` on that is not a space or tab. */
  function SkipBlanks(text: string, j: nat): (r: nat)
    requires j <= |text|
    ensures j <= r <= |text|
    ensures forall k :: j <= k < r ==> Blank(text[k])
    ensures r < |text| ==> !Blank(text[r])
    decreases |text| - j
  {
    if j < |text| && Blank(text[j]) then SkipBlanks(text, j + 1) else j
  }

  // ----- One step of the loop, and the whole scan

  datatype Step = Keep(ch: char) | Drop(next: nat)

  function StepAt(category: char -> Category, text: string, i: nat): (s: Step)
    requires i < |text|
    ensures s.Drop? ==> i < s.next <= |text|
  {
    var ch := text[i];
    var cat := category(ch);
    if ZeroWidth(ch) || cat == Format then Drop(i + 1)
    else if Hyphen(ch) then
      var j := SkipBlanks(text, i + 1);
      if j < |text| && text[j] == '\n' then Drop(j + 1) else Keep(ch)
    else Keep(Shown(ch, cat))
  }

  /** How a character that is neither deleted nor a hyphen is written. */
  function Shown(ch: char, cat: Category): char {
    if ch == '\n' then '\n'
    else if cat == Separator || ch == '\t' then ' '
    else if cat == Control || cat == PrivateUse || cat == Surrogate || cat == Unassigned then ' '
    else ch
  }

  datatype Kept = Kept(ch: char, pos: nat)

  /** The characters kept from position `i` on, with where they came from. */
  function Scan(category: char -> Category, text: string, i: nat): seq<Kept>
    requires i <= |text|
    decreases |text| - i
  {
    if i == |text| then []
    else
      match StepAt(category, text, i)
      case Keep(ch) => [Kept(ch, i)] + Scan(category, text, i + 1)
      case Drop(next) => Scan(category, text, next)
  }

  function Chars(ks: seq<Kept>): (s: string)
    ensures |s| == |ks| && forall k :: 0 <= k < |ks| ==> s[k] == ks[k].ch
  {
    seq(|ks|, k requires 0 <= k < |ks| => ks[k].ch)
  }

  function Positions(ks: seq<Kept>): (s: seq<nat>)
    ensures |s| == |ks| && forall k :: 0 <= k < |ks| ==> s[k] == ks[k].pos
  {
    seq(|ks|, k requires 0 <= k < |ks| => ks[k].pos)
  }

  lemma KeepStep(category: char -> Category, text: string, i: nat)
    requires i < |text| && StepAt(category, text, i).Keep?
    ensures Scan(category, text, i) == [Kept(StepAt(category, text, i).ch, i)] + Scan(category, text, i + 1)
  {
  }

  lemma DropStep(category: char -> Category, text: string, i: nat)
    requires i < |text| && StepAt(category, text, i).Drop?
    ensures Scan(category, text, i) == Scan(category, text, StepAt(category, text, i).next)
  {
  }

  // Where the loop stands: what was kept, and what is still to come.
  ghost predicate Progress(category: char -> Category, text: string, i: nat, kept: seq<Kept>, norm: string,
      cmap: seq<nat>) {
    && i <= |text|
    && kept + Scan(category, text, i) == Scan(category, text, 0)
    && norm == Chars(kept) && cmap == Positions(kept)
  }

  lemma DropProgress(category: char -> Category, text: string, i: nat, next: nat, kept: seq<Kept>,
      norm: string, cmap: seq<nat>)
    requires Progress(category, text, i, kept, norm, cmap) && i < |text| && StepAt(category, text, i) == Drop(next)
    ensures Progress(category, text, next, kept, norm, cmap)
  {
    DropStep(category, text, i);
  }

  lemma KeepProgress(category: char -> Category, text: string, i: nat, ch: char, kept: seq<Kept>, norm: string,
      cmap: seq<nat>)
    requires Progress(category, text, i, kept, norm, cmap) && i < |text| && StepAt(category, text, i) == Keep(ch)
    ensures Progress(category, text, i + 1, kept + [Kept(ch, i)], norm + [ch], cmap + [i])
  {
    KeepStep(category, text, i);
    Append(kept, Kept(ch, i), Scan(category, text, i + 1));
  }

  method NormalizeForNer(category: char -> Category, text: string) returns (norm: string, cmap: seq<nat>)
    ensures norm == Chars(Scan(category, text, 0))
    ensures cmap == Positions(Scan(category, text, 0))
  {
    norm, cmap := "", [];
    ghost var kept: seq<Kept> := [];
    var n := |text|;
    var i: nat := 0;
    while i < n
      invariant Progress(category, text, i, kept, norm, cmap)
      decreases n - i
    {
      var ch := text[i];
      var cat := category(ch);
      if ZeroWidth(ch) || cat == Format {
        DropProgress(category, text, i, i + 1, kept, norm, cmap);
        i := i + 1;
        continue;
      }
      var shown := Shown(ch, cat);
      if Hyphen(ch) {
        var j := AfterBlanks(text, i + 1);
        if j < n && text[j] == '\n' {
          DropProgress(category, text, i, j + 1, kept, norm, cmap);
          i := j + 1;
          continue;
        }
        shown := ch;
      }
      KeepProgress(category, text, i, shown, kept, norm, cmap);
      kept := kept + [Kept(shown, i)];
      norm := norm + [shown];
      cmap := cmap + [i];
      i := i + 1;
    }
  }

  method AfterBlanks(text: string, start: nat) returns (j: nat)
    requires start <= |text|
    ensures j == SkipBlanks(text, start)
  {
    j := start;
    while j < |text| && Blank(text[j])
      invariant start <= j <= |text| && SkipBlanks(text, j) == SkipBlanks(text, start)
    {
      j := j + 1;
    }
  }

  lemma Append(a: seq<Kept>, x: Kept, rest: seq<Kept>)
    ensures (a + [x]) + rest == a + ([x] + rest)
  {
  }

  // ----- What is deleted and what is kept

  /** A hyphen, blanks and a newline around position `p`. */
  ghost predicate InLineBreak(text: string, p: nat) {
    exists h, j :: 0 <= h <= p <= j < |text| && BreaksLine(text, h, j)
  }

  ghost predicate BreaksLine(text: string, h: nat, j: nat)
    requires h <= j < |text|
  {
    Hyphen(text[h]) && text[j] == '\n' && forall k :: h < k < j ==> Blank(text[k])
  }

  lemma DropReason(category: char -> Category, text: string, i: nat, p: nat)
    requires i < |text| && StepAt(category, text, i).Drop? && i <= p < StepAt(category, text, i).next
    ensures ZeroWidth(text[p]) || category(text[p]) == Format || InLineBreak(text, p)
  {
    var j := StepAt(category, text, i).next - 1;
    if j > i {
      assert BreaksLine(text, i, j);
    }
  }

  /** Only invisible characters and line-break hyphenations are deleted. */
  lemma {:induction false} DroppedIsNoise(category: char -> Category, text: string, i: nat, p: nat)
    requires i <= p < |text| && forall k :: 0 <= k < |Scan(category, text, i)| ==> Scan(category, text, i)[k].pos != p
    ensures ZeroWidth(text[p]) || category(text[p]) == Format || InLineBreak(text, p)
    decreases |text| - i
  {
    var ks := Scan(category, text, i);
    match StepAt(category, text, i)
    case Keep(ch) =>
      KeepStep(category, text, i);
      var rest := Scan(category, text, i + 1);
      assert ks[0].pos == i;
      assert forall k :: 0 <= k < |rest| ==> rest[k] == ks[k + 1];
      DroppedIsNoise(category, text, i + 1, p);
    case Drop(next) =>
      DropStep(category, text, i);
      if p < next {
        DropReason(category, text, i, p);
      } else {
        DroppedIsNoise(category, text, next, p);
      }
  }

  /** A kept character is written as it is, except that spaces, tabs and
      characters without a glyph become a space. */
  lemma {:induction false} KeptIsShown(category: char -> Category, text: string, i: nat, k: nat)
    requires i <= |text| && k < |Scan(category, text, i)|
    ensures var kept := Scan(category, text, i)[k];
            && i <= kept.pos < |text|
            && var ch := text[kept.pos];
               && !ZeroWidth(ch) && category(ch) != Format
               && (kept.ch == ch || (kept.ch == ' ' && ch != '\n' && !Hyphen(ch)))
               && (category(ch) == Visible && ch != '\t' ==> kept.ch == ch)
               && (ch == '\t' ==> kept.ch == ' ')
               && (category(ch) != Visible && ch != '\n' && !Hyphen(ch) ==> kept.ch == ' ')
    decreases |text| - i
  {
    match StepAt(category, text, i)
    case Keep(ch) =>
      KeepStep(category, text, i);
      if k > 0 {
        KeptIsShown(category, text, i + 1, k - 1);
      }
    case Drop(next) =>
      DropStep(category, text, i);
      KeptIsShown(category, text, next, k);
  }

  // ----- A second pass

  /** A character a pass leaves as it is unless it is a line-break hyphen. */
  predicate Settled(category: char -> Category, ch: char) {
    && !ZeroWidth(ch) && category(ch) != Format
    && (ch == '\n' || Hyphen(ch) || Shown(ch, category(ch)) == ch)
  }

  lemma OutputIsSettled(category: char -> Category, text: string, k: nat)
    requires category(' ') == Separator && k < |Scan(category, text, 0)|
    ensures Settled(category, Chars(Scan(category, text, 0))[k])
  {
    KeptIsShown(category, text, 0, k);
  }

  lemma SkipStopsAt(text: string, i: nat, j: nat)
    requires i <= j < |text| && !Blank(text[j]) && forall k :: i <= k < j ==> Blank(text[k])
    ensures SkipBlanks(text, i) == j
  {
  }

  lemma BreakIsDropped(category: char -> Category, text: string, h: nat, j: nat)
    requires h < j < |text| && BreaksLine(text, h, j)
    ensures StepAt(category, text, h).Drop?
  {
    SkipStopsAt(text, h + 1, j);
  }

  lemma SettledIsKept(category: char -> Category, text: string, i: nat)
    requires i < |text| && Settled(category, text[i])
    requires forall j :: i < j < |text| ==> !BreaksLine(text, i, j)
    ensures StepAt(category, text, i) == Keep(text[i])
  {
    var j := SkipBlanks(text, i + 1);
    assert j < |text| && text[j] == '\n' && Hyphen(text[i]) ==> BreaksLine(text, i, j);
  }

  lemma CharsCons(x: Kept, rest: seq<Kept>)
    ensures Chars([x] + rest) == [x.ch] + Chars(rest)
  {
  }

  ghost predicate NoLineBreak(text: string) {
    forall h, j :: 0 <= h < j < |text| ==> !BreaksLine(text, h, j)
  }

  lemma {:induction false} AllKept(category: char -> Category, text: string, i: nat)
    requires i <= |text| && NoLineBreak(text) && forall k :: 0 <= k < |text| ==> Settled(category, text[k])
    ensures Chars(Scan(category, text, i)) == text[i..]
    decreases |text| - i
  {
    hide StepAt, Settled, BreaksLine;
    if i < |text| {
      SettledIsKept(category, text, i);
      KeepStep(category, text, i);
      AllKept(category, text, i + 1);
      CharsCons(Kept(text[i], i), Scan(category, text, i + 1));
      assert text[i..] == [text[i]] + text[i + 1..];
    }
  }

  lemma {:induction false} AllPositions(ks: seq<Kept>, n: nat, k: nat)
    requires Increasing(ks, 0, n) && |ks| == n && k < n
    ensures ks[k].pos == k
  {
    AtLeast(ks, n, k);
    AtMost(ks, n, k);
  }

  lemma {:induction false} AtLeast(ks: seq<Kept>, n: nat, k: nat)
    requires Increasing(ks, 0, n) && k < |ks|
    ensures k <= ks[k].pos
  {
    if k > 0 {
      AtLeast(ks, n, k - 1);
    }
  }

  lemma {:induction false} AtMost(ks: seq<Kept>, n: nat, k: nat)
    requires Increasing(ks, 0, n) && |ks| == n && k < n
    ensures ks[k].pos <= k
    decreases n - k
  {
    if k < n - 1 {
      AtMost(ks, n, k + 1);
    }
  }

  lemma KeptStep(category: char -> Category, text: string, k: nat)
    requires k < |Scan(category, text, 0)|
    ensures Scan(category, text, 0)[k].pos < |text| && StepAt(category, text, Scan(category, text, 0)[k].pos).Keep?
  {
    ScanFromKept(category, text, 0, k);
    var p := Scan(category, text, 0)[k].pos;
    if StepAt(category, text, p).Drop? {
      var next := StepAt(category, text, p).next;
      DropStep(category, text, p);
      ScanIncreasing(category, text, next);
      assert Scan(category, text, p)[0].pos == p;
    }
  }

  lemma FullLengthHasNoBreak(category: char -> Category, text: string)
    requires |Scan(category, text, 0)| == |text|
    ensures NoLineBreak(text)
  {
    var ks := Scan(category, text, 0);
    ScanIncreasing(category, text, 0);
    forall h, j | 0 <= h < j < |text| ensures !BreaksLine(text, h, j) {
      AllPositions(ks, |text|, h);
      KeptStep(category, text, h);
      if BreaksLine(text, h, j) {
        BreakIsDropped(category, text, h, j);
      }
    }
  }

  /** A second pass changes nothing exactly when the first one's output has no
      hyphen, blanks and newline in a row. */
  lemma SecondPassIffNoBreak(category: char -> Category, text: string)
    requires category(' ') == Separator
    ensures var once := Chars(Scan(category, text, 0));
            Chars(Scan(category, once, 0)) == once <==> NoLineBreak(once)
  {
    var once := Chars(Scan(category, text, 0));
    forall k | 0 <= k < |once| ensures Settled(category, once[k]) {
      OutputIsSettled(category, text, k);
    }
    if NoLineBreak(once) {
      AllKept(category, once, 0);
    }
    if Chars(Scan(category, once, 0)) == once {
      FullLengthHasNoBreak(category, once);
    }
  }

  /** A hyphen, a no-break space and a newline become a hyphen, a space and a
      newline, which the next pass deletes. */
  lemma SecondPassExample(category: char -> Category)
    requires category('-') == Visible && category('\U{00A0}') == Separator && category('\n') == Control
    requires category(' ') == Separator
    ensures Chars(Scan(category, ['-', '\U{00A0}', '\n'], 0)) == "- \n"
    ensures Chars(Scan(category, "- \n", 0)) == ""
  {
    var t := ['-', '\U{00A0}', '\n'];
    assert SkipBlanks(t, 1) == 1;
    KeepStep(category, t, 0);
    KeepStep(category, t, 1);
    KeepStep(category, t, 2);
    assert Scan(category, t, 3) == [];
    assert Scan(category, t, 0) == [Kept('-', 0), Kept(' ', 1), Kept('\n', 2)];
    SkipStopsAt("- \n", 1, 2);
    DropStep(category, "- \n", 0);
    assert Scan(category, "- \n", 3) == [];
  }

  // ----- The map back

  function RemapSpan(cmap: seq<nat>, ns: int, ne: int, origLen: nat): (int, int) {
    if cmap == [] then (0, 0)
    else
      var s := ClampStart(cmap, ns);
      var e := ClampEnd(cmap, ns, ne);
      (cmap[s], if cmap[e - 1] + 1 <= origLen then cmap[e - 1] + 1 else origLen)
  }

  function ClampStart(cmap: seq<nat>, ns: int): (s: nat)
    requires cmap != []
    ensures s < |cmap| && (0 <= ns < |cmap| ==> s == ns)
  {
    var low := if ns < |cmap| - 1 then ns else |cmap| - 1;
    if low > 0 then low else 0
  }

  function ClampEnd(cmap: seq<nat>, ns: int, ne: int): (e: nat)
    requires cmap != []
    ensures ClampStart(cmap, ns) < e <= |cmap|
    ensures ClampStart(cmap, ns) < ne <= |cmap| ==> e == ne
  {
    var s := ClampStart(cmap, ns);
    var low := if ne < |cmap| then ne else |cmap|;
    if s + 1 > low then s + 1 else low
  }

  ghost predicate Increasing(ks: seq<Kept>, from: nat, to: nat) {
    && (forall k :: 0 <= k < |ks| ==> from <= ks[k].pos < to)
    && (forall j, k :: 0 <= j < k < |ks| ==> ks[j].pos < ks[k].pos)
  }

  /** The map is strictly increasing and stays inside the text. */
  lemma {:induction false} ScanIncreasing(category: char -> Category, text: string, i: nat)
    requires i <= |text|
    ensures Increasing(Scan(category, text, i), i, |text|)
    decreases |text| - i
  {
    if i < |text| {
      match StepAt(category, text, i)
      case Keep(ch) =>
        KeepStep(category, text, i);
        ScanIncreasing(category, text, i + 1);
      case Drop(next) =>
        DropStep(category, text, i);
        ScanIncreasing(category, text, next);
    }
  }

  // The range [a, b) holds the kept characters ns .. ne.
  ghost predicate Holds(a: int, b: int, ks: seq<Kept>, ns: nat, ne: nat)
    requires ne <= |ks|
  {
    forall k :: ns <= k < ne ==> a <= ks[k].pos < b
  }

  ghost predicate Exact(ks: seq<Kept>, n: nat, ns: nat, ne: nat, os: int, oe: int)
    requires ns < ne <= |ks|
  {
    && 0 <= os < oe <= n
    && Holds(os, oe, ks, ns, ne)
    && (forall k :: 0 <= k < |ks| && os <= ks[k].pos < oe ==> ns <= k < ne)
    && (forall a, b :: Holds(a, b, ks, ns, ne) ==> a <= os && oe <= b)
  }

  lemma RemapExactOn(ks: seq<Kept>, n: nat, ns: nat, ne: nat)
    requires Increasing(ks, 0, n) && ns < ne <= |ks|
    ensures RemapSpan(Positions(ks), ns, ne, n) == (ks[ns].pos, ks[ne - 1].pos + 1)
    ensures Exact(ks, n, ns, ne, ks[ns].pos, ks[ne - 1].pos + 1)
  {
  }

  /** A non-empty span maps to the smallest original range holding its kept
      characters, and that range holds no other kept character. */
  lemma RemapIsExact(category: char -> Category, text: string, ns: nat, ne: nat)
    requires ns < ne <= |Scan(category, text, 0)|
    ensures var ks := Scan(category, text, 0);
            var (os, oe) := RemapSpan(Positions(ks), ns, ne, |text|);
            Exact(ks, |text|, ns, ne, os, oe)
  {
    ScanIncreasing(category, text, 0);
    RemapExactOn(Scan(category, text, 0), |text|, ns, ne);
  }

  /** Disjoint spans map to disjoint ranges, in the same order. */
  lemma RemapKeepsDisjoint(category: char -> Category, text: string, a: nat, b: nat, c: nat, d: nat)
    requires a < b <= c < d <= |Scan(category, text, 0)|
    ensures var cmap := Positions(Scan(category, text, 0));
            RemapSpan(cmap, a, b, |text|).1 <= RemapSpan(cmap, c, d, |text|).0
  {
    ScanIncreasing(category, text, 0);
  }

  lemma ClampIsSpan(cmap: seq<nat>, ns: int, ne: int, n: nat)
    requires cmap != []
    ensures RemapSpan(cmap, ns, ne, n) == RemapSpan(cmap, ClampStart(cmap, ns), ClampEnd(cmap, ns, ne), n)
  {
  }

  /** Of a text with nothing kept every span maps to nothing. Otherwise the start is
      moved into the normalised text and the end past the start and into the text;
      the result is the exact range of that span. */
  lemma RemapClamps(category: char -> Category, text: string, ns: int, ne: int)
    ensures var ks := Scan(category, text, 0);
            if ks == [] then RemapSpan(Positions(ks), ns, ne, |text|) == (0, 0)
            else
              var s := if ns < 0 then 0 else if ns < |ks| then ns else |ks| - 1;
              var e := if ne <= s then s + 1 else if ne < |ks| then ne else |ks|;
              var (os, oe) := RemapSpan(Positions(ks), ns, ne, |text|);
              Exact(ks, |text|, s, e, os, oe)
  {
    hide Scan, Exact;
    var ks := Scan(category, text, 0);
    if ks != [] {
      var cmap := Positions(ks);
      var s, e := ClampStart(cmap, ns), ClampEnd(cmap, ns, ne);
      ClampIsSpan(cmap, ns, ne, |text|);
      RemapIsExact(category, text, s, e);
    }
  }

  // ----- Normalising the original slice alone

  function Shift(ks: seq<Kept>, base: nat): (r: seq<Kept>)
    requires forall k :: 0 <= k < |ks| ==> base <= ks[k].pos
    ensures |r| == |ks| && forall k :: 0 <= k < |ks| ==> r[k] == Kept(ks[k].ch, ks[k].pos - base)
  {
    seq(|ks|, k requires 0 <= k < |ks| => Kept(ks[k].ch, ks[k].pos - base))
  }

  lemma {:induction false} SkipInSlice(text: string, os: nat, oe: nat, j: nat)
    requires os <= j <= oe <= |text|
    ensures SkipBlanks(text[os..oe], j - os) == (if SkipBlanks(text, j) < oe then SkipBlanks(text, j) else oe) - os
    decreases |text| - j
  {
    if j < oe && Blank(text[j]) {
      assert text[os..oe][j - os] == text[j];
      SkipInSlice(text, os, oe, j + 1);
    }
  }

  // A slice makes the same decision where its end does not cut the lookahead.
  lemma StepInSlice(category: char -> Category, text: string, os: nat, oe: nat, i: nat)
    requires os <= i < oe <= |text|
    requires StepAt(category, text, i).Drop? ==> StepAt(category, text, i).next <= oe
    ensures StepAt(category, text[os..oe], i - os)
            == match StepAt(category, text, i)
               case Keep(ch) => Keep(ch)
               case Drop(next) => Drop(next - os)
  {
    var slice := text[os..oe];
    assert slice[i - os] == text[i];
    SkipInSlice(text, os, oe, i + 1);
    var j := SkipBlanks(text, i + 1);
    assert j < oe ==> slice[j - os] == text[j];
  }

  lemma ShiftCons(x: Kept, rest: seq<Kept>, base: nat)
    requires base <= x.pos && forall k :: 0 <= k < |rest| ==> base <= rest[k].pos
    ensures (forall k :: 0 <= k < |[x] + rest| ==> base <= ([x] + rest)[k].pos)
    ensures Shift([x] + rest, base) == [Kept(x.ch, x.pos - base)] + Shift(rest, base)
  {
  }

  // The kept characters of the slice, as those of the text up to its last one.
  ghost predicate SliceScan(category: char -> Category, text: string, os: nat, oe: nat, i: nat, ks: seq<Kept>)
    requires os <= i <= oe <= |text|
  {
    && (forall k :: 0 <= k < |ks| ==> os <= ks[k].pos)
    && Scan(category, text[os..oe], i - os) == Shift(ks, os)
  }

  lemma SliceKeeps(category: char -> Category, text: string, os: nat, oe: nat, i: nat, rest: seq<Kept>)
    requires os <= i < oe <= |text| && StepAt(category, text, i).Keep?
    requires SliceScan(category, text, os, oe, i + 1, rest)
    ensures SliceScan(category, text, os, oe, i, [Kept(StepAt(category, text, i).ch, i)] + rest)
  {
    StepInSlice(category, text, os, oe, i);
    KeepStep(category, text[os..oe], i - os);
    ShiftCons(Kept(StepAt(category, text, i).ch, i), rest, os);
  }

  lemma SliceDrops(category: char -> Category, text: string, os: nat, oe: nat, i: nat, next: nat, rest: seq<Kept>)
    requires os <= i < next <= oe <= |text| && StepAt(category, text, i) == Drop(next)
    requires SliceScan(category, text, os, oe, next, rest)
    ensures SliceScan(category, text, os, oe, i, rest)
  {
    StepInSlice(category, text, os, oe, i);
    DropStep(category, text[os..oe], i - os);
  }

  // Scanning the slice up to a kept last character is scanning the text up to it.
  lemma {:induction false} ScanInSlice(category: char -> Category, text: string, os: nat, oe: nat, i: nat, m: nat)
    requires os <= i < oe <= |text|
    requires m < |Scan(category, text, i)| && Scan(category, text, i)[m].pos == oe - 1
    ensures SliceScan(category, text, os, oe, i, Scan(category, text, i)[..m + 1])
    decreases |text| - i
  {
    var ks := Scan(category, text, i);
    match StepAt(category, text, i)
    case Drop(next) =>
      DropStep(category, text, i);
      ScanIncreasing(category, text, next);
      ScanInSlice(category, text, os, oe, next, m);
      SliceDrops(category, text, os, oe, i, next, ks[..m + 1]);
    case Keep(ch) =>
      KeepStep(category, text, i);
      var rest := Scan(category, text, i + 1);
      if m > 0 {
        ScanIncreasing(category, text, i + 1);
        assert rest[m - 1] == ks[m];
        ScanInSlice(category, text, os, oe, i + 1, m - 1);
      }
      assert ks[..m + 1] == [ks[0]] + rest[..m];
      SliceKeeps(category, text, os, oe, i, rest[..m]);
  }

  lemma {:induction false} ScanFromKept(category: char -> Category, text: string, i: nat, m: nat)
    requires i <= |text| && m < |Scan(category, text, i)|
    ensures Scan(category, text, i)[m].pos < |text|
    ensures Scan(category, text, i)[m..] == Scan(category, text, Scan(category, text, i)[m].pos)
    decreases |text| - i
  {
    var ks := Scan(category, text, i);
    match StepAt(category, text, i)
    case Drop(next) =>
      DropStep(category, text, i);
      ScanFromKept(category, text, next, m);
    case Keep(ch) =>
      KeepStep(category, text, i);
      if m > 0 {
        var rest := Scan(category, text, i + 1);
        assert ks[m] == rest[m - 1] && ks[m..] == rest[m - 1..];
        ScanFromKept(category, text, i + 1, m - 1);
      } else {
        assert ks[0..] == ks;
      }
  }

  /** Normalising the original slice of a span gives back exactly the span,
      although the line-break rule looks ahead past single characters. */
  lemma SliceNormalizesToSpan(category: char -> Category, text: string, ns: nat, ne: nat)
    requires ns < ne <= |Scan(category, text, 0)|
    ensures var ks := Scan(category, text, 0);
            var (os, oe) := RemapSpan(Positions(ks), ns, ne, |text|);
            && 0 <= os <= oe <= |text|
            && SliceScan(category, text, os, oe, os, ks[ns..ne])
            && Chars(Scan(category, text[os..oe], 0)) == Chars(ks)[ns..ne]
  {
    hide Scan, StepAt;
    var ks := Scan(category, text, 0);
    ScanIncreasing(category, text, 0);
    RemapExactOn(ks, |text|, ns, ne);
    var os, oe := ks[ns].pos, ks[ne - 1].pos + 1;
    SliceScanOfSpan(category, text, ns, ne);
    CharsOfShift(ks, ns, ne, os);
  }

  lemma SliceScanOfSpan(category: char -> Category, text: string, ns: nat, ne: nat)
    requires ns < ne <= |Scan(category, text, 0)| && Increasing(Scan(category, text, 0), 0, |text|)
    ensures var ks := Scan(category, text, 0);
            && ks[ns].pos < ks[ne - 1].pos + 1 <= |text|
            && SliceScan(category, text, ks[ns].pos, ks[ne - 1].pos + 1, ks[ns].pos, ks[ns..ne])
  {
    hide Scan, StepAt;
    var ks := Scan(category, text, 0);
    ScanFromKept(category, text, 0, ns);
    var tail := ks[ns..];
    assert tail[ne - 1 - ns] == ks[ne - 1];
    ScanInSlice(category, text, ks[ns].pos, ks[ne - 1].pos + 1, ks[ns].pos, ne - 1 - ns);
    assert tail[..ne - ns] == ks[ns..ne];
  }

  lemma CharsOfShift(ks: seq<Kept>, ns: nat, ne: nat, base: nat)
    requires ns <= ne <= |ks| && forall k :: 0 <= k < ne - ns ==> base <= ks[ns..ne][k].pos
    ensures Chars(Shift(ks[ns..ne], base)) == Chars(ks)[ns..ne]
  {
  }
}
