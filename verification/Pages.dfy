/** Pages joined into one document, and its detections taken back to the pages. */
module Pages {
  import opened Wrappers
  import opened Utf8
  import opened Labels

  // ----- Joining

  /** The pages joined with the separator between them. */
  function Joined(pages: seq<string>, sep: string): string {
    if pages == [] then ""
    else if |pages| == 1 then pages[0]
    else Joined(pages[..|pages| - 1], sep) + sep + pages[|pages| - 1]
  }

  /** The text in front of page `i`. */
  function Before(pages: seq<string>, sep: string, i: nat): string
    requires i < |pages|
  {
    if i == 0 then "" else Joined(pages[..i], sep) + sep
  }

  function Offsets(pages: seq<string>, sep: string): (os: seq<nat>)
    ensures |os| == |pages| && forall i :: 0 <= i < |pages| ==> os[i] == Width(Before(pages, sep, i))
  {
    seq(|pages|, i requires 0 <= i < |pages| => Width(Before(pages, sep, i)))
  }

  function Widths(pages: seq<string>): (ws: seq<nat>)
    ensures |ws| == |pages| && forall i :: 0 <= i < |pages| ==> ws[i] == Width(pages[i])
  {
    seq(|pages|, i requires 0 <= i < |pages| => Width(pages[i]))
  }

  lemma JoinedStep(pages: seq<string>, sep: string, i: nat)
    requires i < |pages|
    ensures Joined(pages[..i + 1], sep) == Before(pages, sep, i) + pages[i]
  {
    var front := pages[..i + 1];
    assert front[|front| - 1] == pages[i] && front[..|front| - 1] == pages[..i];
    if i == 0 {
      assert "" + pages[0] == pages[0];
    }
  }

  lemma BeforePrefix(pages: seq<string>, sep: string, i: nat, n: nat)
    requires i < n <= |pages|
    ensures Before(pages[..n], sep, i) == Before(pages, sep, i)
  {
    assert pages[..n][..i] == pages[..i];
  }

  // The text and offsets after the first `i` pages.
  ghost predicate Assembled(pages: seq<string>, sep: string, i: nat, text: string, offsets: seq<nat>) {
    && i <= |pages| && text == Joined(pages[..i], sep) && |offsets| == i
    && forall k :: 0 <= k < i ==> offsets[k] == Width(Before(pages, sep, k))
  }

  lemma AssembleNext(pages: seq<string>, sep: string, i: nat, text: string, offsets: seq<nat>)
    requires Assembled(pages, sep, i, text, offsets) && i < |pages|
    ensures var front := if i > 0 then text + sep else text;
            Assembled(pages, sep, i + 1, front + pages[i], offsets + [Width(front)])
  {
    hide Width;
    JoinedStep(pages, sep, i);
  }

  method AssemblePages(pages: seq<string>, sep: string) returns (text: string, offsets: seq<nat>)
    ensures text == Joined(pages, sep)
    ensures offsets == Offsets(pages, sep)
  {
    text, offsets := "", [];
    var running := 0;
    assert Width("") == 0;
    for i := 0 to |pages|
      invariant Assembled(pages, sep, i, text, offsets) && running == Width(text)
    {
      hide Encode, Joined, Before;
      AssembleNext(pages, sep, i, text, offsets);
      if i > 0 {
        WidthConcat(text, sep);
        text := text + sep;
        running := running + Width(sep);
      }
      offsets := offsets + [running];
      WidthConcat(text, pages[i]);
      text := text + pages[i];
      running := running + Width(pages[i]);
    }
    assert pages[..|pages|] == pages;
  }

  lemma Regroup(b: string, p: string, r: string, s: string, q: string)
    ensures (b + (p + r)) + s + q == b + (p + (r + s + q))
  {
  }

  /** Every page sits in the document where its offset says. */
  lemma {:induction false} PageInDocument(pages: seq<string>, sep: string, i: nat) returns (rest: string)
    requires i < |pages|
    ensures Joined(pages, sep) == Before(pages, sep, i) + (pages[i] + rest)
    decreases |pages|
  {
    var n := |pages| - 1;
    if i == n {
      assert pages[..n + 1] == pages;
      JoinedStep(pages, sep, n);
      rest := "";
      assert pages[i] + rest == pages[i];
    } else {
      var r := PageInDocument(pages[..n], sep, i);
      BeforePrefix(pages, sep, i, n);
      rest := r + sep + pages[n];
      Regroup(Before(pages, sep, i), pages[i], r, sep, pages[n]);
    }
  }

  lemma NextOffset(pages: seq<string>, sep: string, k: nat)
    requires k + 1 < |pages|
    ensures Width(Before(pages, sep, k + 1)) == Width(Before(pages, sep, k)) + Width(pages[k]) + Width(sep)
  {
    JoinedStep(pages, sep, k);
    WidthConcat(Before(pages, sep, k), pages[k]);
    WidthConcat(Joined(pages[..k + 1], sep), sep);
  }

  /** Each page ends before the later ones start. */
  ghost predicate Stacked(offsets: seq<nat>, lengths: seq<nat>) {
    && |offsets| == |lengths|
    && forall i, j :: 0 <= i < j < |offsets| ==> offsets[i] + lengths[i] <= offsets[j]
  }

  predicate EndsBeforeNext(offsets: seq<nat>, lengths: seq<nat>, k: nat)
    requires k + 1 < |offsets| == |lengths|
  {
    offsets[k] + lengths[k] <= offsets[k + 1]
  }

  lemma {:induction false} LaterOffset(offsets: seq<nat>, lengths: seq<nat>, i: nat, j: nat)
    requires i < j < |offsets| == |lengths|
    requires forall k :: 0 <= k < |offsets| - 1 ==> EndsBeforeNext(offsets, lengths, k)
    ensures offsets[i] + lengths[i] <= offsets[j]
    decreases j
  {
    assert EndsBeforeNext(offsets, lengths, j - 1);
    if i < j - 1 {
      LaterOffset(offsets, lengths, i, j - 1);
    }
  }

  lemma PagesStack(pages: seq<string>, sep: string)
    ensures Stacked(Offsets(pages, sep), Widths(pages))
  {
    var offsets, lengths := Offsets(pages, sep), Widths(pages);
    forall k | 0 <= k < |pages| - 1 ensures EndsBeforeNext(offsets, lengths, k) {
      NextOffset(pages, sep, k);
    }
    forall i, j | 0 <= i < j < |pages| ensures offsets[i] + lengths[i] <= offsets[j] {
      LaterOffset(offsets, lengths, i, j);
    }
  }

  // ----- Finding the page of a byte

  /** Page `i` is the one a byte position belongs to. */
  ghost predicate OwnsByte(offsets: seq<nat>, pos: int, i: nat) {
    && i < |offsets|
    && (forall k :: 0 <= k <= i ==> offsets[k] <= pos)
    && (i + 1 < |offsets| ==> pos < offsets[i + 1])
  }

  method PageOf(pos: int, offsets: seq<nat>) returns (found: Option<nat>)
    ensures found.Some? ==> OwnsByte(offsets, pos, found.value)
    ensures found.None? ==> offsets == [] || pos < offsets[0]
    ensures found == OwningPage(offsets, pos)
  {
    found := None;
    var i := 0;
    while i < |offsets|
      invariant 0 <= i <= |offsets|
      invariant found == (if i == 0 then None else Some(i - 1))
      invariant forall k :: 0 <= k < i ==> offsets[k] <= pos
    {
      if offsets[i] <= pos {
        found := Some(i);
      } else {
        break;
      }
      i := i + 1;
    }
    if found.Some? {
      OwningPageUnique(offsets, pos, found.value);
    }
  }

  /** The page a byte position belongs to, if any. */
  function OwningPage(offsets: seq<nat>, pos: int): (p: Option<nat>)
    ensures p.Some? ==> OwnsByte(offsets, pos, p.value)
    ensures p.None? ==> offsets == [] || pos < offsets[0]
  {
    if offsets == [] || pos < offsets[0] then None else Some(LastAtOrBefore(offsets, pos, 0))
  }

  function LastAtOrBefore(offsets: seq<nat>, pos: int, i: nat): (r: nat)
    requires i < |offsets| && forall k :: 0 <= k <= i ==> offsets[k] <= pos
    ensures OwnsByte(offsets, pos, r)
    decreases |offsets| - i
  {
    if i + 1 < |offsets| && offsets[i + 1] <= pos then LastAtOrBefore(offsets, pos, i + 1) else i
  }

  lemma OwningPageUnique(offsets: seq<nat>, pos: int, i: nat)
    requires OwnsByte(offsets, pos, i)
    ensures OwningPage(offsets, pos) == Some(i)
  {
    var j := OwningPage(offsets, pos).value;
    assert OwnsByte(offsets, pos, j);
  }

  // ----- Splitting the detections by page

  /** The detection in its page's own byte offsets, clipped at the page's end. */
  function Localized(d: Detection, offsets: seq<nat>, lengths: seq<nat>, i: nat): Detection
    requires i < |offsets| && i < |lengths|
  {
    var end := d.end - offsets[i];
    d.(start := d.start - offsets[i], end := if end < lengths[i] then end else lengths[i])
  }

  predicate LandsOn(d: Detection, offsets: seq<nat>, lengths: seq<nat>, i: nat)
    requires i < |offsets| && i < |lengths|
  {
    && OwningPage(offsets, d.start) == Some(i)
    && Localized(d, offsets, lengths, i).start < Localized(d, offsets, lengths, i).end
  }

  function OnPage(dets: seq<Detection>, offsets: seq<nat>, lengths: seq<nat>, i: nat): seq<Detection>
    requires i < |offsets| && i < |lengths|
  {
    if dets == [] then []
    else
      var n := |dets| - 1;
      var rest := OnPage(dets[..n], offsets, lengths, i);
      if LandsOn(dets[n], offsets, lengths, i) then rest + [Localized(dets[n], offsets, lengths, i)] else rest
  }

  method PartitionByPage(dets: seq<Detection>, offsets: seq<nat>, lengths: seq<nat>)
    returns (perPage: seq<seq<Detection>>)
    requires |offsets| == |lengths|
    ensures |perPage| == |offsets|
    ensures forall i :: 0 <= i < |offsets| ==> perPage[i] == OnPage(dets, offsets, lengths, i)
  {
    perPage := seq(|offsets|, i => []);
    for k := 0 to |dets|
      invariant |perPage| == |offsets|
      invariant forall i :: 0 <= i < |offsets| ==> perPage[i] == OnPage(dets[..k], offsets, lengths, i)
    {
      var d := dets[k];
      assert dets[..k + 1][..k] == dets[..k];
      var page := PageOf(d.start, offsets);
      if page.None? {
        continue;
      }
      var i := page.value;
      var localEnd := if d.end - offsets[i] < lengths[i] then d.end - offsets[i] else lengths[i];
      if localEnd <= d.start - offsets[i] {
        continue;
      }
      perPage := perPage[i := perPage[i] + [d.(start := d.start - offsets[i], end := localEnd)]];
    }
    assert dets[..|dets|] == dets;
  }

  lemma {:induction false} OnPageHolds(dets: seq<Detection>, offsets: seq<nat>, lengths: seq<nat>, i: nat, d: Detection)
    requires i < |offsets| && i < |lengths| && d in dets && LandsOn(d, offsets, lengths, i)
    ensures Localized(d, offsets, lengths, i) in OnPage(dets, offsets, lengths, i)
  {
    var n := |dets| - 1;
    if d in dets[..n] {
      OnPageHolds(dets[..n], offsets, lengths, i, d);
    } else {
      assert d == dets[n];
    }
  }

  /** A non-empty detection inside one page reaches exactly that page, unclipped. */
  lemma DetectionReachesItsPage(offsets: seq<nat>, lengths: seq<nat>, dets: seq<Detection>, i: nat, d: Detection)
    requires Stacked(offsets, lengths) && i < |offsets| && d in dets
    requires offsets[i] <= d.start < d.end <= offsets[i] + lengths[i]
    ensures d.(start := d.start - offsets[i], end := d.end - offsets[i]) in OnPage(dets, offsets, lengths, i)
    ensures forall j :: 0 <= j < |offsets| && j != i ==> !LandsOn(d, offsets, lengths, j)
  {
    hide OwningPage, OnPage;
    OwningPageUnique(offsets, d.start, i);
    OnPageHolds(dets, offsets, lengths, i, d);
  }

  /** Detection `d` starts on the page at `offset`, and `e` is it in the page's own
      offsets, cut off where the page ends. */
  predicate ShownAs(d: Detection, offset: nat, length: nat, e: Detection) {
    && offset <= d.start < offset + length && d.start < d.end
    && e.entityType == d.entityType && e.text == d.text && e.start == d.start - offset
    && e.end == (if d.end < offset + length then d.end else offset + length) - offset
  }

  lemma LandsIffShown(offsets: seq<nat>, lengths: seq<nat>, i: nat, d: Detection, e: Detection)
    requires Stacked(offsets, lengths) && i < |offsets|
    ensures ShownAs(d, offsets[i], lengths[i], e)
            <==> LandsOn(d, offsets, lengths, i) && e == Localized(d, offsets, lengths, i)
  {
    if offsets[i] <= d.start < offsets[i] + lengths[i] {
      OwningPageUnique(offsets, d.start, i);
    }
  }

  lemma {:induction false} OnPageOnly(dets: seq<Detection>, offsets: seq<nat>, lengths: seq<nat>, i: nat, e: Detection)
    returns (d: Detection)
    requires i < |offsets| && i < |lengths| && e in OnPage(dets, offsets, lengths, i)
    ensures d in dets && LandsOn(d, offsets, lengths, i) && e == Localized(d, offsets, lengths, i)
  {
    var n := |dets| - 1;
    if e in OnPage(dets[..n], offsets, lengths, i) {
      d := OnPageOnly(dets[..n], offsets, lengths, i, e);
    } else {
      d := dets[n];
    }
  }

  /** A page gets exactly the non-empty detections that start on it, in its own
      offsets and cut off at its end. */
  lemma OnPageExactly(offsets: seq<nat>, lengths: seq<nat>, dets: seq<Detection>, i: nat, e: Detection)
    requires Stacked(offsets, lengths) && i < |offsets|
    ensures e in OnPage(dets, offsets, lengths, i)
            <==> exists d :: d in dets && ShownAs(d, offsets[i], lengths[i], e)
  {
    hide OnPage, LandsOn, Localized, ShownAs;
    if e in OnPage(dets, offsets, lengths, i) {
      var d := OnPageOnly(dets, offsets, lengths, i, e);
      LandsIffShown(offsets, lengths, i, d, e);
    }
    if d :| d in dets && ShownAs(d, offsets[i], lengths[i], e) {
      LandsIffShown(offsets, lengths, i, d, e);
      OnPageHolds(dets, offsets, lengths, i, d);
    }
  }
}
