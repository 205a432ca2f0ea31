/** Restoring placeholders in a streamed reply: however the reply is cut into
    deltas, what is emitted is the restored text of the whole reply. */
module Streaming {
  import opened Strings
  import opened Sorting
  import opened Placeholders
  import opened RestoreOrder
  import opened Vault
  import opened StreamCuts

  // ----- What the streamer may emit

  /** Restoring in some order of the entries; nothing is restored to nothing. */
  ghost predicate RestoresTo(m: Entries, s: string, out: string) {
    if s == "" then out == "" else exists order :: IsOrder(order, m) && out == RestoreInOrder(s, order, m)
  }

  /** Emitting the pieces of `s` one after another may give `out` and hold back `rest`. */
  ghost predicate Pushed(m: Entries, s: string, out: string, rest: string)
    decreases |s|, 1
  {
    exists piece, tail :: PushedBy(m, s, piece, tail, out, rest)
  }

  // First `piece`, then `tail` from what follows it.
  ghost predicate PushedBy(m: Entries, s: string, piece: string, tail: string, out: string, rest: string)
    decreases |s|, 0
  {
    var c := CutOf(s);
    && RestoresTo(m, s[..c.n], piece)
    && out == piece + tail
    && if c.more then Pushed(m, s[c.n..], tail, rest) else tail == "" && rest == s[c.n..]
  }

  /** The chunks may have given `out` so far, with `rest` held back. */
  ghost predicate Streamed(m: Entries, chunks: seq<string>, out: string, rest: string)
    decreases |chunks|, 1
  {
    if chunks == [] then out == "" && rest == ""
    else exists o, r, emitted :: StreamedBy(m, chunks, o, r, emitted, out, rest)
  }

  // First `o` with `r` held back, then `emitted` for the last chunk.
  ghost predicate StreamedBy(m: Entries, chunks: seq<string>, o: string, r: string,
                             emitted: string, out: string, rest: string)
    requires chunks != []
    decreases |chunks|, 0
  {
    var n := |chunks| - 1;
    Streamed(m, chunks[..n], o, r) && Pushed(m, r + chunks[n], emitted, rest) && out == o + emitted
  }

  /** The whole stream, flushed at the end, may come out as `out`. */
  ghost predicate StreamsTo(m: Entries, chunks: seq<string>, out: string) {
    exists o, r, f :: Streamed(m, chunks, o, r) && RestoresTo(m, r, f) && out == o + f
  }

  function Concat(chunks: seq<string>): string {
    if chunks == [] then "" else Concat(chunks[..|chunks| - 1]) + chunks[|chunks| - 1]
  }

  lemma PushedMore(m: Entries, s: string, piece: string, out: string, rest: string)
    requires CutOf(s).more && RestoresTo(m, s[..CutOf(s).n], piece) && Pushed(m, s[CutOf(s).n..], out, rest)
    ensures Pushed(m, s, piece + out, rest)
  {
    hide CutOf, RestoresTo;
    assert PushedBy(m, s, piece, out, piece + out, rest);
  }

  lemma PushedLast(m: Entries, s: string, piece: string)
    requires !CutOf(s).more && RestoresTo(m, s[..CutOf(s).n], piece)
    ensures Pushed(m, s, piece, s[CutOf(s).n..])
  {
    hide CutOf, RestoresTo;
    assert PushedBy(m, s, piece, "", piece, s[CutOf(s).n..]);
  }

  /** Whatever the rest still gives, the whole gives with `out` in front of it. */
  ghost predicate Continues(m: Entries, whole: string, out: string, rest: string) {
    forall o, r :: Pushed(m, rest, o, r) ==> Pushed(m, whole, out + o, r)
  }

  lemma ContinuesSelf(m: Entries, s: string)
    ensures Continues(m, s, "", s)
  {
    hide Pushed;
    forall o, r | Pushed(m, s, o, r) ensures Pushed(m, s, "" + o, r) {
      assert "" + o == o;
    }
  }

  lemma ContinuesMore(m: Entries, whole: string, out: string, s: string, piece: string)
    requires Continues(m, whole, out, s) && CutOf(s).more && RestoresTo(m, s[..CutOf(s).n], piece)
    ensures Continues(m, whole, out + piece, s[CutOf(s).n..])
  {
    hide Pushed, CutOf, RestoresTo;
    forall o, r | Pushed(m, s[CutOf(s).n..], o, r) ensures Pushed(m, whole, out + piece + o, r) {
      PushedMore(m, s, piece, o, r);
      Assoc(out, piece, o);
    }
  }

  lemma ContinuesLast(m: Entries, whole: string, out: string, s: string, piece: string)
    requires Continues(m, whole, out, s) && !CutOf(s).more && RestoresTo(m, s[..CutOf(s).n], piece)
    ensures Pushed(m, whole, out + piece, s[CutOf(s).n..])
    ensures s[CutOf(s).n..] == "" || Unfinished(s[CutOf(s).n..])
  {
    CutHoldsUnfinished(s);
    hide Pushed, CutOf, RestoresTo;
    PushedLast(m, s, piece);
  }

  lemma StreamedMore(m: Entries, chunks: seq<string>, o: string, r: string, chunk: string, out: string, rest: string)
    requires Streamed(m, chunks, o, r) && Pushed(m, r + chunk, out, rest)
    ensures Streamed(m, chunks + [chunk], o + out, rest)
  {
    hide Pushed;
    assert (chunks + [chunk])[..|chunks|] == chunks;
    assert StreamedBy(m, chunks + [chunk], o, r, out, o + out, rest);
  }

  // ----- The code

  predicate IsSuffix(t: string, s: string) {
    |t| <= |s| && t == s[|s| - |t|..]
  }

  class PlaceholderStreamer {
    var pending: string

    constructor ()
      ensures pending == ""
    {
      pending := "";
    }

    /** Feed one delta; emit the restored text that is safe to emit now. */
    method Push(delta: string, vault: TokenVault) returns (out: string)
      modifies this
      ensures Pushed(vault.entries, old(pending) + delta, out, pending)
      ensures IsSuffix(pending, old(pending) + delta)
      ensures pending == "" || Unfinished(pending)
    {
      hide Pushed, RestoresTo, Continues, CutOf, Unfinished;
      pending := pending + delta;
      out := "";
      ghost var whole, m := pending, vault.entries;
      ContinuesSelf(m, pending);
      while true
        invariant IsSuffix(pending, whole) && Continues(m, whole, out, pending)
        decreases |pending|
      {
        var c := NextCut(pending);
        var piece := EmitPiece(pending[..c.n], vault);
        if !c.more {
          ContinuesLast(m, whole, out, pending, piece);
          out := out + piece;
          pending := pending[c.n..];
          break;
        }
        ContinuesMore(m, whole, out, pending, piece);
        out := out + piece;
        pending := pending[c.n..];
      }
    }

    /** Emit what is left once the stream ends. */
    method Flush(vault: TokenVault) returns (out: string)
      ensures RestoresTo(vault.entries, pending, out)
    {
      out := EmitPiece(pending, vault);
    }
  }

  method NextCut(s: string) returns (c: Cut)
    ensures c == CutOf(s)
  {
    var opener := FindPlaceholderStart(s);
    if opener.Some? {
      var closer := Find(s, "}}", opener.value);
      return if closer.Some? then Cut(closer.value + 2, true) else Cut(opener.value, false);
    }
    return Cut(|s| - Held(s), false);
  }

  method EmitPiece(s: string, vault: TokenVault) returns (out: string)
    ensures RestoresTo(vault.entries, s, out)
  {
    if s == "" {
      out := "";
    } else {
      out := vault.Restore(s);
    }
  }

  /** A whole reply: every chunk pushed, then the rest flushed. */
  method StreamAll(chunks: seq<string>, vault: TokenVault) returns (out: string)
    ensures StreamsTo(vault.entries, chunks, out)
    ensures Streamable(vault.entries) ==> out == Substitute(Concat(chunks), vault.entries)
  {
    var streamer := new PlaceholderStreamer();
    out := "";
    ghost var m := vault.entries;
    StreamedNothing(m);
    assert chunks[..0] == [];
    hide Streamed, Pushed, RestoresTo, StreamsTo, Streamable, Substitute;
    for k := 0 to |chunks|
      invariant Streamed(m, chunks[..k], out, streamer.pending)
    {
      ghost var rest := streamer.pending;
      var emitted := streamer.Push(chunks[k], vault);
      StreamedMore(m, chunks[..k], out, rest, chunks[k], emitted, streamer.pending);
      assert chunks[..k + 1] == chunks[..k] + [chunks[k]];
      out := out + emitted;
    }
    assert chunks[..|chunks|] == chunks;
    var last := streamer.Flush(vault);
    StreamEnds(m, chunks, out, streamer.pending, last);
    out := out + last;
  }

  lemma StreamedNothing(m: Entries)
    ensures Streamed(m, [], "", "")
  {
  }

  lemma StreamEnds(m: Entries, chunks: seq<string>, o: string, r: string, f: string)
    requires Streamed(m, chunks, o, r) && RestoresTo(m, r, f)
    ensures StreamsTo(m, chunks, o + f)
    ensures Streamable(m) ==> o + f == Substitute(Concat(chunks), m)
  {
    hide Streamed, RestoresTo, Substitute;
    if Streamable(m) {
      StreamIsSubstitution(m, chunks, o + f);
    }
  }

  // ----- What may be held back

  /** A trailing `{` or `{{`, or a placeholder whose `}}` has not come yet. */
  predicate Unfinished(rest: string) {
    || rest == "{" || rest == "{{"
    || (|rest| > 2 && rest[0] == '{' && rest[1] == '{' && 'A' <= rest[2] <= 'Z'
        && forall i :: 0 <= i < |rest| - 1 ==> !(rest[i] == '}' && rest[i + 1] == '}'))
  }

  lemma OpenerIsUnfinished(s: string, start: nat)
    requires OpensAt(s, start) && forall i :: start <= i ==> !OccursAt(s, "}}", i)
    ensures Unfinished(s[start..])
  {
    var rest := s[start..];
    forall i | 0 <= i < |rest| - 1 ensures !(rest[i] == '}' && rest[i + 1] == '}') {
      assert !OccursAt(s, "}}", start + i);
      assert s[start + i..start + i + 2] == [rest[i], rest[i + 1]];
    }
  }

  lemma HeldIsUnfinished(s: string)
    ensures Held(s) <= |s| && (s[|s| - Held(s)..] == "" || Unfinished(s[|s| - Held(s)..]))
  {
  }

  lemma CutHoldsUnfinished(s: string)
    requires !CutOf(s).more
    ensures s[CutOf(s).n..] == "" || Unfinished(s[CutOf(s).n..])
  {
    hide Unfinished, OpensAt, Held;
    HeldIsUnfinished(s);
    if OpenerFrom(s, 0).Some? {
      OpenerIsUnfinished(s, OpenerFrom(s, 0).value);
    }
  }

  /** Everything but an unfinished placeholder is emitted at once. */
  lemma {:induction false} HoldsOnlyUnfinished(m: Entries, s: string, out: string, rest: string)
    requires Pushed(m, s, out, rest)
    ensures rest == "" || Unfinished(rest)
    decreases |s|
  {
    hide RestoresTo, CutOf, Unfinished;
    var piece, tail :| PushedBy(m, s, piece, tail, out, rest);
    if CutOf(s).more {
      HoldsOnlyUnfinished(m, s[CutOf(s).n..], tail, rest);
    } else {
      CutHoldsUnfinished(s);
    }
  }

  // ----- Streaming is one simultaneous substitution

  /** The vaults the streamer is for: placeholders that open with `{{` and an
      upper-case letter, and brace-free values. */
  ghost predicate Streamable(m: Entries) {
    Titled(m) && WellFormed(m)
  }

  /** `emitted` followed by the restored rest is the restored whole, whatever
      still arrives. */
  ghost predicate Settles(restore: string -> string, whole: string, emitted: string, rest: string) {
    forall f :: restore(whole + f) == emitted + restore(rest + f)
  }

  lemma SettlesHead(restore: string -> string, s: string, n: nat, out: string, rest: string)
    requires n <= |s| && Splits(restore, s, n) && Settles(restore, s[n..], out, rest)
    ensures Settles(restore, s, restore(s[..n]) + out, rest)
  {
    forall f ensures restore(s + f) == restore(s[..n]) + out + restore(rest + f) {
      assert s + f == s[..n] + (s[n..] + f);
      Assoc(restore(s[..n]), out, restore(rest + f));
    }
  }

  lemma SettlesSelf(restore: string -> string, s: string)
    ensures Settles(restore, s, "", s)
  {
    forall f ensures restore(s + f) == "" + restore(s + f) {
    }
  }

  lemma SettlesMore(restore: string -> string, whole: string, out: string, rest: string,
                    delta: string, emitted: string, rest': string)
    requires Settles(restore, whole, out, rest) && Settles(restore, rest + delta, emitted, rest')
    ensures Settles(restore, whole + delta, out + emitted, rest')
  {
    forall f ensures restore(whole + delta + f) == out + emitted + restore(rest' + f) {
      assert whole + delta + f == whole + (delta + f);
      assert rest + (delta + f) == rest + delta + f;
      assert restore(whole + (delta + f)) == out + restore(rest + (delta + f));
    }
  }

  lemma SettlesAtEnd(restore: string -> string, whole: string, out: string, rest: string)
    requires Settles(restore, whole, out, rest)
    ensures restore(whole) == out + restore(rest)
  {
    assert whole + "" == whole && rest + "" == rest;
    assert restore(whole + "") == out + restore(rest + "");
  }

  /** A piece with at most one placeholder, at its end, restores to its substitution. */
  lemma PieceIsSubstitution(m: Entries, s: string, out: string)
    requires WellFormed(m) && KeysAtEnd(s, m) && RestoresTo(m, s, out)
    ensures out == Substitute(s, m)
  {
    if s != "" {
      var order :| IsOrder(order, m) && out == RestoreInOrder(s, order, m);
      PieceRestores(s, order, m);
    }
  }

  /** One push: what is emitted settles what arrived, and what is held back holds
      no complete placeholder. */
  lemma {:induction false} PushedSettles(m: Entries, s: string, out: string, rest: string)
    requires Streamable(m) && Pushed(m, s, out, rest)
    ensures Settles(Restoring(m), s, out, rest) && NoKeyIn(rest, m)
    decreases |s|
  {
    var c := CutOf(s);
    var piece, tail :| PushedBy(m, s, piece, tail, out, rest);
    hide Pushed, RestoresTo, Substitute, Settles, CutOf;
    PieceHasKeyAtEnd(s, m);
    PieceIsSubstitution(m, s[..c.n], piece);
    CutIsSafe(s, m);
    assert piece == Restoring(m)(s[..c.n]);
    if c.more {
      PushedSettles(m, s[c.n..], tail, rest);
      SettlesHead(Restoring(m), s, c.n, tail, rest);
    } else {
      HeldHasNoKey(s, m);
      SettlesSelf(Restoring(m), s[c.n..]);
      SettlesHead(Restoring(m), s, c.n, "", s[c.n..]);
    }
  }

  lemma {:induction false} StreamedSettles(m: Entries, chunks: seq<string>, out: string, rest: string)
    requires Streamable(m) && Streamed(m, chunks, out, rest)
    ensures Settles(Restoring(m), Concat(chunks), out, rest) && NoKeyIn(rest, m)
  {
    if chunks == [] {
      SettlesSelf(Restoring(m), "");
    } else {
      var n := |chunks| - 1;
      var o, r, emitted :| StreamedBy(m, chunks, o, r, emitted, out, rest);
      hide Streamed, Pushed, Settles;
      StreamedSettles(m, chunks[..n], o, r);
      PushedSettles(m, r + chunks[n], emitted, rest);
      SettlesMore(Restoring(m), Concat(chunks[..n]), o, r, chunks[n], emitted, rest);
    }
  }

  /** Any chunking of a reply streams out as the one simultaneous substitution of
      the whole reply, also where restoring the whole reply at once would depend
      on the order of the entries. */
  lemma StreamIsSubstitution(m: Entries, chunks: seq<string>, out: string)
    requires Streamable(m) && StreamsTo(m, chunks, out)
    ensures out == Substitute(Concat(chunks), m)
  {
    var o, r, f :| Streamed(m, chunks, o, r) && RestoresTo(m, r, f) && out == o + f;
    StreamedSettles(m, chunks, o, r);
    SettlesAtEnd(Restoring(m), Concat(chunks), o, r);
    PieceIsSubstitution(m, r, f);
  }

  /** Where some value is part of another entry's body, restoring some whole text
      at once differs from the substitution, which streaming still gives. */
  lemma WholeTextMayDiffer(m: Entries) returns (content: string, order: seq<string>)
    requires WellFormed(m) && !OrderFree(m)
    ensures IsOrder(order, m) && RestoreInOrder(content, order, m) != Substitute(content, m)
  {
    var p, q :| p in m && q in m && p != q && Within(m[q], Body(p));
    var a, b;
    content, a, b := OrderMatters(m, p, q);
    order := if RestoreInOrder(content, a, m) != Substitute(content, m) then a else b;
  }

  // ----- Why the upper-case letter is needed

  lemma NoOpenerCut(s: string)
    requires s != "" && s[|s| - 1] != '{' && forall i :: 0 <= i ==> !OpensAt(s, i)
    ensures CutOf(s) == Cut(|s|, false)
  {
    assert |s| >= 2 ==> s[|s| - 2..][1] == s[|s| - 1];
  }

  /** Text without an opener or a placeholder passes straight through. */
  lemma PassesThrough(m: Entries, s: string)
    requires Shaped(m) && NoKeyIn(s, m)
    requires s != "" && s[|s| - 1] != '{' && forall i :: 0 <= i ==> !OpensAt(s, i)
    ensures Pushed(m, s, s, "")
  {
    NoOpenerCut(s);
    var order := Enumerate(m.Keys);
    RestoreAbsent(s, order, m);
    assert IsOrder(order, m);
    assert s[..|s|] == s && s[|s|..] == "";
    assert RestoresTo(m, s, s);
    PushedLast(m, s, s);
  }

  // A placeholder without its last brace shows neither an opener nor a closer.
  lemma CutShort(m: Entries, p: string)
    requires Shaped(m) && p in m && !OpensAt(p, 0)
    ensures var s := p[..|p| - 1];
            NoKeyIn(s, m) && s != "" && s[|s| - 1] == '}' && forall i :: 0 <= i ==> !OpensAt(s, i)
  {
    var s := p[..|p| - 1];
    assert IsPlaceholder(p);
    PlaceholderChars(p);
    forall q, i | q in m ensures !OccursAt(s, q, i) {
      if OccursAt(s, q, i) {
        assert IsPlaceholder(q);
        PlaceholderCloses(s, q, i);
        NoCloserInside(p, i + |q| - 2);
      }
    }
  }

  lemma NoCloserInside(p: string, k: int)
    requires IsPlaceholder(p)
    ensures !OccursAt(p[..|p| - 1], "}}", k)
  {
    PlaceholderChars(p);
    var s := p[..|p| - 1];
    assert 0 <= k && k + 2 <= |s| ==> s[k..k + 2][0] == p[k] != '}';
  }

  lemma LoneBracePasses(m: Entries)
    requires Shaped(m)
    ensures Pushed(m, "}", "}", "")
  {
    forall q, i | q in m ensures !OccursAt("}", q, i) {
      assert IsPlaceholder(q);
    }
    PassesThrough(m, "}");
  }

  lemma TwoChunks(m: Entries, s: string, t: string)
    requires Pushed(m, s, s, "") && Pushed(m, t, t, "")
    ensures StreamsTo(m, [s, t], s + t) && Concat([s, t]) == s + t
  {
    hide Pushed;
    assert Streamed(m, [], "", "");
    assert "" + s == s && [] + [s] == [s] && [s] + [t] == [s, t] && "" + t == t;
    StreamedMore(m, [], "", "", s, s, "");
    StreamedMore(m, [s], s, "", t, t, "");
    hide Streamed;
    assert RestoresTo(m, "", "") && s + t + "" == s + t;
    assert [s, t][..1] == [s] && [s][..0] == [];
    assert Concat([s]) == Concat([]) + s == s;
  }

  /** A placeholder that opens in any other way, cut before its last brace, comes
      out unrestored. */
  lemma UntitledEscapes(m: Entries, p: string)
    requires WellFormed(m) && p in m && !OpensAt(p, 0)
    ensures StreamsTo(m, [p[..|p| - 1], "}"], p)
    ensures Concat([p[..|p| - 1], "}"]) == p && Substitute(p, m) == m[p] != p
  {
    hide StreamsTo, Pushed;
    assert IsPlaceholder(p) && BraceFree(m[p]);
    PlaceholderChars(p);
    var s := p[..|p| - 1];
    CutShort(m, p);
    PassesThrough(m, s);
    LoneBracePasses(m);
    TwoChunks(m, s, "}");
    assert s + "}" == p;
    SubstituteKey(p, m, p);
    assert p[|p|..] == "" && m[p] + "" == m[p];
  }

  lemma TitledIsUpperCase(m: Entries)
    requires WellFormed(m)
    ensures Titled(m) <==> forall p :: p in m ==> |p| > 2 && 'A' <= p[2] <= 'Z'
  {
    forall p | p in m ensures OpensAt(p, 0) <==> |p| > 2 && 'A' <= p[2] <= 'Z' {
      assert IsPlaceholder(p);
      PlaceholderChars(p);
    }
  }

  /** Streaming agrees with the substitution for every chunking exactly when every
      placeholder opens with an upper-case letter. */
  lemma StreamsExactlyTitled(m: Entries)
    requires WellFormed(m)
    ensures (forall p :: p in m ==> |p| > 2 && 'A' <= p[2] <= 'Z')
            <==> forall chunks, out :: StreamsTo(m, chunks, out) ==> out == Substitute(Concat(chunks), m)
  {
    hide StreamsTo, Substitute;
    TitledIsUpperCase(m);
    if Titled(m) {
      forall chunks, out | StreamsTo(m, chunks, out) ensures out == Substitute(Concat(chunks), m) {
        StreamIsSubstitution(m, chunks, out);
      }
    } else {
      var p :| p in m && !OpensAt(p, 0);
      UntitledEscapes(m, p);
    }
  }
}
