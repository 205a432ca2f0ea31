/** Where a streamed reply may be cut so that restoring the parts restores the
    whole, and why a part restores alike in every order of the vault. */
module StreamCuts {
  import opened Wrappers
  import opened Strings
  import opened Placeholders

  predicate OpensAt(s: string, i: nat) {
    i + 2 < |s| && s[i] == '{' && s[i + 1] == '{' && 'A' <= s[i + 2] <= 'Z'
  }

  /** Every placeholder of the vault opens with `{{` and an upper-case letter. */
  ghost predicate Titled(m: Entries) {
    Shaped(m) && forall p :: p in m ==> OpensAt(p, 0)
  }

  /** No entry's placeholder that starts in `a` reaches past its end. */
  ghost predicate NoStraddle(a: string, t: string, m: Entries) {
    forall p, i :: p in m && 0 <= i < |a| && OccursAt(a + t, p, i) ==> i + |p| <= |a|
  }

  lemma {:induction false} SubstituteSplit(a: string, t: string, m: Entries)
    requires Shaped(m) && NoStraddle(a, t, m)
    ensures Substitute(a + t, m) == Substitute(a, m) + Substitute(t, m)
    decreases |a|
  {
    if a == "" {
      assert a + t == t;
    } else if KeyStarts(a + t, m) {
      var p := Key(a + t, m);
      assert IsPlaceholder(p);
      assert OccursAt(a + t, p, 0);
      NoStraddleTail(a, t, m, |p|);
      SubstituteSplit(a[|p|..], t, m);
      SplitAtKey(a, t, m, p);
    } else {
      NoStraddleTail(a, t, m, 1);
      SubstituteSplit(a[1..], t, m);
      SplitAtChar(a, t, m);
    }
  }

  lemma SplitAtKey(a: string, t: string, m: Entries, p: string)
    requires Shaped(m) && p in m && p <= a + t && |p| <= |a|
    requires Substitute(a[|p|..] + t, m) == Substitute(a[|p|..], m) + Substitute(t, m)
    ensures Substitute(a + t, m) == Substitute(a, m) + Substitute(t, m)
  {
    hide Substitute;
    PrefixKept(p, a, t);
    var b := a[|p|..];
    assert a == p + b && a + t == p + (b + t);
    SubstituteAfterKey(p, b + t, m);
    SubstituteAfterKey(p, b, m);
    Assoc(m[p], Substitute(b, m), Substitute(t, m));
  }

  lemma SubstituteAfterKey(p: string, u: string, m: Entries)
    requires Shaped(m) && p in m
    ensures Substitute(p + u, m) == m[p] + Substitute(u, m)
  {
    SubstituteKey(p + u, m, p);
    assert (p + u)[|p|..] == u;
  }

  lemma SplitAtChar(a: string, t: string, m: Entries)
    requires Shaped(m) && a != "" && !KeyStarts(a + t, m)
    requires Substitute(a[1..] + t, m) == Substitute(a[1..], m) + Substitute(t, m)
    ensures Substitute(a + t, m) == Substitute(a, m) + Substitute(t, m)
  {
    hide Substitute;
    SubstituteChar(a + t, m);
    assert (a + t)[1..] == a[1..] + t && (a + t)[0] == a[0];
    NoKeyInPrefix(a, t, m);
    SubstituteChar(a, m);
    Assoc([a[0]], Substitute(a[1..], m), Substitute(t, m));
  }

  lemma PrefixKept(p: string, a: string, t: string)
    requires p <= a + t && |p| <= |a|
    ensures p <= a
  {
    assert forall i :: 0 <= i < |p| ==> p[i] == (a + t)[i] == a[i];
  }

  lemma NoKeyInPrefix(a: string, t: string, m: Entries)
    requires !KeyStarts(a + t, m)
    ensures !KeyStarts(a, m)
  {
    forall p | p in m ensures !(p <= a) {
      assert !(p <= a + t);
    }
  }

  lemma NoStraddleTail(a: string, t: string, m: Entries, k: nat)
    requires NoStraddle(a, t, m) && k <= |a|
    ensures NoStraddle(a[k..], t, m)
  {
    var b := a[k..];
    forall p, i | p in m && 0 <= i < |b| && OccursAt(b + t, p, i) ensures i + |p| <= |b| {
      assert (b + t)[i..i + |p|] == (a + t)[k + i..k + i + |p|];
      assert OccursAt(a + t, p, k + i);
    }
  }

  // ----- The three places the streamer cuts

  // Where an entry's placeholder starts, the text opens.
  lemma PlaceholderOpens(s: string, i: nat, p: string, m: Entries)
    requires Titled(m) && p in m && OccursAt(s, p, i)
    ensures OpensAt(s, i)
  {
    assert forall k :: 0 <= k < |p| ==> p[k] == s[i..i + |p|][k] == s[i + k];
    assert p[0] == s[i] && p[1] == s[i + 1] && p[2] == s[i + 2];
  }

  /** Before the first opener. */
  lemma CutBeforeOpener(a: string, t: string, m: Entries)
    requires Titled(m) && (forall i :: 0 <= i < |a| ==> !OpensAt(a + t, i))
    ensures NoStraddle(a, t, m)
  {
    forall p, i | p in m && 0 <= i < |a| ensures !OccursAt(a + t, p, i) {
      if OccursAt(a + t, p, i) {
        PlaceholderOpens(a + t, i, p, m);
      }
    }
  }

  /** After the first `}}` that follows the first opener. */
  lemma CutAfterCloser(a: string, t: string, m: Entries, start: nat)
    requires Titled(m) && start + 2 <= |a| && a[|a| - 2] == '}' && a[|a| - 1] == '}'
    requires forall i :: 0 <= i < start ==> !OpensAt(a + t, i)
    ensures NoStraddle(a, t, m)
  {
    forall p, i | p in m && 0 <= i < |a| && OccursAt(a + t, p, i) ensures i + |p| <= |a| {
      PlaceholderInside(a, t, p, i);
    }
  }

  // A placeholder has no closing brace before its own last two characters.
  lemma PlaceholderInside(a: string, t: string, p: string, i: nat)
    requires IsPlaceholder(p) && i < |a| && OccursAt(a + t, p, i) && |a| >= 2
    requires a[|a| - 2] == '}' && a[|a| - 1] == '}'
    ensures i + |p| <= |a|
  {
    PlaceholderChars(p);
    var s := a + t;
    assert forall k :: 0 <= k < |p| ==> p[k] == s[i..i + |p|][k] == s[i + k];
    assert s[|a| - 2] == '}' && s[|a| - 1] == '}';
    assert s[i] == p[0];
    assert i <= |a| - 3;
    assert |a| - 2 - i < |p| ==> p[|a| - 2 - i] == '}';
  }

  // How much of a trailing `{` or `{{` to hold back.
  function Held(s: string): nat {
    if |s| >= 2 && s[|s| - 2..] == "{{" then 2
    else if |s| >= 1 && s[|s| - 1] == '{' then 1
    else 0
  }

  /** Before a trailing `{` or `{{`, when nothing opens yet. */
  lemma CutBeforeHeld(s: string, f: string, m: Entries)
    requires Titled(m) && (forall i :: 0 <= i < |s| ==> !OpensAt(s, i))
    ensures Held(s) <= |s| && NoStraddle(s[..|s| - Held(s)], s[|s| - Held(s)..] + f, m)
  {
    var n := |s| - Held(s);
    var a, t := s[..n], s[n..] + f;
    assert a + t == s + f;
    forall i | 0 <= i < n ensures !OpensAt(a + t, i) {
      assert !OpensAt(s, i);
      assert |s| >= 2 ==> s[|s| - 2..] == [s[|s| - 2], s[|s| - 1]];
    }
    CutBeforeOpener(a, t, m);
  }

  // ----- Where the streamer cuts

  /** The first position from `i` on where `{{` is followed by an upper-case letter. */
  function OpenerFrom(s: string, i: nat): (r: Option<nat>)
    ensures r.None? ==> forall j :: i <= j ==> !OpensAt(s, j)
    ensures r.Some? ==> i <= r.value && OpensAt(s, r.value) && forall j :: i <= j < r.value ==> !OpensAt(s, j)
    decreases |s| - i
  {
    if i + 2 >= |s| then None else if OpensAt(s, i) then Some(i) else OpenerFrom(s, i + 1)
  }

  lemma OpenerIsFirst(s: string)
    ensures OpenerFrom(s, 0).None? ==> forall i :: 0 <= i < |s| - 2 ==>
              !(s[i] == '{' && s[i + 1] == '{' && 'A' <= s[i + 2] <= 'Z')
    ensures OpenerFrom(s, 0).Some? ==>
              var k := OpenerFrom(s, 0).value;
              && k + 2 < |s| && s[k] == '{' && s[k + 1] == '{' && 'A' <= s[k + 2] <= 'Z'
              && forall i :: 0 <= i < k ==> !(s[i] == '{' && s[i + 1] == '{' && 'A' <= s[i + 2] <= 'Z')
  {
    forall i | 0 <= i < |s| - 2
      ensures OpensAt(s, i) <==> s[i] == '{' && s[i + 1] == '{' && 'A' <= s[i + 2] <= 'Z'
    {
    }
  }

  method FindPlaceholderStart(content: string) returns (r: Option<nat>)
    ensures r == OpenerFrom(content, 0)
    ensures r.None? ==> forall i :: 0 <= i < |content| - 2 ==>
              !(content[i] == '{' && content[i + 1] == '{' && 'A' <= content[i + 2] <= 'Z')
    ensures r.Some? ==>
              var k := r.value;
              && k + 2 < |content| && content[k] == '{' && content[k + 1] == '{' && 'A' <= content[k + 2] <= 'Z'
              && forall i :: 0 <= i < k ==>
                   !(content[i] == '{' && content[i + 1] == '{' && 'A' <= content[i + 2] <= 'Z')
  {
    OpenerIsFirst(content);
    var i := 0;
    while i + 2 < |content|
      invariant OpenerFrom(content, 0) == OpenerFrom(content, i)
    {
      if content[i] == '{' && content[i + 1] == '{' && 'A' <= content[i + 2] <= 'Z' {
        return Some(i);
      }
      i := i + 1;
    }
    return None;
  }

  datatype Cut = Cut(n: nat, more: bool)

  /** How much to emit next, and whether to look again: up to and including the
      first closer after the first opener, up to an opener that is not closed yet,
      or up to a trailing `{` or `{{`. */
  function CutOf(s: string): (c: Cut)
    ensures c.n <= |s| && (c.more ==> c.n > 0)
  {
    match OpenerFrom(s, 0)
    case Some(start) =>
      (match Find(s, "}}", start)
       case Some(end) => Cut(end + 2, true)
       case None => Cut(start, false))
    case None => Cut(|s| - Held(s), false)
  }

  ghost predicate KeysAtEnd(a: string, m: Entries) {
    forall p, i :: p in m && OccursAt(a, p, i) ==> i + |p| == |a|
  }

  ghost predicate NoKeyIn(a: string, m: Entries) {
    forall p, i :: p in m ==> !OccursAt(a, p, i)
  }

  // An occurrence in a slice is an occurrence in the text.
  lemma OccursInSlice(s: string, lo: nat, hi: nat, p: string, i: nat)
    requires lo <= hi <= |s| && OccursAt(s[lo..hi], p, i)
    ensures OccursAt(s, p, lo + i)
  {
    var t := s[lo..hi];
    assert forall k :: 0 <= k < |p| ==> p[k] == t[i..i + |p|][k] == t[i + k] == s[lo + i + k];
    assert s[lo + i..lo + i + |p|] == p;
  }

  // A placeholder ends with a closer.
  lemma PlaceholderCloses(s: string, p: string, i: nat)
    requires IsPlaceholder(p) && OccursAt(s, p, i)
    ensures OccursAt(s, "}}", i + |p| - 2)
  {
    PlaceholderChars(p);
    var k := i + |p| - 2;
    assert s[i..i + |p|][|p| - 2] == s[k] && s[i..i + |p|][|p| - 1] == s[k + 1];
    assert s[k..k + 2] == [s[k], s[k + 1]];
  }

  lemma NoOpenerNoKey(s: string, n: nat, m: Entries)
    requires Titled(m) && n <= |s| && forall i :: 0 <= i < n ==> !OpensAt(s, i)
    ensures NoKeyIn(s[..n], m)
  {
    forall p, i | p in m ensures !OccursAt(s[..n], p, i) {
      if OccursAt(s[..n], p, i) {
        OccursInSlice(s, 0, n, p, i);
        PlaceholderOpens(s, i, p, m);
      }
    }
  }

  /** What is emitted holds at most one placeholder, at its very end. */
  lemma PieceHasKeyAtEnd(s: string, m: Entries)
    requires Titled(m)
    ensures KeysAtEnd(s[..CutOf(s).n], m)
  {
    var n := CutOf(s).n;
    if CutOf(s).more {
      var start := OpenerFrom(s, 0).value;
      forall p, i | p in m && OccursAt(s[..n], p, i) ensures i + |p| == n {
        OccursInSlice(s, 0, n, p, i);
        PlaceholderOpens(s, i, p, m);
        PlaceholderCloses(s, p, i);
      }
    } else {
      NoOpenerNoKey(s, n, m);
    }
  }

  /** What is held back holds no placeholder. */
  lemma HeldHasNoKey(s: string, m: Entries)
    requires Titled(m) && !CutOf(s).more
    ensures NoKeyIn(s[CutOf(s).n..], m)
  {
    var n := CutOf(s).n;
    forall p, i | p in m ensures !OccursAt(s[n..], p, i) {
      assert IsPlaceholder(p);
      if OccursAt(s[n..], p, i) && OpenerFrom(s, 0).Some? {
        assert s[n..] == s[n..|s|];
        OccursInSlice(s, n, |s|, p, i);
        PlaceholderCloses(s, p, n + i);
      }
    }
  }

  /** Cutting at `n` does not change what is restored, whatever still arrives. */
  ghost predicate Splits(restore: string -> string, s: string, n: nat)
    requires n <= |s|
  {
    forall f :: restore(s[..n] + (s[n..] + f)) == restore(s[..n]) + restore(s[n..] + f)
  }

  /** Each of the three cuts leaves no placeholder straddling it. */
  lemma CutIsSafe(s: string, m: Entries)
    requires Titled(m)
    ensures Splits(Restoring(m), s, CutOf(s).n)
  {
    var n := CutOf(s).n;
    var opener := OpenerFrom(s, 0);
    if opener.None? {
      forall f ensures NoStraddle(s[..n], s[n..] + f, m) {
        CutBeforeHeld(s, f, m);
      }
    } else if CutOf(s).more {
      CutsAtCloser(s, opener.value, n, m);
    } else {
      CutsAtOpener(s, opener.value, m);
    }
    SafeCut(s, n, m);
  }

  lemma CutsAtCloser(s: string, start: nat, n: nat, m: Entries)
    requires Titled(m) && OpensAt(s, start) && start <= n - 2 && n <= |s| && OccursAt(s, "}}", n - 2)
    requires forall i :: 0 <= i < start ==> !OpensAt(s, i)
    ensures forall f :: NoStraddle(s[..n], s[n..] + f, m)
  {
    forall f ensures NoStraddle(s[..n], s[n..] + f, m) {
      var a, t := s[..n], s[n..] + f;
      assert a + t == s + f;
      assert s[n - 2..n][0] == '}' && s[n - 2..n][1] == '}';
      forall i | 0 <= i < start ensures !OpensAt(a + t, i) {
        assert !OpensAt(s, i);
      }
      CutAfterCloser(a, t, m, start);
    }
  }

  lemma CutsAtOpener(s: string, start: nat, m: Entries)
    requires Titled(m) && OpensAt(s, start) && forall i :: 0 <= i < start ==> !OpensAt(s, i)
    ensures forall f :: NoStraddle(s[..start], s[start..] + f, m)
  {
    forall f ensures NoStraddle(s[..start], s[start..] + f, m) {
      assert s[..start] + (s[start..] + f) == s + f;
      forall i | 0 <= i < start ensures !OpensAt(s + f, i) {
        assert !OpensAt(s, i);
      }
      CutBeforeOpener(s[..start], s[start..] + f, m);
    }
  }

  // Restoring as a function of the text alone.
  ghost function Restoring(m: Entries): string -> string
    requires Shaped(m)
  {
    (s: string) => if Shaped(m) then Substitute(s, m) else s
  }

  // What a safe cut gives.
  lemma SafeCut(s: string, n: nat, m: Entries)
    requires Shaped(m) && n <= |s| && forall f :: NoStraddle(s[..n], s[n..] + f, m)
    ensures Splits(Restoring(m), s, n)
  {
    var restore := Restoring(m);
    forall f ensures restore(s[..n] + (s[n..] + f)) == restore(s[..n]) + restore(s[n..] + f) {
      assert NoStraddle(s[..n], s[n..] + f, m);
      SubstituteSplit(s[..n], s[n..] + f, m);
    }
  }

  // ----- Restoring one piece

  lemma {:induction false} ReplaceAbsent(s: string, p: string, v: string)
    requires p != "" && forall i :: !OccursAt(s, p, i)
    ensures Replace(s, p, v) == s
  {
    if s != "" {
      assert !(p <= s) by {
        assert !OccursAt(s, p, 0);
      }
      ReplaceStep(s, p, v);
      forall i ensures !OccursAt(s[1..], p, i) {
        if OccursAt(s[1..], p, i) {
          assert s[1..] == s[1..|s|];
          OccursInSlice(s, 1, |s|, p, i);
        }
      }
      ReplaceAbsent(s[1..], p, v);
    }
  }

  lemma {:induction false} SubstituteAbsent(s: string, m: Entries)
    requires Shaped(m) && NoKeyIn(s, m)
    ensures Substitute(s, m) == s
  {
    if s != "" {
      assert !KeyStarts(s, m) by {
        forall p | p in m ensures !(p <= s) {
          assert !OccursAt(s, p, 0);
        }
      }
      SubstituteChar(s, m);
      forall p, i | p in m ensures !OccursAt(s[1..], p, i) {
        if OccursAt(s[1..], p, i) {
          assert s[1..] == s[1..|s|];
          OccursInSlice(s, 1, |s|, p, i);
        }
      }
      SubstituteAbsent(s[1..], m);
    }
  }

  lemma {:induction false} ReplaceAtEnd(y: string, p: string, v: string)
    requires p != "" && forall i :: 0 <= i < |y| ==> !OccursAt(y + p, p, i)
    ensures Replace(y + p, p, v) == y + v
  {
    hide Replace;
    if y == "" {
      assert y + p == p && p + "" == p && y + v == v && v + "" == v;
      ReplaceHere(p, "", v);
      ReplaceShort("", p, v);
    } else {
      var s := y + p;
      assert !(p <= s) by {
        assert !OccursAt(s, p, 0);
      }
      ReplaceStep(s, p, v);
      assert s[0] == y[0] && s[1..] == y[1..] + p && s[1..] == s[1..|s|];
      forall i | 0 <= i < |y[1..]| ensures !OccursAt(y[1..] + p, p, i) {
        assert !OccursAt(s, p, i + 1);
        if OccursAt(s[1..], p, i) {
          OccursInSlice(s, 1, |s|, p, i);
        }
      }
      ReplaceAtEnd(y[1..], p, v);
      assert y + v == [y[0]] + (y[1..] + v);
    }
  }

  // The key at the end is the only one.
  lemma OnlyKeyAtEnd(y: string, p: string, m: Entries, q: string, i: int)
    requires Shaped(m) && p in m && q in m && KeysAtEnd(y + p, m) && OccursAt(y + p, q, i)
    ensures q == p && i == |y|
  {
    var s := y + p;
    assert IsPlaceholder(p) && IsPlaceholder(q);
    assert i + |q| == |s| && s[i..i + |q|] == q;
    if |q| > |p| {
      var k := |q| - |p|;
      assert q[k..] == p && q[k..] + "" == p;
      NothingStartsInside(q, k, "", p);
    } else if |q| < |p| {
      var k := |p| - |q|;
      assert p[k..] == q && p[k..] + "" == q;
      NothingStartsInside(p, k, "", q);
    }
  }

  lemma SubstituteAtEnd(y: string, p: string, m: Entries)
    requires Shaped(m) && p in m && KeysAtEnd(y + p, m)
    ensures Substitute(y + p, m) == y + m[p]
  {
    forall q, i | q in m && 0 <= i < |y| ensures !OccursAt(y + p, q, i) {
      if OccursAt(y + p, q, i) {
        OnlyKeyAtEnd(y, p, m, q, i);
      }
    }
    SubstituteSplit(y, p, m);
    forall q, i | q in m ensures !OccursAt(y, q, i) {
      if OccursAt(y, q, i) {
        assert (y + p)[i..i + |q|] == y[i..i + |q|];
        OnlyKeyAtEnd(y, p, m, q, i);
      }
    }
    SubstituteAbsent(y, m);
    SubstituteKey(p, m, p);
    assert p[|p|..] == "" && m[p] + "" == m[p];
  }

  // A placeholder's closer cannot lie in a brace-free tail.
  lemma EndsBeforeValue(y: string, v: string, q: string, i: nat)
    requires IsPlaceholder(q) && BraceFree(v) && OccursAt(y + v, q, i)
    ensures i + |q| <= |y|
  {
    var s, k := y + v, i + |q| - 1;
    PlaceholderChars(q);
    assert s[k] == s[i..i + |q|][|q| - 1] == '}';
    assert forall j :: |y| <= j < |s| ==> s[j] == v[j - |y|];
  }

  // Once the key at the end is gone, no entry can be completed.
  lemma NothingLeft(y: string, p: string, m: Entries)
    requires WellFormed(m) && p in m && KeysAtEnd(y + p, m)
    ensures NoKeyIn(y + m[p], m)
  {
    var v := m[p];
    forall q, i | q in m ensures !OccursAt(y + v, q, i) {
      if OccursAt(y + v, q, i) {
        assert IsPlaceholder(q);
        EndsBeforeValue(y, v, q, i);
        assert (y + p)[i..i + |q|] == (y + v)[i..i + |q|];
        OnlyKeyAtEnd(y, p, m, q, i);
      }
    }
  }

  lemma {:induction false} RestoreAbsent(s: string, order: seq<string>, m: Entries)
    requires Shaped(m) && NoKeyIn(s, m) && forall p :: p in order ==> p in m
    ensures RestoreInOrder(s, order, m) == s
  {
    if order != [] {
      var n := |order| - 1;
      RestoreAbsent(s, order[..n], m);
      assert order[n] in order && IsPlaceholder(order[n]);
      ReplaceAbsent(s, order[n], m[order[n]]);
    }
  }

  lemma ReplaceOther(y: string, p: string, m: Entries, q: string)
    requires Shaped(m) && p in m && q in m && q != p && KeysAtEnd(y + p, m)
    ensures Replace(y + p, q, m[q]) == y + p
  {
    assert IsPlaceholder(q);
    forall i ensures !OccursAt(y + p, q, i) {
      if OccursAt(y + p, q, i) {
        OnlyKeyAtEnd(y, p, m, q, i);
      }
    }
    ReplaceAbsent(y + p, q, m[q]);
  }

  lemma ReplaceEndKey(y: string, p: string, m: Entries)
    requires Shaped(m) && p in m && KeysAtEnd(y + p, m)
    ensures Replace(y + p, p, m[p]) == y + m[p]
  {
    assert IsPlaceholder(p);
    forall i | 0 <= i < |y| ensures !OccursAt(y + p, p, i) {
      if OccursAt(y + p, p, i) {
        OnlyKeyAtEnd(y, p, m, p, i);
      }
    }
    ReplaceAtEnd(y, p, m[p]);
  }

  lemma PlaceholderNotEmpty(q: string)
    requires IsPlaceholder(q)
    ensures q != ""
  {
  }

  lemma {:induction false} RestoreAtEnd(y: string, p: string, order: seq<string>, m: Entries)
    requires WellFormed(m) && p in m && KeysAtEnd(y + p, m)
    requires (forall i, j :: 0 <= i < j < |order| ==> order[i] != order[j]) && forall q :: q in order ==> q in m
    ensures RestoreInOrder(y + p, order, m) == if p in order then y + m[p] else y + p
  {
    hide KeysAtEnd, IsPlaceholder, OccursAt, Replace;
    if order != [] {
      var n := |order| - 1;
      var q := order[n];
      RestoreAtEnd(y, p, order[..n], m);
      assert q in order && IsPlaceholder(q) && q !in order[..n];
      assert p in order <==> p in order[..n] || p == q;
      if p in order[..n] {
        NothingLeft(y, p, m);
        PlaceholderNotEmpty(q);
        ReplaceAbsent(y + m[p], q, m[q]);
      } else if q == p {
        ReplaceEndKey(y, p, m);
      } else {
        ReplaceOther(y, p, m, q);
      }
    }
  }

  /** Every order restores a piece to the one simultaneous substitution: with at
      most one placeholder, at the end, no value can complete another. */
  lemma PieceRestores(a: string, order: seq<string>, m: Entries)
    requires WellFormed(m) && KeysAtEnd(a, m) && IsOrder(order, m)
    ensures RestoreInOrder(a, order, m) == Substitute(a, m)
  {
    if NoKeyIn(a, m) {
      RestoreAbsent(a, order, m);
      SubstituteAbsent(a, m);
    } else {
      var p, i :| p in m && OccursAt(a, p, i);
      var y := a[..i];
      assert a == y + p;
      RestoreAtEnd(y, p, order, m);
      SubstituteAtEnd(y, p, m);
    }
  }
}
