/** Restoring placeholders: replacing the entries of a vault one at a time, in
    whatever order the map yields them, against one simultaneous substitution. */
module Placeholders {
  import opened Strings

  type Entries = map<string, string>

  /** `{{Body}}` with a non-empty body that has no braces. */
  predicate IsPlaceholder(p: string) {
    && |p| >= 5
    && p[..2] == "{{" && p[|p| - 2..] == "}}"
    && BraceFree(Body(p))
  }

  function Body(p: string): string
    requires |p| >= 4
  {
    p[2..|p| - 2]
  }

  ghost predicate Shaped(m: Entries) {
    forall p :: p in m ==> IsPlaceholder(p)
  }

  ghost predicate WellFormed(m: Entries) {
    Shaped(m) && forall p :: p in m ==> BraceFree(m[p])
  }

  lemma PlaceholderChars(p: string)
    requires IsPlaceholder(p)
    ensures p[0] == '{' && p[1] == '{' && p[|p| - 2] == '}' && p[|p| - 1] == '}'
    ensures forall i :: 2 <= i < |p| - 2 ==> p[i] != '{' && p[i] != '}'
    ensures p == "{{" + Body(p) + "}}"
  {
    assert p[0] == p[..2][0] && p[1] == p[..2][1];
    assert p[|p| - 2] == p[|p| - 2..][0] && p[|p| - 1] == p[|p| - 2..][1];
    forall i | 2 <= i < |p| - 2 ensures p[i] != '{' && p[i] != '}' {
      assert p[i] == Body(p)[i - 2];
    }
  }

  /** At most one placeholder starts at a position. */
  lemma PlaceholderUnique(p: string, q: string, s: string)
    requires IsPlaceholder(p) && IsPlaceholder(q) && p <= s && q <= s
    ensures p == q
  {
    PlaceholderChars(p);
    PlaceholderChars(q);
    assert p[|p| - 2] == s[|p| - 2] && p[|p| - 1] == s[|p| - 1];
    assert q[|q| - 2] == s[|q| - 2] && q[|q| - 1] == s[|q| - 1];
  }

  // ----- One simultaneous substitution

  ghost predicate KeyStarts(s: string, m: Entries) {
    exists p :: p in m && p <= s
  }

  ghost function Key(s: string, m: Entries): (p: string)
    requires KeyStarts(s, m)
    ensures p in m && p <= s
  {
    var p :| p in m && p <= s; p
  }

  ghost function Substitute(s: string, m: Entries): string
    requires Shaped(m)
    decreases |s|
  {
    if s == "" then ""
    else if KeyStarts(s, m) then
      var p := Key(s, m);
      assert IsPlaceholder(p);
      m[p] + Substitute(s[|p|..], m)
    else [s[0]] + Substitute(s[1..], m)
  }

  lemma SubstituteKey(s: string, m: Entries, p: string)
    requires Shaped(m) && p in m && p <= s
    ensures Substitute(s, m) == m[p] + Substitute(s[|p|..], m)
  {
    PlaceholderUnique(p, Key(s, m), s);
    assert IsPlaceholder(p);
  }

  lemma SubstituteChar(s: string, m: Entries)
    requires Shaped(m) && s != "" && !KeyStarts(s, m)
    ensures Substitute(s, m) == [s[0]] + Substitute(s[1..], m)
  {
  }

  lemma {:induction false} SubstituteNothing(s: string)
    ensures Substitute(s, map[]) == s
  {
    if s != "" {
      SubstituteNothing(s[1..]);
    }
  }

  // No placeholder starts strictly inside another.
  lemma NothingStartsInside(p: string, i: nat, t: string, q: string)
    requires IsPlaceholder(p) && IsPlaceholder(q) && 1 <= i < |p|
    ensures !(q <= p[i..] + t)
  {
    PlaceholderChars(p);
    PlaceholderChars(q);
    var s := p[i..] + t;
    assert s[0] == p[i];
    assert i == 1 ==> s[1] == p[2];
  }

  lemma {:induction false} SubstituteInside(p: string, i: nat, t: string, m: Entries)
    requires Shaped(m) && IsPlaceholder(p) && 1 <= i <= |p|
    ensures Substitute(p[i..] + t, m) == p[i..] + Substitute(t, m)
    decreases |p| - i
  {
    if i == |p| {
      assert p[i..] + t == t;
    } else {
      var s := p[i..] + t;
      forall q | q in m ensures !(q <= s) {
        NothingStartsInside(p, i, t, q);
      }
      assert s[0] == p[i] && s[1..] == p[i + 1..] + t;
      SubstituteChar(s, m);
      hide Substitute;
      SubstituteInside(p, i + 1, t, m);
      assert p[i..] == [p[i]] + p[i + 1..];
    }
  }

  /** A placeholder the map does not hold passes through. */
  lemma SubstituteForeign(p: string, t: string, m: Entries)
    requires Shaped(m) && IsPlaceholder(p) && p !in m
    ensures Substitute(p + t, m) == p + Substitute(t, m)
  {
    var s := p + t;
    forall q | q in m ensures !(q <= s) {
      if q <= s {
        PlaceholderUnique(p, q, s);
      }
    }
    assert s[0] == p[0] && s[1..] == p[1..] + t;
    SubstituteInside(p, 1, t, m);
    assert p == [p[0]] + p[1..];
  }

  // ----- One replacement pass

  lemma {:induction false} ReplaceLiteral(a: string, t: string, p: string, v: string)
    requires BraceFree(a) && IsPlaceholder(p)
    ensures Replace(a + t, p, v) == a + Replace(t, p, v)
    decreases |a|
  {
    hide Replace, IsPlaceholder;
    if a == "" {
      assert a + t == t;
    } else {
      PlaceholderChars(p);
      var s := a + t;
      assert s[0] == a[0] && s[1..] == a[1..] + t;
      ReplaceStep(s, p, v);
      ReplaceLiteral(a[1..], t, p, v);
      assert a == [a[0]] + a[1..];
    }
  }

  lemma ReplaceStep(s: string, p: string, v: string)
    requires s != "" && p != "" && !(p <= s)
    ensures Replace(s, p, v) == [s[0]] + Replace(s[1..], p, v)
  {
    if |s| < |p| {
      ReplaceShort(s[1..], p, v);
    }
  }

  lemma ReplaceShort(t: string, p: string, v: string)
    requires p != "" && |t| < |p|
    ensures Replace(t, p, v) == t
  {
  }

  lemma ReplaceHere(p: string, t: string, v: string)
    requires p != ""
    ensures Replace(p + t, p, v) == v + Replace(t, p, v)
  {
    assert (p + t)[|p|..] == t;
  }

  /** A placeholder suffix that appears only after substituting was completed by
      some substituted value lying inside it. */
  lemma {:induction false} FormedByValue(t: string, s: string, m: Entries) returns (q: string)
    requires WellFormed(m) && t != "" && t[|t| - 1] == '}'
    requires t <= Substitute(s, m) && !(t <= s)
    ensures q in m && Within(m[q], t)
    decreases |s|
  {
    if KeyStarts(s, m) {
      q := Key(s, m);
      var v := m[q];
      assert BraceFree(v);
      var r := Substitute(s, m);
      assert r == v + Substitute(s[|q|..], m);
      assert r[|t| - 1] == '}';
      assert |v| < |t|;
      assert t[..|v|] == r[..|v|] == v;
      assert OccursAt(t, v, 0);
    } else {
      var r := Substitute(s, m);
      assert r == [s[0]] + Substitute(s[1..], m);
      assert t[0] == r[0] == s[0];
      assert t == [t[0]] + t[1..] && s == [s[0]] + s[1..];
      assert t[1..] <= Substitute(s[1..], m);
      q := FormedByValue(t[1..], s[1..], m);
      WithinTail(m[q], t);
    }
  }

  lemma WithinTail(v: string, t: string)
    requires t != "" && Within(v, t[1..])
    ensures Within(v, t)
  {
    var i :| 0 <= i <= |t[1..]| && OccursAt(t[1..], v, i);
    assert t[1..][i..i + |v|] == t[1 + i..1 + i + |v|];
    assert OccursAt(t, v, i + 1);
  }

  // A brace-free part of a placeholder is a part of its body.
  lemma WithinBody(v: string, p: string)
    requires IsPlaceholder(p) && BraceFree(v) && Within(v, p)
    ensures Within(v, Body(p))
  {
    PlaceholderChars(p);
    if v == "" {
      assert OccursAt(Body(p), v, 0);
    } else {
      var i :| 0 <= i <= |p| && OccursAt(p, v, i);
      assert p[i] == p[i..i + |v|][0] == v[0];
      assert p[i + |v| - 1] == p[i..i + |v|][|v| - 1] == v[|v| - 1];
      var j := i + |v| - 1;
      assert p[j] == v[|v| - 1];
      assert 2 <= i && j < |p| - 2;
      assert Body(p)[i - 2..i - 2 + |v|] == p[i..i + |v|];
      assert OccursAt(Body(p), v, i - 2);
    }
  }

  /** Replacing one more placeholder after a substitution is substituting one
      more entry at once, when no value could complete that placeholder. */
  lemma {:induction false} ReplaceAfterSubstitute(s: string, m: Entries, p: string, v: string)
    requires WellFormed(m) && IsPlaceholder(p) && p !in m
    requires forall q :: q in m ==> !Within(m[q], Body(p))
    ensures Replace(Substitute(s, m), p, v) == Substitute(s, m[p := v])
    decreases |s|
  {
    var n := m[p := v];
    if s == "" {
    } else if KeyStarts(s, m) {
      var q := Key(s, m);
      var t := s[|q|..];
      SubstituteKey(s, m, q);
      SubstituteKey(s, n, q);
      ReplaceLiteral(m[q], Substitute(t, m), p, v);
      ReplaceAfterSubstitute(t, m, p, v);
    } else if p <= s {
      var t := s[|p|..];
      assert s == p + t;
      SubstituteForeign(p, t, m);
      SubstituteKey(s, n, p);
      ReplaceHere(p, Substitute(t, m), v);
      ReplaceAfterSubstitute(t, m, p, v);
    } else {
      var r := Substitute(s, m);
      ReplaceAfterSubstitute(s[1..], m, p, v);
      assert r == [s[0]] + Substitute(s[1..], m);
      NotCompleted(s, m, p);
      assert !KeyStarts(s, n);
      ReplaceStep(r, p, v);
      assert r[1..] == Substitute(s[1..], m);
    }
  }

  lemma NotCompleted(s: string, m: Entries, p: string)
    requires WellFormed(m) && IsPlaceholder(p) && !(p <= s)
    requires forall q :: q in m ==> !Within(m[q], Body(p))
    ensures !(p <= Substitute(s, m))
  {
    if p <= Substitute(s, m) {
      PlaceholderChars(p);
      var q := FormedByValue(p, s, m);
      WithinBody(m[q], p);
    }
  }

  // ----- Restoring in some order

  ghost predicate IsOrder(order: seq<string>, m: Entries) {
    && (forall i, j :: 0 <= i < j < |order| ==> order[i] != order[j])
    && (forall p :: p in m <==> p in order)
  }

  function RestoreInOrder(s: string, order: seq<string>, m: Entries): string
    requires forall p :: p in order ==> p in m
  {
    if order == [] then s
    else
      var n := |order| - 1;
      Replace(RestoreInOrder(s, order[..n], m), order[n], m[order[n]])
  }

  /** No value could complete another entry's placeholder. */
  ghost predicate OrderFree(m: Entries)
    requires Shaped(m)
  {
    forall p, q :: p in m && q in m && p != q ==> !Within(m[q], Body(p))
  }

  ghost function Restrict(m: Entries, keys: seq<string>): Entries {
    map p | p in m && p in keys :: m[p]
  }

  lemma {:induction false} RestorePrefix(s: string, order: seq<string>, m: Entries)
    requires WellFormed(m) && OrderFree(m)
    requires (forall i, j :: 0 <= i < j < |order| ==> order[i] != order[j]) && forall p :: p in order ==> p in m
    ensures RestoreInOrder(s, order, m) == Substitute(s, Restrict(m, order))
  {
    hide Replace, Substitute, Within, Body;
    if order == [] {
      SubstituteNothing(s);
      assert Restrict(m, order) == map[];
    } else {
      var n := |order| - 1;
      var p := order[n];
      RestorePrefix(s, order[..n], m);
      assert p !in order[..n];
      ReplaceAfterSubstitute(s, Restrict(m, order[..n]), p, m[p]);
      assert order == order[..n] + [p];
      assert Restrict(m, order[..n])[p := m[p]] == Restrict(m, order);
    }
  }

  /** When no value could complete another placeholder, every order gives the one
      simultaneous substitution. */
  lemma AnyOrderSubstitutes(s: string, order: seq<string>, m: Entries)
    requires WellFormed(m) && OrderFree(m) && IsOrder(order, m)
    ensures RestoreInOrder(s, order, m) == Substitute(s, m)
  {
    RestorePrefix(s, order, m);
    assert Restrict(m, order) == m;
  }
}
