/** When the order in which a vault's entries are replaced can be seen, and when
    it cannot. */
module RestoreOrder {
  import opened Strings
  import opened Sorting
  import opened Placeholders

  lemma ReplaceIsSubstitute(s: string, p: string, v: string)
    requires IsPlaceholder(p)
    ensures Replace(s, p, v) == Substitute(s, map[p := v])
  {
    SubstituteNothing(s);
    ReplaceAfterSubstitute(s, map[], p, v);
  }

  lemma ReplaceForeign(q: string, t: string, p: string, v: string)
    requires IsPlaceholder(p) && IsPlaceholder(q) && p != q
    ensures Replace(q + t, p, v) == q + Replace(t, p, v)
  {
    ReplaceIsSubstitute(q + t, p, v);
    ReplaceIsSubstitute(t, p, v);
    SubstituteForeign(q, t, map[p := v]);
  }

  lemma {:induction false} ReplaceNoOpener(s: string, p: string, v: string)
    requires IsPlaceholder(p) && forall i :: 0 <= i < |s| ==> s[i] != '{'
    ensures Replace(s, p, v) == s
  {
    if s != "" {
      PlaceholderChars(p);
      ReplaceStep(s, p, v);
      ReplaceNoOpener(s[1..], p, v);
    }
  }

  // ----- A placeholder wrapped in the pieces of another one

  /** The placeholder `q` between `{{x` and `y}}`. */
  function Wrapped(x: string, q: string, y: string): string {
    "{{" + (x + (q + (y + "}}")))
  }

  lemma NoPlaceholderOpens(x: string, u: string, r: string)
    requires BraceFree(x) && |u| >= 2 && u[0] == '{' && u[1] == '{' && IsPlaceholder(r)
    ensures !(r <= "{{" + (x + u)) && !(r <= "{" + (x + u))
  {
    PlaceholderChars(r);
    var s := "{{" + (x + u);
    assert s[2 + |x|] == '{' && forall i :: 2 <= i < 2 + |x| ==> s[i] == x[i - 2];
    var t := "{" + (x + u);
    assert x != "" ==> t[1] == x[0];
    assert x == "" ==> t[2] == '{';
  }

  lemma ReplacePastOpening(x: string, u: string, r: string, v: string)
    requires BraceFree(x) && |u| >= 2 && u[0] == '{' && u[1] == '{' && IsPlaceholder(r)
    ensures Replace("{{" + (x + u), r, v) == "{{" + (x + Replace(u, r, v))
  {
    var s := "{{" + (x + u);
    NoPlaceholderOpens(x, u, r);
    ReplaceStep(s, r, v);
    assert s[1..] == "{" + (x + u);
    ReplaceStep(s[1..], r, v);
    assert s[1..][1..] == x + u;
    ReplaceLiteral(x, u, r, v);
  }

  lemma ReplaceWrapped(x: string, q: string, y: string, r: string, v: string)
    requires BraceFree(x) && BraceFree(y) && IsPlaceholder(q) && IsPlaceholder(r)
    ensures Replace(Wrapped(x, q, y), r, v) == Wrapped(x, if q == r then v else q, y)
  {
    var tail := y + "}}";
    PlaceholderChars(q);
    ReplacePastOpening(x, q + tail, r, v);
    ReplaceNoOpener(tail, r, v);
    if q == r {
      ReplaceHere(r, tail, v);
    } else {
      ReplaceForeign(q, tail, r, v);
    }
  }

  lemma {:induction false} RestoreConcat(s: string, a: seq<string>, b: seq<string>, m: Entries)
    requires forall p :: p in a + b ==> p in m
    requires (forall p :: p in a ==> p in m) && (forall p :: p in b ==> p in m)
    ensures RestoreInOrder(s, a + b, m) == RestoreInOrder(RestoreInOrder(s, a, m), b, m)
    decreases |b|
  {
    if b == [] {
      assert a + b == a;
    } else {
      var n := |b| - 1;
      assert (a + b)[..|a + b| - 1] == a + b[..n];
      assert forall p :: p in a + b[..n] ==> p in a + b;
      RestoreConcat(s, a, b[..n], m);
    }
  }

  lemma {:induction false} RestoreKeeps(s: string, order: seq<string>, m: Entries)
    requires WellFormed(m) && (forall p :: p in order ==> p in m)
    requires BraceFree(s) || (IsPlaceholder(s) && s !in order)
    ensures RestoreInOrder(s, order, m) == s
  {
    if order != [] {
      var n := |order| - 1;
      var r := order[n];
      RestoreKeeps(s, order[..n], m);
      assert r in order && IsPlaceholder(r);
      if BraceFree(s) {
        ReplaceNoOpener(s, r, m[r]);
      } else {
        ReplaceForeign(s, "", r, m[r]);
        assert s + "" == s;
        ReplaceShort("", r, m[r]);
      }
    }
  }

  // The two orders that tell the entries `p` and `q` apart.
  lemma TwoOrders(m: Entries, p: string, q: string) returns (rest: seq<string>)
    requires p in m && q in m && p != q
    ensures IsOrder([q, p] + rest, m) && IsOrder([p, q] + rest, m) && p !in rest
  {
    rest := Enumerate(m.Keys - {p, q});
    forall k ensures k in m <==> k in [q, p] + rest {
      assert k in rest <==> k in m.Keys - {p, q};
    }
    forall k ensures k in m <==> k in [p, q] + rest {
      assert k in rest <==> k in m.Keys - {p, q};
    }
  }

  lemma RestoreTwo(s: string, a: string, b: string, rest: seq<string>, m: Entries)
    requires a in m && b in m && forall k :: k in rest ==> k in m
    ensures forall k :: k in [a, b] + rest ==> k in m
    ensures RestoreInOrder(s, [a, b] + rest, m)
            == RestoreInOrder(Replace(Replace(s, a, m[a]), b, m[b]), rest, m)
  {
    assert forall k :: k in [a, b] + rest ==> k in m;
    RestoreConcat(s, [a, b], rest, m);
    assert [a, b][..1] == [a] && [a][..0] == [];
    assert RestoreInOrder(s, [], m) == s;
    assert RestoreInOrder(s, [a], m) == Replace(s, a, m[a]);
  }

  /** If the value of `q` is part of the body of another entry `p`, some content
      restores differently under two orders: with `{{A_1}} -> "X"` and
      `{{B_1}} -> "A_1"`, the content `{{{{B_1}}}}` gives `X` or `{{A_1}}`. */
  lemma OrderMatters(m: Entries, p: string, q: string)
    returns (content: string, qFirst: seq<string>, pFirst: seq<string>)
    requires WellFormed(m) && p in m && q in m && p != q && Within(m[q], Body(p))
    ensures IsOrder(qFirst, m) && IsOrder(pFirst, m)
    ensures RestoreInOrder(content, qFirst, m) == m[p]
    ensures RestoreInOrder(content, pFirst, m) == p
    ensures m[p] != p
  {
    hide IsPlaceholder, Replace, RestoreInOrder;
    assert IsPlaceholder(p) && IsPlaceholder(q);
    PlaceholderChars(p);
    var body, v := Body(p), m[q];
    var i :| 0 <= i <= |body| && OccursAt(body, v, i);
    var x, y := body[..i], body[i + |v|..];
    assert body == x + (v + y);
    assert BraceFree(x) && BraceFree(y) by {
      assert forall k :: 0 <= k < |x| ==> x[k] == body[k];
      assert forall k :: 0 <= k < |y| ==> y[k] == body[i + |v| + k];
    }
    content := Wrapped(x, q, y);
    assert Wrapped(x, v, y) == p;
    var rest := TwoOrders(m, p, q);
    qFirst, pFirst := [q, p] + rest, [p, q] + rest;
    assert forall k :: k in rest ==> k in qFirst;
    ReplaceWrapped(x, q, y, q, v);
    ReplaceWrapped(x, q, y, p, m[p]);
    ReplaceHere(p, "", m[p]);
    ReplaceShort("", p, m[p]);
    assert p + "" == p && m[p] + "" == m[p];
    RestoreTwo(content, q, p, rest, m);
    RestoreTwo(content, p, q, rest, m);
    RestoreKeeps(m[p], rest, m);
    RestoreKeeps(p, rest, m);
  }

  /** A concrete content whose restored text depends on the order. */
  lemma OrderMattersExample()
    ensures var m: Entries := map["{{A_1}}" := "X", "{{B_1}}" := "A_1"];
            && RestoreInOrder("{{{{B_1}}}}", ["{{B_1}}", "{{A_1}}"], m) == "X"
            && RestoreInOrder("{{{{B_1}}}}", ["{{A_1}}", "{{B_1}}"], m) == "{{A_1}}"
  {
    hide Replace;
    var p, q := "{{A_1}}", "{{B_1}}";
    var m: Entries := map[p := "X", q := "A_1"];
    assert Body(p) == "A_1" && Body(q) == "B_1";
    assert IsPlaceholder(p) && IsPlaceholder(q) && p != q;
    var content := Wrapped("", q, "");
    assert content == "{{{{B_1}}}}" && Wrapped("", "A_1", "") == p;
    ReplaceWrapped("", q, "", q, "A_1");
    ReplaceWrapped("", q, "", p, "X");
    ReplaceHere(p, "", "X");
    ReplaceShort("", p, "X");
    assert p + "" == p;
    RestoreTwo(content, q, p, [], m);
    RestoreTwo(content, p, q, [], m);
    assert [q, p] + [] == [q, p] && [p, q] + [] == [p, q];
  }

  /** Restoring gives one result for every content and every order exactly when
      no value is part of another entry's placeholder body. */
  lemma OrderFreeIffUnobservable(m: Entries)
    requires WellFormed(m)
    ensures OrderFree(m) <==>
              forall content, a, b :: IsOrder(a, m) && IsOrder(b, m) ==>
                RestoreInOrder(content, a, m) == RestoreInOrder(content, b, m)
  {
    if OrderFree(m) {
      forall content, a, b | IsOrder(a, m) && IsOrder(b, m)
        ensures RestoreInOrder(content, a, m) == RestoreInOrder(content, b, m)
      {
        AnyOrderSubstitutes(content, a, m);
        AnyOrderSubstitutes(content, b, m);
      }
    } else {
      var p, q :| p in m && q in m && p != q && Within(m[q], Body(p));
      var content, a, b := OrderMatters(m, p, q);
    }
  }

  // ----- Contents made of brace-free text and placeholders

  /** A stretch of text, or a placeholder standing for `surface`. */
  datatype Piece = Lit(text: string) | Tok(token: string, surface: string)

  ghost predicate Clean(ps: seq<Piece>) {
    forall i :: 0 <= i < |ps| ==>
      match ps[i] case Lit(text) => BraceFree(text) case Tok(token, _) => IsPlaceholder(token)
  }

  function Shown(p: Piece): string {
    match p case Lit(text) => text case Tok(token, _) => token
  }

  /** What the pieces look like with placeholders in place. */
  function Render(ps: seq<Piece>): string {
    if ps == [] then "" else Shown(ps[0]) + Render(ps[1..])
  }

  function Stood(p: Piece): string {
    match p case Lit(text) => text case Tok(_, surface) => surface
  }

  /** What they look like with every placeholder replaced by what it stood for. */
  function Original(ps: seq<Piece>): string {
    if ps == [] then "" else Stood(ps[0]) + Original(ps[1..])
  }

  /** What they look like with every placeholder the map holds replaced by its value. */
  function Filled(ps: seq<Piece>, m: Entries): string {
    if ps == [] then ""
    else
      (match ps[0]
       case Lit(text) => text
       case Tok(token, _) => if token in m then m[token] else token)
      + Filled(ps[1..], m)
  }

  lemma {:induction false} ReplaceFilled(ps: seq<Piece>, m: Entries, p: string, v: string)
    requires Clean(ps) && WellFormed(m) && IsPlaceholder(p) && p !in m
    ensures Replace(Filled(ps, m), p, v) == Filled(ps, m[p := v])
  {
    if ps == [] {
      ReplaceShort("", p, v);
    } else {
      ReplaceFilled(ps[1..], m, p, v);
      var t := Filled(ps[1..], m);
      match ps[0]
      case Lit(text) => ReplaceLiteral(text, t, p, v);
      case Tok(token, _) =>
        if token in m {
          ReplaceLiteral(m[token], t, p, v);
        } else if token == p {
          ReplaceHere(p, t, v);
        } else {
          ReplaceForeign(token, t, p, v);
        }
    }
  }

  lemma {:induction false} FilledWithNothing(ps: seq<Piece>)
    ensures Filled(ps, map[]) == Render(ps)
  {
    if ps != [] {
      FilledWithNothing(ps[1..]);
    }
  }

  lemma {:induction false} RestorePieces(ps: seq<Piece>, order: seq<string>, m: Entries)
    requires Clean(ps) && WellFormed(m)
    requires (forall i, j :: 0 <= i < j < |order| ==> order[i] != order[j]) && forall p :: p in order ==> p in m
    ensures RestoreInOrder(Render(ps), order, m) == Filled(ps, Restrict(m, order))
  {
    hide Replace, Filled, Render, IsPlaceholder;
    if order == [] {
      FilledWithNothing(ps);
      assert Restrict(m, order) == map[];
    } else {
      var n := |order| - 1;
      var p := order[n];
      RestorePieces(ps, order[..n], m);
      assert p !in order[..n];
      ReplaceFilled(ps, Restrict(m, order[..n]), p, m[p]);
      assert order == order[..n] + [p];
      assert Restrict(m, order[..n])[p := m[p]] == Restrict(m, order);
    }
  }

  /** On text whose only braces are placeholders, every order fills the
      placeholders in, whatever brace-free values the vault holds. */
  lemma RestoreFillsPieces(ps: seq<Piece>, order: seq<string>, m: Entries)
    requires Clean(ps) && WellFormed(m) && IsOrder(order, m)
    ensures RestoreInOrder(Render(ps), order, m) == Filled(ps, m)
  {
    RestorePieces(ps, order, m);
    assert Restrict(m, order) == m;
  }
}
