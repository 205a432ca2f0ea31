/** A stable sort by an order relation, as the library `sorted` with a key. */
module Sorting {
  function InsertBy<T>(x: T, ys: seq<T>, leq: (T, T) -> bool): seq<T> {
    if ys == [] || leq(x, ys[0]) then [x] + ys else [ys[0]] + InsertBy(x, ys[1..], leq)
  }

  function SortBy<T>(xs: seq<T>, leq: (T, T) -> bool): seq<T> {
    if xs == [] then [] else InsertBy(xs[0], SortBy(xs[1..], leq), leq)
  }

  ghost predicate Ordered<T>(xs: seq<T>, leq: (T, T) -> bool) {
    forall i, j :: 0 <= i < j < |xs| ==> leq(xs[i], xs[j])
  }

  ghost predicate TotalPreorder<T(!new)>(leq: (T, T) -> bool) {
    && (forall a, b :: leq(a, b) || leq(b, a))
    && (forall a, b, c :: leq(a, b) && leq(b, c) ==> leq(a, c))
  }

  lemma {:induction false} InsertPermutes<T>(x: T, ys: seq<T>, leq: (T, T) -> bool)
    ensures multiset(InsertBy(x, ys, leq)) == multiset([x] + ys)
  {
    if ys == [] || leq(x, ys[0]) {
    } else {
      InsertPermutes(x, ys[1..], leq);
      assert ys == [ys[0]] + ys[1..];
    }
  }

  lemma {:induction false} SortPermutes<T>(xs: seq<T>, leq: (T, T) -> bool)
    ensures multiset(SortBy(xs, leq)) == multiset(xs)
  {
    if xs != [] {
      SortPermutes(xs[1..], leq);
      InsertPermutes(xs[0], SortBy(xs[1..], leq), leq);
      assert xs == [xs[0]] + xs[1..];
    }
  }

  lemma {:induction false} InsertOrders<T(!new)>(x: T, ys: seq<T>, leq: (T, T) -> bool)
    requires TotalPreorder(leq) && Ordered(ys, leq)
    ensures Ordered(InsertBy(x, ys, leq), leq)
  {
    if ys == [] || leq(x, ys[0]) {
      forall j | 0 <= j < |ys| ensures leq(x, ys[j]) {
        assert j > 0 ==> leq(ys[0], ys[j]);
      }
    } else {
      InsertOrders(x, ys[1..], leq);
      var zs := InsertBy(x, ys[1..], leq);
      forall j | 0 <= j < |zs| ensures leq(ys[0], zs[j]) {
        InsertPermutes(x, ys[1..], leq);
        assert zs[j] in multiset(zs);
        assert zs[j] in [x] + ys[1..];
        if zs[j] != x {
          var k :| 0 <= k < |ys[1..]| && ys[1..][k] == zs[j];
          assert leq(ys[0], ys[k + 1]);
        }
      }
    }
  }

  lemma {:induction false} SortOrders<T(!new)>(xs: seq<T>, leq: (T, T) -> bool)
    requires TotalPreorder(leq)
    ensures Ordered(SortBy(xs, leq), leq)
  {
    if xs != [] {
      SortOrders(xs[1..], leq);
      InsertOrders(xs[0], SortBy(xs[1..], leq), leq);
    }
  }

  lemma SortMembers<T>(xs: seq<T>, leq: (T, T) -> bool)
    ensures forall x :: x in SortBy(xs, leq) <==> x in xs
    ensures |SortBy(xs, leq)| == |xs|
  {
    SortPermutes(xs, leq);
    assert forall x :: x in SortBy(xs, leq) <==> x in multiset(SortBy(xs, leq));
    assert forall x :: x in xs <==> x in multiset(xs);
    assert |multiset(SortBy(xs, leq))| == |SortBy(xs, leq)| && |multiset(xs)| == |xs|;
  }

  // ----- Stability

  /** The elements that are neither before nor after `a`, in the list's order. */
  function TiedWith<T>(xs: seq<T>, a: T, leq: (T, T) -> bool): seq<T> {
    if xs == [] then []
    else (if leq(a, xs[0]) && leq(xs[0], a) then [xs[0]] else []) + TiedWith(xs[1..], a, leq)
  }

  lemma {:induction false} InsertIsStable<T(!new)>(x: T, ys: seq<T>, leq: (T, T) -> bool, a: T)
    requires TotalPreorder(leq)
    ensures TiedWith(InsertBy(x, ys, leq), a, leq) == TiedWith([x] + ys, a, leq)
  {
    assert ([x] + ys)[1..] == ys;
    if ys != [] && !leq(x, ys[0]) {
      InsertIsStable(x, ys[1..], leq, a);
      var zs := InsertBy(x, ys[1..], leq);
      assert ([ys[0]] + zs)[1..] == zs;
      assert ([x] + ys[1..])[1..] == ys[1..];
    }
  }

  /** Elements that tie keep their order. */
  lemma {:induction false} SortIsStable<T(!new)>(xs: seq<T>, leq: (T, T) -> bool, a: T)
    requires TotalPreorder(leq)
    ensures TiedWith(SortBy(xs, leq), a, leq) == TiedWith(xs, a, leq)
  {
    if xs != [] {
      SortIsStable(xs[1..], leq, a);
      InsertIsStable(xs[0], SortBy(xs[1..], leq), leq, a);
      assert ([xs[0]] + SortBy(xs[1..], leq))[1..] == SortBy(xs[1..], leq);
    }
  }

  // ----- Lists without repeats

  ghost predicate NoRepeats<T>(s: seq<T>) {
    forall i, j :: 0 <= i < j < |s| ==> s[i] != s[j]
  }

  lemma {:induction false} CountNoRepeats<T>(s: seq<T>, x: T)
    requires NoRepeats(s)
    ensures multiset(s)[x] == if x in s then 1 else 0
  {
    if s != [] {
      var n := |s| - 1;
      CountNoRepeats(s[..n], x);
      assert s == s[..n] + [s[n]];
    }
  }

  /** The elements of a set, in some order. */
  lemma {:induction false} Enumerate<T>(s: set<T>) returns (xs: seq<T>)
    ensures NoRepeats(xs) && forall x :: x in s <==> x in xs
  {
    if s == {} {
      xs := [];
    } else {
      var y :| y in s;
      var rest := Enumerate(s - {y});
      xs := rest + [y];
      forall x ensures x in s <==> x in xs {
        assert x in xs <==> x in rest || x == y;
        assert x in s - {y} <==> x in rest;
      }
    }
  }

  lemma {:induction false} InsertNoRepeats<T>(x: T, ys: seq<T>, leq: (T, T) -> bool)
    requires NoRepeats(ys) && x !in ys
    ensures NoRepeats(InsertBy(x, ys, leq))
  {
    if ys != [] && !leq(x, ys[0]) {
      InsertNoRepeats(x, ys[1..], leq);
      InsertPermutes(x, ys[1..], leq);
      var zs := InsertBy(x, ys[1..], leq);
      forall k | 0 <= k < |zs| ensures zs[k] != ys[0] {
        assert zs[k] in multiset(zs);
        assert zs[k] in [x] + ys[1..];
      }
    }
  }

  lemma {:induction false} SortNoRepeats<T>(xs: seq<T>, leq: (T, T) -> bool)
    requires NoRepeats(xs)
    ensures NoRepeats(SortBy(xs, leq))
  {
    if xs != [] {
      SortNoRepeats(xs[1..], leq);
      SortMembers(xs[1..], leq);
      assert xs[0] !in xs[1..];
      InsertNoRepeats(xs[0], SortBy(xs[1..], leq), leq);
    }
  }
}
