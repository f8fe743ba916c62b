/** Rust's `sort` and `sort_by` on a vector, as a stable insertion sort
    under a comparison that is a total preorder. */
module Sorting {

  /** `le(a, b)`: `a` may stand before `b`. */
  ghost predicate TotalPreorder<T(!new)>(le: (T, T) -> bool) {
    (forall a, b :: le(a, b) || le(b, a))
    && (forall a, b, c :: le(a, b) && le(b, c) ==> le(a, c))
  }

  predicate SortedBy<T>(xs: seq<T>, le: (T, T) -> bool) {
    forall i, j :: 0 <= i < j < |xs| ==> le(xs[i], xs[j])
  }

  /** Places `x` after every element that may stand before it. */
  function Insert<T>(x: T, xs: seq<T>, le: (T, T) -> bool): (r: seq<T>)
    ensures |r| == |xs| + 1
  {
    if xs == [] then [x]
    else if !le(xs[0], x) then [x] + xs
    else [xs[0]] + Insert(x, xs[1..], le)
  }

  /** The elements in order of `le`, equal elements in their input order. */
  function SortBy<T>(xs: seq<T>, le: (T, T) -> bool): (r: seq<T>)
    ensures |r| == |xs|
  {
    if xs == [] then [] else Insert(xs[|xs| - 1], SortBy(xs[..|xs| - 1], le), le)
  }

  lemma {:induction false} InsertPermutes<T>(x: T, xs: seq<T>, le: (T, T) -> bool)
    ensures multiset(Insert(x, xs, le)) == multiset(xs) + multiset{x}
  {
    if xs != [] && le(xs[0], x) {
      InsertPermutes(x, xs[1..], le);
      assert xs == [xs[0]] + xs[1..];
    }
  }

  lemma {:induction false} InsertSorted<T(!new)>(x: T, xs: seq<T>, le: (T, T) -> bool)
    requires TotalPreorder(le) && SortedBy(xs, le)
    ensures SortedBy(Insert(x, xs, le), le)
  {
    if xs != [] && le(xs[0], x) {
      InsertSorted(x, xs[1..], le);
      InsertPermutes(x, xs[1..], le);
      var r := Insert(x, xs[1..], le);
      forall j | 0 <= j < |r|
        ensures le(xs[0], r[j])
      {
        assert r[j] in multiset(r);
        assert r[j] == x || r[j] in multiset(xs[1..]);
        if r[j] != x {
          var k :| 0 <= k < |xs[1..]| && xs[1..][k] == r[j];
          assert xs[k + 1] == r[j];
        }
      }
    }
  }

  /** The result is a permutation of the input. */
  lemma {:induction false} SortPermutes<T>(xs: seq<T>, le: (T, T) -> bool)
    ensures multiset(SortBy(xs, le)) == multiset(xs)
  {
    if xs != [] {
      var init := xs[..|xs| - 1];
      SortPermutes(init, le);
      InsertPermutes(xs[|xs| - 1], SortBy(init, le), le);
      assert xs == init + [xs[|xs| - 1]];
    }
  }

  /** The result is sorted. */
  lemma {:induction false} SortSorted<T(!new)>(xs: seq<T>, le: (T, T) -> bool)
    requires TotalPreorder(le)
    ensures SortedBy(SortBy(xs, le), le)
  {
    if xs != [] {
      SortSorted(xs[..|xs| - 1], le);
      InsertSorted(xs[|xs| - 1], SortBy(xs[..|xs| - 1], le), le);
    }
  }

  /** `a` and `b` may each stand before the other. */
  predicate Equivalent<T>(le: (T, T) -> bool, a: T, b: T) {
    le(a, b) && le(b, a)
  }

  /** The elements of `xs` equivalent to `e`, in their order in `xs`. */
  function EquivalentsOf<T>(xs: seq<T>, le: (T, T) -> bool, e: T): (r: seq<T>)
    ensures |r| <= |xs|
    ensures forall k :: 0 <= k < |r| ==> Equivalent(le, r[k], e)
  {
    if xs == [] then []
    else (if Equivalent(le, xs[0], e) then [xs[0]] else []) + EquivalentsOf(xs[1..], le, e)
  }

  lemma {:induction false} EquivalentsOfSnoc<T>(xs: seq<T>, x: T, le: (T, T) -> bool, e: T)
    ensures EquivalentsOf(xs + [x], le, e) ==
      EquivalentsOf(xs, le, e) + if Equivalent(le, x, e) then [x] else []
  {
    if xs == [] {
      assert xs + [x] == [x];
    } else {
      assert (xs + [x])[1..] == xs[1..] + [x];
      EquivalentsOfSnoc(xs[1..], x, le, e);
    }
  }

  /** No element of `xs` is equivalent to `e`. */
  lemma {:induction false} EquivalentsOfNone<T>(xs: seq<T>, le: (T, T) -> bool, e: T)
    requires forall k :: 0 <= k < |xs| ==> !Equivalent(le, xs[k], e)
    ensures EquivalentsOf(xs, le, e) == []
  {
    if xs != [] {
      EquivalentsOfNone(xs[1..], le, e);
    }
  }

  lemma EquivalentsOfCons<T>(a: T, xs: seq<T>, le: (T, T) -> bool, e: T)
    ensures EquivalentsOf([a] + xs, le, e) ==
      (if Equivalent(le, a, e) then [a] else []) + EquivalentsOf(xs, le, e)
  {
    assert ([a] + xs)[1..] == xs;
  }

  lemma InsertCons<T>(x: T, xs: seq<T>, le: (T, T) -> bool)
    requires xs != []
    ensures Insert(x, xs, le) ==
      if le(xs[0], x) then [xs[0]] + Insert(x, xs[1..], le) else [x] + xs
  {
  }

  /** Inserting an element not equivalent to `e` leaves the elements
      equivalent to `e` as they were. */
  lemma {:induction false} InsertOther<T>(x: T, xs: seq<T>, le: (T, T) -> bool, e: T)
    requires !Equivalent(le, x, e)
    ensures EquivalentsOf(Insert(x, xs, le), le, e) == EquivalentsOf(xs, le, e)
  {
    if xs != [] {
      InsertCons(x, xs, le);
      if le(xs[0], x) {
        InsertOther(x, xs[1..], le, e);
        EquivalentsOfCons(xs[0], Insert(x, xs[1..], le), le, e);
      } else {
        EquivalentsOfCons(x, xs, le, e);
      }
    }
  }

  /** Inserting an element equivalent to `e` into a sorted sequence places
      it after every element equivalent to `e`. */
  lemma {:induction false} InsertEquivalent<T(!new)>(x: T, xs: seq<T>, le: (T, T) -> bool, e: T)
    requires TotalPreorder(le) && SortedBy(xs, le) && Equivalent(le, x, e)
    ensures EquivalentsOf(Insert(x, xs, le), le, e) == EquivalentsOf(xs, le, e) + [x]
  {
    if xs != [] {
      InsertCons(x, xs, le);
      if le(xs[0], x) {
        SortedTail(xs, le);
        InsertEquivalent(x, xs[1..], le, e);
        EquivalentsOfCons(xs[0], Insert(x, xs[1..], le), le, e);
      } else {
        InsertBeforeAll(x, xs, le, e);
        EquivalentsOfCons(x, xs, le, e);
      }
    }
  }

  lemma SortedTail<T>(xs: seq<T>, le: (T, T) -> bool)
    requires xs != [] && SortedBy(xs, le)
    ensures SortedBy(xs[1..], le)
  {
    forall i, j | 0 <= i < j < |xs| - 1
      ensures le(xs[1..][i], xs[1..][j])
    {
      assert xs[1..][i] == xs[i + 1] && xs[1..][j] == xs[j + 1];
    }
  }

  /** When the first element of a sorted sequence may not stand before `x`,
      and `x` is equivalent to `e`, no element is equivalent to `e`: each
      is at or after the first one. */
  lemma InsertBeforeAll<T(!new)>(x: T, xs: seq<T>, le: (T, T) -> bool, e: T)
    requires TotalPreorder(le) && SortedBy(xs, le) && Equivalent(le, x, e)
    requires xs != [] && !le(xs[0], x)
    ensures EquivalentsOf(xs, le, e) == []
  {
    forall k | 0 <= k < |xs|
      ensures !Equivalent(le, xs[k], e)
    {
      if k == 0 {
        BeforeEquivalent(le, xs[0], xs[0], x, e);
      } else {
        BeforeEquivalent(le, xs[0], xs[k], x, e);
      }
    }
    EquivalentsOfNone(xs, le, e);
  }

  /** Whatever may stand before an element equivalent to `e` may stand
      before anything `e` may stand before. */
  lemma BeforeEquivalent<T(!new)>(le: (T, T) -> bool, a: T, b: T, x: T, e: T)
    requires TotalPreorder(le) && le(a, b) && le(e, x)
    ensures Equivalent(le, b, e) ==> le(a, x)
  {
    if Equivalent(le, b, e) {
      assert le(b, x);
    }
  }

  /** The sort is stable: the elements equivalent to any `e` come out in
      the order they went in. */
  lemma {:induction false} SortStable<T(!new)>(xs: seq<T>, le: (T, T) -> bool, e: T)
    requires TotalPreorder(le)
    ensures EquivalentsOf(SortBy(xs, le), le, e) == EquivalentsOf(xs, le, e)
  {
    if xs != [] {
      var init := xs[..|xs| - 1];
      var x := xs[|xs| - 1];
      SortStable(init, le, e);
      SortSorted(init, le);
      if Equivalent(le, x, e) {
        InsertEquivalent(x, SortBy(init, le), le, e);
      } else {
        InsertOther(x, SortBy(init, le), le, e);
      }
      assert xs == init + [x];
      EquivalentsOfSnoc(init, x, le, e);
    }
  }
}
