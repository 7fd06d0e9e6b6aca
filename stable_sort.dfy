/** A stable comparison sort. `Array.prototype.sort` with a consistent comparator is
    stable, and a stable sort's result is determined by its input and its order
    (`SortUnique`), so this insertion sort stands for it. An order is given as `le`:
    `le(a, b)` holds when the comparator does not put `b` strictly before `a`. */
module StableSort {
  import opened Sequences

  /** `le` is total and transitive, as the comparator of a well-defined sort must be. */
  ghost predicate TotalPreorder<T(!new)>(le: (T, T) -> bool) {
    && (forall a, b :: le(a, b) || le(b, a))
    && (forall a, b, c :: le(a, b) && le(b, c) ==> le(a, c))
  }

  /** Every element may precede every later one. */
  ghost predicate Sorted<T>(s: seq<T>, le: (T, T) -> bool) {
    forall i, j :: 0 <= i < j < |s| ==> le(s[i], s[j])
  }

  /** The comparator calls `a` and `b` equal. */
  predicate Equivalent<T>(le: (T, T) -> bool, a: T, b: T) {
    le(a, b) && le(b, a)
  }

  /** The elements of `s` the order ranks equal to `k`, in their order in `s`. */
  function SameRank<T>(s: seq<T>, le: (T, T) -> bool, k: T): seq<T> {
    if s == [] then []
    else (if Equivalent(le, s[0], k) then [s[0]] else []) + SameRank(s[1..], le, k)
  }

  /** Inserts `x` before the first element it may precede. */
  function Insert<T>(x: T, s: seq<T>, le: (T, T) -> bool): (r: seq<T>)
    ensures multiset(r) == multiset(s) + multiset{x}
  {
    if s == [] then [x]
    else if le(x, s[0]) then [x] + s
    else
      assert s == [s[0]] + s[1..];
      [s[0]] + Insert(x, s[1..], le)
  }

  /** Stable insertion sort. */
  function Sort<T>(s: seq<T>, le: (T, T) -> bool): (r: seq<T>)
    ensures multiset(r) == multiset(s)
  {
    if s == [] then []
    else
      assert s == [s[0]] + s[1..];
      Insert(s[0], Sort(s[1..], le), le)
  }

  lemma {:induction false} InsertSorted<T(!new)>(x: T, s: seq<T>, le: (T, T) -> bool)
    requires TotalPreorder(le)
    requires Sorted(s, le)
    ensures Sorted(Insert(x, s, le), le)
  {
    if s != [] && !le(x, s[0]) {
      var tail := s[1..];
      InsertSorted(x, tail, le);
      var r := Insert(x, s, le);
      assert r == [s[0]] + Insert(x, tail, le);
      forall j | 1 <= j < |r|
        ensures le(s[0], r[j])
      {
        assert r[j] in multiset(Insert(x, tail, le));
        if r[j] != x {
          assert r[j] in tail;
        }
      }
    }
  }

  /** The sort orders its result. */
  lemma {:induction false} SortSorted<T(!new)>(s: seq<T>, le: (T, T) -> bool)
    requires TotalPreorder(le)
    ensures Sorted(Sort(s, le), le)
  {
    if s != [] {
      SortSorted(s[1..], le);
      InsertSorted(s[0], Sort(s[1..], le), le);
    }
  }

  lemma {:induction false} InsertSameRank<T>(x: T, s: seq<T>, le: (T, T) -> bool, k: T)
    requires Equivalent(le, x, k) ==> forall y :: Equivalent(le, y, k) ==> le(x, y)
    ensures SameRank(Insert(x, s, le), le, k)
         == (if Equivalent(le, x, k) then [x] else []) + SameRank(s, le, k)
  {
    if s == [] {
    } else if le(x, s[0]) {
      assert Insert(x, s, le)[1..] == s;
    } else {
      InsertSameRank(x, s[1..], le, k);
      var r := Insert(x, s, le);
      assert r[0] == s[0] && r[1..] == Insert(x, s[1..], le);
      var hs := if Equivalent(le, s[0], k) then [s[0]] else [];
      var hx := if Equivalent(le, x, k) then [x] else [];
      var rest := SameRank(s[1..], le, k);
      assert SameRank(r, le, k) == hs + SameRank(r[1..], le, k);
      assert SameRank(s, le, k) == hs + rest;
      if hs == [] {
        assert SameRank(r, le, k) == hx + rest;
        assert SameRank(s, le, k) == rest;
      } else {
        assert hx == [];
        assert SameRank(r, le, k) == hs + rest;
      }
    }
  }

  lemma Transitive<T(!new)>(le: (T, T) -> bool, a: T, b: T, c: T)
    requires TotalPreorder(le)
    requires le(a, b) && le(b, c)
    ensures le(a, c)
  {
  }

  /** Elements the order ranks equal keep their input order: the sort is stable. */
  lemma {:induction false} SortStable<T(!new)>(s: seq<T>, le: (T, T) -> bool, k: T)
    requires TotalPreorder(le)
    ensures SameRank(Sort(s, le), le, k) == SameRank(s, le, k)
  {
    if s != [] {
      SortStable(s[1..], le, k);
      forall y | Equivalent(le, s[0], k) && Equivalent(le, y, k)
        ensures le(s[0], y)
      {
        Transitive(le, s[0], k, y);
      }
      InsertSameRank(s[0], Sort(s[1..], le), le, k);
    }
  }

  /** A sorted, stable permutation of `s` is `Sort(s, le)`: every stable sort gives this result. */
  lemma {:induction false} SortUnique<T(!new)>(s: seq<T>, r: seq<T>, le: (T, T) -> bool)
    requires TotalPreorder(le)
    requires multiset(r) == multiset(s)
    requires Sorted(r, le)
    requires forall k :: SameRank(r, le, k) == SameRank(s, le, k)
    ensures r == Sort(s, le)
  {
    var q := Sort(s, le);
    SortSorted(s, le);
    assert forall x :: le(x, x);
    forall k
      ensures SameRank(r, le, k) == SameRank(q, le, k)
    {
      SortStable(s, le, k);
    }
    SortedStableEqual(r, q, le);
  }

  lemma {:induction false} SortedStableEqual<T>(r: seq<T>, q: seq<T>, le: (T, T) -> bool)
    requires forall x :: le(x, x)
    requires multiset(r) == multiset(q)
    requires Sorted(r, le) && Sorted(q, le)
    requires forall k :: SameRank(r, le, k) == SameRank(q, le, k)
    ensures r == q
    decreases |r|
  {
    if r == [] {
      assert |q| == |multiset(q)| == 0;
    } else {
      SameHead(r, q, le);
      MultisetTail(r, q);
      SameRanksTail(r, q, le);
      SortedTail(r, le);
      SortedTail(q, le);
      SortedStableEqual(r[1..], q[1..], le);
    }
  }

  lemma MultisetTail<T>(r: seq<T>, q: seq<T>)
    requires r != [] && q != [] && r[0] == q[0]
    requires multiset(r) == multiset(q)
    ensures multiset(r[1..]) == multiset(q[1..])
  {
    assert r == [r[0]] + r[1..] && q == [q[0]] + q[1..];
    assert multiset(r[1..]) == multiset(r) - multiset{r[0]};
    assert multiset(q[1..]) == multiset(q) - multiset{q[0]};
  }

  lemma SameRanksTail<T>(r: seq<T>, q: seq<T>, le: (T, T) -> bool)
    requires r != [] && q != [] && r[0] == q[0]
    requires forall k :: SameRank(r, le, k) == SameRank(q, le, k)
    ensures forall k :: SameRank(r[1..], le, k) == SameRank(q[1..], le, k)
  {
    forall k
      ensures SameRank(r[1..], le, k) == SameRank(q[1..], le, k)
    {
      SameRankTail(r, q, le, k);
    }
  }

  lemma SameRankTail<T>(r: seq<T>, q: seq<T>, le: (T, T) -> bool, k: T)
    requires r != [] && q != [] && r[0] == q[0]
    requires SameRank(r, le, k) == SameRank(q, le, k)
    ensures SameRank(r[1..], le, k) == SameRank(q[1..], le, k)
  {
    var h := if Equivalent(le, r[0], k) then [r[0]] else [];
    assert SameRank(r, le, k) == h + SameRank(r[1..], le, k);
    assert SameRank(q, le, k) == h + SameRank(q[1..], le, k);
    assert (h + SameRank(r[1..], le, k))[|h|..] == SameRank(r[1..], le, k);
    assert (h + SameRank(q[1..], le, k))[|h|..] == SameRank(q[1..], le, k);
  }

  lemma SortedTail<T>(r: seq<T>, le: (T, T) -> bool)
    requires r != [] && Sorted(r, le)
    ensures Sorted(r[1..], le)
  {
  }

  /** Two sorted, stable arrangements of the same elements start with the same element. */
  lemma SameHead<T>(r: seq<T>, q: seq<T>, le: (T, T) -> bool)
    requires forall x :: le(x, x)
    requires r != [] && multiset(r) == multiset(q)
    requires Sorted(r, le) && Sorted(q, le)
    requires SameRank(r, le, r[0]) == SameRank(q, le, r[0])
    ensures q != [] && q[0] == r[0]
  {
    assert r[0] in multiset(q);
    var a, b := r[0], q[0];
    assert b in multiset(r);
    assert le(a, b) && le(b, a);
    assert SameRank(r, le, a)[0] == a;
    assert SameRank(q, le, a)[0] == b;
  }

  /** A property every input element has, every sorted element has. */
  lemma SortKeeps<T>(s: seq<T>, le: (T, T) -> bool, p: T -> bool)
    requires forall i :: 0 <= i < |s| ==> p(s[i])
    ensures forall i :: 0 <= i < |Sort(s, le)| ==> p(Sort(s, le)[i])
  {
    var r := Sort(s, le);
    forall i | 0 <= i < |r| ensures p(r[i]) {
      assert r[i] in multiset(s);
    }
  }

  /** An order under which everything ranks equal leaves the input as it is. */
  lemma {:induction false} SortAllEqual<T>(s: seq<T>, le: (T, T) -> bool)
    requires forall i, j :: 0 <= i < |s| && 0 <= j < |s| ==> le(s[i], s[j])
    ensures Sort(s, le) == s
  {
    if s != [] {
      assert forall i, j :: 0 <= i < |s| - 1 && 0 <= j < |s| - 1 ==> le(s[1..][i], s[1..][j]);
      SortAllEqual(s[1..], le);
    }
  }

  lemma {:induction false} SameRankConcat<T>(a: seq<T>, b: seq<T>, le: (T, T) -> bool, k: T)
    ensures SameRank(a + b, le, k) == SameRank(a, le, k) + SameRank(b, le, k)
  {
    if a == [] {
      assert a + b == b;
    } else {
      SameRankConcat(a[1..], b, le, k);
      assert (a + b)[1..] == a[1..] + b;
    }
  }

  /** Nothing ranks equal to `k`: the rank class is empty. */
  lemma {:induction false} SameRankNone<T>(s: seq<T>, le: (T, T) -> bool, k: T)
    requires forall i :: 0 <= i < |s| ==> !Equivalent(le, s[i], k)
    ensures SameRank(s, le, k) == []
  {
    if s != [] {
      SameRankNone(s[1..], le, k);
    }
  }

  /** Two orders that rank the same elements equal to `k` pick the same rank class. */
  lemma {:induction false} SameRankAgree<T>(s: seq<T>, le1: (T, T) -> bool, le2: (T, T) -> bool, k: T)
    requires forall i :: 0 <= i < |s| ==> Equivalent(le1, s[i], k) == Equivalent(le2, s[i], k)
    ensures SameRank(s, le1, k) == SameRank(s, le2, k)
  {
    if s != [] {
      SameRankAgree(s[1..], le1, le2, k);
    }
  }

  /** Filtering out only elements outside `k`'s rank class keeps that class. */
  lemma {:induction false} SameRankFilter<T(!new)>(s: seq<T>, p: T -> bool, le: (T, T) -> bool, k: T)
    requires forall y :: Equivalent(le, y, k) ==> p(y)
    ensures SameRank(Filter(s, p), le, k) == SameRank(s, le, k)
  {
    if s != [] {
      SameRankFilter(s[1..], p, le, k);
      if p(s[0]) {
        assert Filter(s, p) == [s[0]] + Filter(s[1..], p);
        assert Filter(s, p)[1..] == Filter(s[1..], p);
      } else {
        assert Filter(s, p) == Filter(s[1..], p);
      }
    }
  }
}
