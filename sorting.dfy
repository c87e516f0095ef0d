/**
 * The stable sort the source gets from `slice::sort_by`, and the
 * de-duplication it gets from collecting into a `HashSet`.
 */
module Sorting {

  /** `le` is total and transitive: the comparators handed to `sort_by`. */
  ghost predicate TotalPreorder<T(!new)>(le: (T, T) -> bool) {
    && (forall a, b :: le(a, b) || le(b, a))
    && (forall a, b, c :: le(a, b) && le(b, c) ==> le(a, c))
  }

  ghost predicate Sorted<T>(s: seq<T>, le: (T, T) -> bool) {
    forall i, j :: 0 <= i < j < |s| ==> le(s[i], s[j])
  }

  predicate NoDup<T(==)>(s: seq<T>) {
    forall i, j :: 0 <= i < j < |s| ==> s[i] != s[j]
  }

  /** Inserts `x` after every element that is not strictly greater than it. */
  function Insert<T>(x: T, s: seq<T>, le: (T, T) -> bool): (r: seq<T>)
    ensures |r| == |s| + 1
    ensures multiset(r) == multiset(s) + multiset{x}
  {
    if s == [] then [x]
    else if le(x, s[0]) && !le(s[0], x) then [x] + s
    else
      assert s == [s[0]] + s[1..];
      [s[0]] + Insert(x, s[1..], le)
  }

  /** Stable insertion sort: equal elements keep their input order. */
  function SortBy<T>(s: seq<T>, le: (T, T) -> bool): (r: seq<T>)
    ensures |r| == |s|
    ensures multiset(r) == multiset(s)
  {
    if s == [] then []
    else
      assert s == s[..|s| - 1] + [s[|s| - 1]];
      Insert(s[|s| - 1], SortBy(s[..|s| - 1], le), le)
  }

  lemma {:induction false} InsertSorted<T(!new)>(x: T, s: seq<T>, le: (T, T) -> bool)
    requires TotalPreorder(le) && Sorted(s, le)
    ensures Sorted(Insert(x, s, le), le)
  {
    if s != [] && !(le(x, s[0]) && !le(s[0], x)) {
      var t := Insert(x, s[1..], le);
      InsertSorted(x, s[1..], le);
      assert le(s[0], x);
      forall k | 0 <= k < |t| ensures le(s[0], t[k]) {
        assert t[k] in multiset(t);
        assert t[k] in multiset(s[1..]) || t[k] == x;
        if t[k] != x {
          var m :| 0 <= m < |s[1..]| && s[1..][m] == t[k];
          assert s[m + 1] == t[k];
        }
      }
      assert Insert(x, s, le) == [s[0]] + t;
    }
  }

  /** The result of `SortBy` is ordered by `le` and is a permutation of the input. */
  lemma {:induction false} SortBySorted<T(!new)>(s: seq<T>, le: (T, T) -> bool)
    requires TotalPreorder(le)
    ensures Sorted(SortBy(s, le), le)
    ensures multiset(SortBy(s, le)) == multiset(s)
  {
    if s != [] {
      SortBySorted(s[..|s| - 1], le);
      InsertSorted(s[|s| - 1], SortBy(s[..|s| - 1], le), le);
    }
  }

  /** Keeps the first occurrence of every element. */
  function Dedup<T(==,!new)>(s: seq<T>): (r: seq<T>)
    ensures NoDup(r)
    ensures forall x :: x in r <==> x in s
  {
    if s == [] then []
    else
      var rest := Dedup(s[..|s| - 1]);
      if s[|s| - 1] in rest then rest else rest + [s[|s| - 1]]
  }

  /** In a duplicate-free sequence every element occurs at most once. */
  lemma {:induction false} NoDupCount<T>(a: seq<T>, x: T)
    requires NoDup(a)
    ensures multiset(a)[x] <= 1
  {
    if a != [] {
      var init := a[..|a| - 1];
      assert a == init + [a[|a| - 1]];
      NoDupCount(init, x);
      assert a[|a| - 1] !in init;
    }
  }

  /** Two equal elements at distinct positions make the count at least two. */
  lemma {:induction false} RepeatCount<T>(b: seq<T>, i: int, j: int)
    requires 0 <= i < j < |b| && b[i] == b[j]
    ensures multiset(b)[b[i]] >= 2
  {
    var left, right := b[..j], b[j..];
    assert b == left + right;
    assert b[i] in left;
    assert right[0] == b[i];
  }

  /** A permutation of a duplicate-free sequence is duplicate-free. */
  lemma {:induction false} NoDupPermutation<T>(a: seq<T>, b: seq<T>)
    requires NoDup(a) && multiset(a) == multiset(b)
    ensures NoDup(b)
  {
    forall i, j | 0 <= i < j < |b| ensures b[i] != b[j] {
      if b[i] == b[j] {
        RepeatCount(b, i, j);
        NoDupCount(a, b[i]);
      }
    }
  }

  /** The elements of `s` that `le` ranks equal to `x`, in their order in `s`. */
  function Equivalents<T>(s: seq<T>, x: T, le: (T, T) -> bool): (r: seq<T>)
    ensures |r| <= |s|
  {
    if s == [] then []
    else (if le(x, s[0]) && le(s[0], x) then [s[0]] else []) + Equivalents(s[1..], x, le)
  }

  lemma {:induction false} EquivalentsAppend<T>(a: seq<T>, b: seq<T>, x: T, le: (T, T) -> bool)
    ensures Equivalents(a + b, x, le) == Equivalents(a, x, le) + Equivalents(b, x, le)
  {
    if a == [] {
      assert a + b == b;
    } else {
      assert (a + b)[0] == a[0] && (a + b)[1..] == a[1..] + b;
      EquivalentsAppend(a[1..], b, x, le);
    }
  }

  lemma {:induction false} EquivalentsNone<T>(s: seq<T>, x: T, le: (T, T) -> bool)
    requires forall k :: 0 <= k < |s| ==> !(le(x, s[k]) && le(s[k], x))
    ensures Equivalents(s, x, le) == []
  {
    if s != [] {
      EquivalentsNone(s[1..], x, le);
    }
  }

  /** Nothing in a sorted sequence that starts above `y` ranks equal to `y`. */
  lemma {:induction false} AboveNotEquivalent<T(!new)>(y: T, s: seq<T>, le: (T, T) -> bool, x: T)
    requires TotalPreorder(le) && Sorted(s, le)
    requires s != [] && !le(s[0], y) && le(x, y) && le(y, x)
    ensures Equivalents(s, x, le) == []
  {
    forall k | 0 <= k < |s| ensures !(le(x, s[k]) && le(s[k], x)) {
      if k > 0 {
        assert le(s[0], s[k]);
      }
    }
    EquivalentsNone(s, x, le);
  }

  /** Inserting `y` into a sorted sequence puts it after every element ranked equal to it. */
  lemma {:induction false} InsertStable<T(!new)>(y: T, s: seq<T>, le: (T, T) -> bool, x: T)
    requires TotalPreorder(le) && Sorted(s, le)
    ensures Equivalents(Insert(y, s, le), x, le)
            == Equivalents(s, x, le) + (if le(x, y) && le(y, x) then [y] else [])
  {
    if s == [] {
    } else if le(y, s[0]) && !le(s[0], y) {
      assert Insert(y, s, le) == [y] + s;
      EquivalentsAppend([y], s, x, le);
      if le(x, y) && le(y, x) {
        AboveNotEquivalent(y, s, le, x);
      }
    } else {
      assert Sorted(s[1..], le);
      InsertStable(y, s[1..], le, x);
      InsertPastHead(y, s, le, x);
    }
  }

  /** The step of `InsertStable` where `y` goes past the head of `s`. */
  lemma {:induction false} InsertPastHead<T>(y: T, s: seq<T>, le: (T, T) -> bool, x: T)
    requires s != [] && !(le(y, s[0]) && !le(s[0], y))
    requires Equivalents(Insert(y, s[1..], le), x, le)
             == Equivalents(s[1..], x, le) + (if le(x, y) && le(y, x) then [y] else [])
    ensures Equivalents(Insert(y, s, le), x, le)
            == Equivalents(s, x, le) + (if le(x, y) && le(y, x) then [y] else [])
  {
    assert Insert(y, s, le) == [s[0]] + Insert(y, s[1..], le);
    EquivalentsAppend([s[0]], Insert(y, s[1..], le), x, le);
    EquivalentsAppend([s[0]], s[1..], x, le);
    assert [s[0]] + s[1..] == s;
  }

  /**
   * `SortBy` is stable: the elements ranked equal to any `x` come out in
   * the order they went in.
   */
  lemma {:induction false} SortByStable<T(!new)>(s: seq<T>, le: (T, T) -> bool, x: T)
    requires TotalPreorder(le)
    ensures Equivalents(SortBy(s, le), x, le) == Equivalents(s, x, le)
  {
    if s != [] {
      var init, last := s[..|s| - 1], s[|s| - 1];
      SortByStable(init, le, x);
      SortBySorted(init, le);
      InsertStable(last, SortBy(init, le), le, x);
      StableStep(s, le, x);
    }
  }

  /** The step of `SortByStable`: the last element is inserted into the sorted rest. */
  lemma {:induction false} StableStep<T>(s: seq<T>, le: (T, T) -> bool, x: T)
    requires s != []
    requires var init, last := s[..|s| - 1], s[|s| - 1];
      && Equivalents(SortBy(init, le), x, le) == Equivalents(init, x, le)
      && Equivalents(Insert(last, SortBy(init, le), le), x, le)
         == Equivalents(SortBy(init, le), x, le) + (if le(x, last) && le(last, x) then [last] else [])
    ensures Equivalents(SortBy(s, le), x, le) == Equivalents(s, x, le)
  {
    var init, last := s[..|s| - 1], s[|s| - 1];
    SortByLast(s, le);
    EquivalentsSnoc(init, last, x, le);
    SplitLast(s);
  }

  lemma {:induction false} SplitLast<T>(s: seq<T>)
    requires s != []
    ensures s == s[..|s| - 1] + [s[|s| - 1]]
  {
  }

  lemma {:induction false} SortByLast<T>(s: seq<T>, le: (T, T) -> bool)
    requires s != []
    ensures SortBy(s, le) == Insert(s[|s| - 1], SortBy(s[..|s| - 1], le), le)
  {
  }

  lemma {:induction false} EquivalentsSnoc<T>(init: seq<T>, last: T, x: T, le: (T, T) -> bool)
    ensures Equivalents(init + [last], x, le)
            == Equivalents(init, x, le) + (if le(x, last) && le(last, x) then [last] else [])
  {
    EquivalentsAppend(init, [last], x, le);
    assert [last][1..] == [];
  }
}
