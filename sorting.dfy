/**
 * Python's `sorted(xs, key=k)` and `xs.sort(key=k)`: a stable ascending sort.
 * The library routine is given here by a reference definition, insertion
 * sort over a "less than or equal" relation on the elements, and its
 * contract is proved: the result is ordered, is a permutation of the input,
 * and keeps equivalent elements in their input order.
 */
module Sorting {
  import opened Seqs

  ghost predicate TotalPreorder<T(!new)>(le: (T, T) -> bool) {
    (forall a, b :: le(a, b) || le(b, a)) &&
    (forall a, b, c :: le(a, b) && le(b, c) ==> le(a, c))
  }

  ghost predicate Sorted<T>(s: seq<T>, le: (T, T) -> bool) {
    forall i, j :: 0 <= i < j < |s| ==> le(s[i], s[j])
  }

  /** Places `x` in front of the first element it is not greater than. */
  function Insert<T>(x: T, s: seq<T>, le: (T, T) -> bool): seq<T> {
    if s == [] then [x]
    else if le(x, s[0]) then [x] + s
    else [s[0]] + Insert(x, s[1..], le)
  }

  function SortBy<T>(s: seq<T>, le: (T, T) -> bool): seq<T> {
    if s == [] then [] else Insert(s[0], SortBy(s[1..], le), le)
  }

  /** The elements of `s` that `le` cannot tell apart from `k`, in order. */
  function Equivalents<T>(s: seq<T>, le: (T, T) -> bool, k: T): seq<T> {
    if s == [] then []
    else (if le(s[0], k) && le(k, s[0]) then [s[0]] else []) + Equivalents(s[1..], le, k)
  }

  lemma {:induction false} InsertPermutes<T>(x: T, s: seq<T>, le: (T, T) -> bool)
    ensures multiset(Insert(x, s, le)) == multiset(s) + multiset{x}
  {
    if s != [] && !le(x, s[0]) {
      InsertPermutes(x, s[1..], le);
      assert s == [s[0]] + s[1..];
    }
  }

  lemma {:induction false} InsertSorted<T(!new)>(x: T, s: seq<T>, le: (T, T) -> bool)
    requires TotalPreorder(le)
    requires Sorted(s, le)
    ensures Sorted(Insert(x, s, le), le)
  {
    if s != [] && !le(x, s[0]) {
      var t := s[1..];
      InsertSorted(x, t, le);
      InsertPermutes(x, t, le);
      var r := Insert(x, t, le);
      forall j | 0 <= j < |r| ensures le(s[0], r[j]) {
        assert r[j] in multiset(r);
        if r[j] == x {
          assert le(s[0], x);
        } else {
          assert r[j] in multiset(t);
          var k :| 0 <= k < |t| && t[k] == r[j];
          assert t[k] == s[k + 1];
        }
      }
    }
  }

  /**
   * The contract of Python's sort: an ordered permutation of the input.
   */
  lemma {:induction false} SortByIsOrderedPermutation<T(!new)>(s: seq<T>, le: (T, T) -> bool)
    requires TotalPreorder(le)
    ensures Sorted(SortBy(s, le), le)
    ensures multiset(SortBy(s, le)) == multiset(s)
  {
    if s != [] {
      SortByIsOrderedPermutation(s[1..], le);
      InsertSorted(s[0], SortBy(s[1..], le), le);
      InsertPermutes(s[0], SortBy(s[1..], le), le);
      assert s == [s[0]] + s[1..];
    }
  }

  lemma {:induction false} InsertEquivalents<T(!new)>(x: T, s: seq<T>, le: (T, T) -> bool, k: T)
    requires TotalPreorder(le)
    requires Sorted(s, le)
    ensures Equivalents(Insert(x, s, le), le, k) ==
      (if le(x, k) && le(k, x) then [x] else []) + Equivalents(s, le, k)
  {
    if s == [] {
    } else if le(x, s[0]) {
      assert ([x] + s)[1..] == s;
    } else {
      var t := s[1..];
      var r := Insert(x, t, le);
      assert Sorted(t, le) by {
        forall i, j | 0 <= i < j < |t| ensures le(t[i], t[j]) {
          assert t[i] == s[i + 1] && t[j] == s[j + 1];
        }
      }
      InsertEquivalents(x, t, le, k);
      assert ([s[0]] + r)[1..] == r;
      var head := if le(s[0], k) && le(k, s[0]) then [s[0]] else [];
      assert Equivalents(Insert(x, s, le), le, k) == head + Equivalents(r, le, k);
      assert Equivalents(s, le, k) == head + Equivalents(t, le, k);
      if le(x, k) && le(k, x) {
        // s[0] is strictly below x, hence not equivalent to k
        assert !(le(s[0], k) && le(k, s[0]));
        assert head == [];
      } else {
        AppendAssociates(head, [], Equivalents(t, le, k));
      }
    }
  }

  /**
   * Stability: for every element `k`, the elements equivalent to `k` come out
   * in the order they went in.
   */
  lemma {:induction false} SortByIsStable<T(!new)>(s: seq<T>, le: (T, T) -> bool, k: T)
    requires TotalPreorder(le)
    ensures Equivalents(SortBy(s, le), le, k) == Equivalents(s, le, k)
  {
    if s != [] {
      SortByIsStable(s[1..], le, k);
      SortByIsOrderedPermutation(s[1..], le);
      InsertEquivalents(s[0], SortBy(s[1..], le), le, k);
    }
  }

  /** Sorting what is already ordered leaves it as it is. */
  lemma {:induction false} SortByOfSorted<T(!new)>(s: seq<T>, le: (T, T) -> bool)
    requires Sorted(s, le)
    ensures SortBy(s, le) == s
  {
    if s != [] {
      assert Sorted(s[1..], le) by {
        forall i, j | 0 <= i < j < |s| - 1 ensures le(s[1..][i], s[1..][j]) {
          assert s[1..][i] == s[i + 1] && s[1..][j] == s[j + 1];
        }
      }
      SortByOfSorted(s[1..], le);
      if |s| > 1 {
        assert le(s[0], s[1]);
      }
      assert [s[0]] + s[1..] == s;
    }
  }
}
