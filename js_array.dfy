/** The part of JavaScript's `Array.prototype` that the prompt loader uses:
    `filter` and the default `sort` of an array of strings. */
module JsArray {
  import opened JsString

  /** The elements of `a` appear in `b` in the same order, possibly with
      other elements between them. */
  predicate IsSubsequence<T(==)>(a: seq<T>, b: seq<T>)
  {
    if a == [] then true
    else if b == [] then false
    else if a[0] == b[0] then IsSubsequence(a[1..], b[1..])
    else IsSubsequence(a, b[1..])
  }

  /** No element of `s` occurs twice. */
  predicate Distinct<T(==)>(s: seq<T>)
  {
    forall i, j :: 0 <= i < j < |s| ==> s[i] != s[j]
  }

  lemma {:induction false} SubsequenceElements<T>(a: seq<T>, b: seq<T>, x: T)
    requires IsSubsequence(a, b) && x in a
    ensures x in b
  {
    if a[0] == b[0] {
      if x != a[0] {
        assert x in a[1..];
        SubsequenceElements(a[1..], b[1..], x);
      }
    } else {
      SubsequenceElements(a, b[1..], x);
    }
  }

  /** `s.filter(keep)`: the elements of `s` that satisfy `keep`, in their
      order in `s`, each as often as it occurs in `s`. */
  function Filter<T(==, !new)>(s: seq<T>, keep: T -> bool): (r: seq<T>)
    ensures |r| <= |s|
    ensures forall x :: x in r <==> x in s && keep(x)
    ensures IsSubsequence(r, s)
  {
    if s == [] then []
    else if keep(s[0]) then [s[0]] + Filter(s[1..], keep)
    else
      var r := Filter(s[1..], keep);
      assert r != [] ==> r[0] in r && r[0] != s[0];
      r
  }

  /** `filter` keeps every occurrence of a kept element and none of the
      others: each element occurs in the result exactly as often as in the
      input when it is kept, and not at all otherwise. */
  lemma {:induction false} FilterCounts<T(!new)>(s: seq<T>, keep: T -> bool, x: T)
    ensures multiset(Filter(s, keep))[x] == if keep(x) then multiset(s)[x] else 0
  {
    if s != [] {
      var y, rest := s[0], s[1..];
      assert s == [y] + rest;
      FilterCounts(rest, keep, x);
      FilterCons(y, rest, keep);
    }
  }

  /** Filtering a concatenation filters each part. */
  lemma {:induction false} FilterConcat<T(!new)>(a: seq<T>, b: seq<T>, keep: T -> bool)
    ensures Filter(a + b, keep) == Filter(a, keep) + Filter(b, keep)
  {
    if a != [] {
      var ab := a + b;
      assert ab[0] == a[0] && ab[1..] == a[1..] + b;
      FilterConcat(a[1..], b, keep);
      if keep(a[0]) {
        assert Filter(ab, keep) == [a[0]] + Filter(ab[1..], keep);
        assert Filter(a, keep) == [a[0]] + Filter(a[1..], keep);
      } else {
        assert Filter(ab, keep) == Filter(ab[1..], keep);
        assert Filter(a, keep) == Filter(a[1..], keep);
      }
    } else {
      assert a + b == b;
    }
  }

  /** Filtering a sequence that starts with `x`. */
  lemma FilterCons<T(!new)>(x: T, s: seq<T>, keep: T -> bool)
    ensures Filter([x] + s, keep) == if keep(x) then [x] + Filter(s, keep) else Filter(s, keep)
  {
    assert ([x] + s)[0] == x && ([x] + s)[1..] == s;
  }

  /** Over a sequence without repetitions, `filter` is the only order-keeping
      selection of exactly the elements that satisfy `keep`. */
  lemma {:induction false} FilterUnique<T(!new)>(a: seq<T>, b: seq<T>, keep: T -> bool)
    requires Distinct(b) && IsSubsequence(a, b)
    requires forall x :: x in a <==> x in b && keep(x)
    ensures a == Filter(b, keep)
  {
    if b != [] {
      var b0, rest := b[0], b[1..];
      assert Distinct(rest);
      assert b0 !in rest;
      if keep(b0) {
        assert b0 in a;
        if a[0] != b0 {
          SubsequenceElements(a, rest, b0);
        }
        forall x ensures x in a[1..] <==> x in rest && keep(x) {
          if x in a[1..] {
            SubsequenceElements(a[1..], rest, x);
          }
          if x in rest && keep(x) {
            assert x in a && x != a[0];
          }
        }
        FilterUnique(a[1..], rest, keep);
        assert a == [a[0]] + a[1..];
      } else {
        if a != [] {
          assert a[0] != b0;
        }
        FilterUnique(a, rest, keep);
      }
    }
  }

  /** No element of `s` is followed by one that comes before it in code
      unit order. */
  predicate SortedByCodeUnits(s: seq<string>)
  {
    forall i, j :: 0 <= i < j < |s| ==> !CodeUnitLess(s[j], s[i])
  }

  /** Every element of `s` comes strictly before every later one. */
  predicate StrictlyAscending(s: seq<string>)
  {
    forall i, j :: 0 <= i < j < |s| ==> CodeUnitLess(s[i], s[j])
  }

  /** `x` placed into the sorted sequence `s` after every element that comes
      before it. */
  function InsertByCodeUnits(x: string, s: seq<string>): (r: seq<string>)
    requires SortedByCodeUnits(s)
    ensures SortedByCodeUnits(r)
    ensures multiset(r) == multiset(s) + multiset{x}
  {
    if s == [] then [x]
    else if CodeUnitLess(s[0], x) then
      var tail := InsertByCodeUnits(x, s[1..]);
      InsertAfterHead(x, s, tail);
      [s[0]] + tail
    else
      InsertBeforeHead(x, s);
      [x] + s
  }

  /** `x` goes after the head of `s` when the head comes before it. */
  lemma InsertAfterHead(x: string, s: seq<string>, tail: seq<string>)
    requires s != [] && SortedByCodeUnits(s) && CodeUnitLess(s[0], x)
    requires SortedByCodeUnits(tail) && multiset(tail) == multiset(s[1..]) + multiset{x}
    ensures SortedByCodeUnits([s[0]] + tail)
    ensures multiset([s[0]] + tail) == multiset(s) + multiset{x}
  {
    var r := [s[0]] + tail;
    assert s == [s[0]] + s[1..];
    forall j | 0 < j < |r| ensures !CodeUnitLess(r[j], s[0]) {
      var y := r[j];
      assert y == tail[j - 1];
      assert y in multiset(tail);
      if y == x {
        if CodeUnitLess(x, s[0]) {
          CodeUnitLessTransitive(x, s[0], x);
          CodeUnitLessIrreflexive(x);
        }
      } else {
        assert y in multiset(s[1..]);
        var k :| 0 <= k < |s[1..]| && s[1..][k] == y;
        assert s[k + 1] == y;
      }
    }
  }

  /** `x` goes before the head of `s` when the head does not come before it. */
  lemma InsertBeforeHead(x: string, s: seq<string>)
    requires s != [] && SortedByCodeUnits(s) && !CodeUnitLess(s[0], x)
    ensures SortedByCodeUnits([x] + s)
  {
    var r := [x] + s;
    forall j | 1 < j < |r| ensures !CodeUnitLess(r[j], x) {
      var y := r[j];
      assert y == s[j - 1] && !CodeUnitLess(y, s[0]);
      if x != s[0] {
        CodeUnitLessTotal(x, s[0]);
        if CodeUnitLess(y, x) {
          CodeUnitLessTransitive(y, x, s[0]);
        }
      }
    }
  }

  /** `s.sort()` on an array of strings: the same strings, arranged in code
      unit order. */
  function SortByCodeUnits(s: seq<string>): (r: seq<string>)
    ensures SortedByCodeUnits(r)
    ensures multiset(r) == multiset(s)
  {
    if s == [] then []
    else
      assert s == [s[0]] + s[1..];
      InsertByCodeUnits(s[0], SortByCodeUnits(s[1..]))
  }

  lemma {:induction false} DistinctCounts<T>(s: seq<T>, x: T)
    requires Distinct(s)
    ensures multiset(s)[x] <= 1
  {
    if s != [] {
      assert s == [s[0]] + s[1..];
      assert Distinct(s[1..]);
      DistinctCounts(s[1..], x);
      if x == s[0] {
        assert x !in s[1..];
      }
    }
  }

  lemma RepeatCounts<T>(s: seq<T>, i: nat, j: nat)
    requires i < j < |s| && s[i] == s[j]
    ensures multiset(s)[s[i]] >= 2
  {
    assert s == s[..j] + s[j..];
    assert s[i] in s[..j];
    assert s[j] in s[j..];
  }

  /** A rearrangement of a sequence without repetitions has none either. */
  lemma PermutationKeepsDistinct<T>(r: seq<T>, s: seq<T>)
    requires multiset(r) == multiset(s) && Distinct(s)
    ensures Distinct(r)
  {
    forall i, j | 0 <= i < j < |r| ensures r[i] != r[j] {
      if r[i] == r[j] {
        RepeatCounts(r, i, j);
        DistinctCounts(s, r[i]);
      }
    }
  }

  /** Sorting strings without repetitions puts them in strictly ascending
      order. */
  lemma SortDistinctIsStrict(s: seq<string>)
    requires Distinct(s)
    ensures StrictlyAscending(SortByCodeUnits(s))
  {
    var r := SortByCodeUnits(s);
    PermutationKeepsDistinct(r, s);
    forall i, j | 0 <= i < j < |r| ensures CodeUnitLess(r[i], r[j]) {
      CodeUnitLessTotal(r[i], r[j]);
    }
  }

  /** A strictly ascending sequence is fixed by its elements: two of them
      with the same elements are equal. */
  lemma {:induction false} AscendingUnique(a: seq<string>, b: seq<string>)
    requires StrictlyAscending(a) && StrictlyAscending(b)
    requires forall x :: x in a <==> x in b
    ensures a == b
  {
    assert a != [] ==> a[0] in a;
    assert b != [] ==> b[0] in b;
    if a != [] && b != [] {
      if a[0] != b[0] {
        assert a[0] in b && b[0] in a;
        var k :| 0 <= k < |b| && b[k] == a[0];
        var m :| 0 <= m < |a| && a[m] == b[0];
        CodeUnitLessTransitive(a[0], b[0], a[0]);
        CodeUnitLessIrreflexive(a[0]);
      }
      forall x ensures x in a[1..] <==> x in b[1..] {
        if x in a[1..] {
          var k :| 0 <= k < |a[1..]| && a[1..][k] == x;
          CodeUnitLessIrreflexive(x);
          assert x != a[0] by { assert CodeUnitLess(a[0], a[k + 1]); }
          assert x in b && x != b[0];
        }
        if x in b[1..] {
          var k :| 0 <= k < |b[1..]| && b[1..][k] == x;
          CodeUnitLessIrreflexive(x);
          assert x != b[0] by { assert CodeUnitLess(b[0], b[k + 1]); }
          assert x in a && x != a[0];
        }
      }
      AscendingUnique(a[1..], b[1..]);
      assert a == [a[0]] + a[1..] && b == [b[0]] + b[1..];
    }
  }
}
