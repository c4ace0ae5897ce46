/** `Array.prototype.sort(compareFn)` on the list of artifact indices.
    `Sort` is a reference stable insertion sort; `SortFromRight` is an
    insertion sort scanning from the right, as SpiderMonkey sorts short
    arrays. On scored indices
    the comparator is a total preorder, and there every stable sort yields
    the order of `Sort` (`EveryStableSortAgrees`). With an unscored index
    present ties are not transitive and the order is left to the engine. */
module Sorting {
  import opened Types
  import opened Compare

  /** Inserts `x` after every element that does not compare above it, so
      that it follows the equal elements that came before it. */
  function Insert(t: Tables, sortKey: string, s: seq<nat>, x: nat): (r: seq<nat>)
    ensures multiset(r) == multiset(s) + multiset{x}
    decreases |s|
  {
    if s == [] then [x]
    else if CompareIndices(t, sortKey, s[0], x) > 0 then [x] + s
    else
      assert s == [s[0]] + s[1..];
      [s[0]] + Insert(t, sortKey, s[1..], x)
  }

  /** The sort: each element in turn inserted into the sorted prefix. */
  function Sort(t: Tables, sortKey: string, s: seq<nat>): (r: seq<nat>)
    ensures multiset(r) == multiset(s)
  {
    if s == [] then []
    else
      assert s == s[..|s| - 1] + [s[|s| - 1]];
      Insert(t, sortKey, Sort(t, sortKey, s[..|s| - 1]), s[|s| - 1])
  }

  /** Every two scored elements are in comparator order. */
  ghost predicate SortedOnScored(t: Tables, sortKey: string, s: seq<nat>) {
    forall i, j :: 0 <= i < j < |s| && Scored(t, s[i]) && Scored(t, s[j]) ==>
      CompareIndices(t, sortKey, s[i], s[j]) <= 0
  }

  /** Two scored elements that tie are in increasing order. */
  ghost predicate StableOnScored(t: Tables, sortKey: string, s: seq<nat>) {
    forall i, j :: (0 <= i < j < |s| && Scored(t, s[i]) && Scored(t, s[j]) &&
                    CompareIndices(t, sortKey, s[i], s[j]) == 0) ==> s[i] < s[j]
  }

  ghost predicate Increasing(s: seq<nat>) {
    forall i, j :: 0 <= i < j < |s| ==> s[i] < s[j]
  }

  ghost predicate NoDuplicates<T>(s: seq<T>) {
    forall i, j :: 0 <= i < j < |s| ==> s[i] != s[j]
  }

  /** An element of `Insert(s, x)` is `x` or an element of `s`. */
  lemma InsertElement(t: Tables, sortKey: string, s: seq<nat>, x: nat, y: nat)
    requires y in Insert(t, sortKey, s, x)
    ensures y == x || y in s
  {
    assert y in multiset(Insert(t, sortKey, s, x));
  }

  /** Putting `a` in front of a sorted list keeps it sorted when `a` may
      precede every element. */
  lemma PrependSorted(t: Tables, sortKey: string, a: nat, s: seq<nat>)
    requires SortedOnScored(t, sortKey, s)
    requires forall y :: y in s && Scored(t, a) && Scored(t, y) ==> CompareIndices(t, sortKey, a, y) <= 0
    ensures SortedOnScored(t, sortKey, [a] + s)
  {
    var r := [a] + s;
    forall i, j | 0 <= i < j < |r| && Scored(t, r[i]) && Scored(t, r[j])
      ensures CompareIndices(t, sortKey, r[i], r[j]) <= 0
    {
      if i == 0 {
        assert r[j] in s;
      } else {
        assert r[i] == s[i - 1] && r[j] == s[j - 1];
      }
    }
  }

  /** Putting `a` in front of a stable list keeps it stable when `a` is
      below every element it ties with. */
  lemma PrependStable(t: Tables, sortKey: string, a: nat, s: seq<nat>)
    requires StableOnScored(t, sortKey, s)
    requires forall y :: y in s && Scored(t, a) && Scored(t, y) && CompareIndices(t, sortKey, a, y) == 0 ==> a < y
    ensures StableOnScored(t, sortKey, [a] + s)
  {
    var r := [a] + s;
    forall i, j | 0 <= i < j < |r| && Scored(t, r[i]) && Scored(t, r[j]) &&
        CompareIndices(t, sortKey, r[i], r[j]) == 0
      ensures r[i] < r[j]
    {
      if i == 0 {
        assert r[j] in s;
      } else {
        assert r[i] == s[i - 1] && r[j] == s[j - 1];
      }
    }
  }

  /** When `x` goes in front of a sorted list, it compares strictly below
      every scored element there. */
  lemma InsertedFirstIsBelow(t: Tables, sortKey: string, s: seq<nat>, x: nat)
    requires SortedOnScored(t, sortKey, s)
    requires s != [] && CompareIndices(t, sortKey, s[0], x) > 0
    ensures forall y :: y in s && Scored(t, y) ==> CompareIndices(t, sortKey, x, y) < 0
  {
    CompareAntisymmetric(t, sortKey, s[0], x);
    forall y | y in s && Scored(t, y) ensures CompareIndices(t, sortKey, x, y) < 0 {
      var k :| 0 <= k < |s| && s[k] == y;
      if k > 0 {
        CompareTransitive(t, sortKey, x, s[0], y);
      }
    }
  }

  lemma {:induction false} InsertSorted(t: Tables, sortKey: string, s: seq<nat>, x: nat)
    requires SortedOnScored(t, sortKey, s)
    ensures SortedOnScored(t, sortKey, Insert(t, sortKey, s, x))
    decreases |s|
  {
    if s == [] {
    } else if CompareIndices(t, sortKey, s[0], x) > 0 {
      InsertedFirstIsBelow(t, sortKey, s, x);
      PrependSorted(t, sortKey, x, s);
    } else {
      var rest := Insert(t, sortKey, s[1..], x);
      InsertSorted(t, sortKey, s[1..], x);
      forall y | y in rest && Scored(t, s[0]) && Scored(t, y)
        ensures CompareIndices(t, sortKey, s[0], y) <= 0
      {
        InsertElement(t, sortKey, s[1..], x, y);
        if y != x {
          var k :| 0 <= k < |s[1..]| && s[1..][k] == y;
          assert s[k + 1] == y;
        }
      }
      PrependSorted(t, sortKey, s[0], rest);
    }
  }

  lemma {:induction false} InsertStable(t: Tables, sortKey: string, s: seq<nat>, x: nat)
    requires SortedOnScored(t, sortKey, s) && StableOnScored(t, sortKey, s)
    requires forall i :: 0 <= i < |s| ==> s[i] < x
    ensures StableOnScored(t, sortKey, Insert(t, sortKey, s, x))
    decreases |s|
  {
    if s == [] {
    } else if CompareIndices(t, sortKey, s[0], x) > 0 {
      InsertedFirstIsBelow(t, sortKey, s, x);
      PrependStable(t, sortKey, x, s);
    } else {
      var rest := Insert(t, sortKey, s[1..], x);
      InsertStable(t, sortKey, s[1..], x);
      forall y | y in rest && Scored(t, s[0]) && Scored(t, y) && CompareIndices(t, sortKey, s[0], y) == 0
        ensures s[0] < y
      {
        InsertElement(t, sortKey, s[1..], x, y);
        if y != x {
          var k :| 0 <= k < |s[1..]| && s[1..][k] == y;
          assert s[k + 1] == y;
        }
      }
      PrependStable(t, sortKey, s[0], rest);
    }
  }

  lemma {:induction false} InsertNoDuplicates(t: Tables, sortKey: string, s: seq<nat>, x: nat)
    requires NoDuplicates(s) && x !in s
    ensures NoDuplicates(Insert(t, sortKey, s, x))
    decreases |s|
  {
    if s != [] && CompareIndices(t, sortKey, s[0], x) <= 0 {
      var rest := Insert(t, sortKey, s[1..], x);
      InsertNoDuplicates(t, sortKey, s[1..], x);
      if s[0] in rest {
        InsertElement(t, sortKey, s[1..], x, s[0]);
        assert false;
      }
      var r := [s[0]] + rest;
      forall i, j | 0 <= i < j < |r| ensures r[i] != r[j] {
        if i > 0 {
          assert r[i] == rest[i - 1] && r[j] == rest[j - 1];
        }
      }
    } else if s != [] {
      var r := [x] + s;
      forall i, j | 0 <= i < j < |r| ensures r[i] != r[j] {
        if i > 0 {
          assert r[i] == s[i - 1] && r[j] == s[j - 1];
        }
      }
    }
  }

  /** The sorted list keeps every scored pair in comparator order. */
  lemma {:induction false} SortSorted(t: Tables, sortKey: string, s: seq<nat>)
    ensures SortedOnScored(t, sortKey, Sort(t, sortKey, s))
  {
    if s != [] {
      SortSorted(t, sortKey, s[..|s| - 1]);
      InsertSorted(t, sortKey, Sort(t, sortKey, s[..|s| - 1]), s[|s| - 1]);
    }
  }

  /** Sorting an increasing list (the index list) is stable: scored elements
      that tie keep their index order. */
  lemma {:induction false} SortStable(t: Tables, sortKey: string, s: seq<nat>)
    requires Increasing(s)
    ensures StableOnScored(t, sortKey, Sort(t, sortKey, s))
  {
    if s != [] {
      var init, last := s[..|s| - 1], s[|s| - 1];
      SortStable(t, sortKey, init);
      SortSorted(t, sortKey, init);
      var sorted := Sort(t, sortKey, init);
      forall i | 0 <= i < |sorted| ensures sorted[i] < last {
        assert sorted[i] in multiset(init);
        var k :| 0 <= k < |init| && init[k] == sorted[i];
      }
      InsertStable(t, sortKey, sorted, last);
    }
  }

  /** Sorting a list without duplicates leaves none. */
  lemma {:induction false} SortNoDuplicates(t: Tables, sortKey: string, s: seq<nat>)
    requires NoDuplicates(s)
    ensures NoDuplicates(Sort(t, sortKey, s))
  {
    if s != [] {
      var init, last := s[..|s| - 1], s[|s| - 1];
      SortNoDuplicates(t, sortKey, init);
      var sorted := Sort(t, sortKey, init);
      forall k | 0 <= k < |init| ensures init[k] != last {
        assert init[k] == s[k];
      }
      assert last !in multiset(init);
      InsertNoDuplicates(t, sortKey, sorted, last);
    }
  }
  /** Every element is scored. */
  ghost predicate AllScored(t: Tables, s: seq<nat>) {
    forall i :: 0 <= i < |s| ==> Scored(t, s[i])
  }

  /** The strict order a stable sort of the index list realises: comparator
      first, upload index on a tie. */
  predicate Before(t: Tables, sortKey: string, a: nat, b: nat) {
    CompareIndices(t, sortKey, a, b) < 0 || (CompareIndices(t, sortKey, a, b) == 0 && a < b)
  }

  ghost predicate StrictlyOrdered(t: Tables, sortKey: string, s: seq<nat>) {
    forall i, j :: 0 <= i < j < |s| ==> Before(t, sortKey, s[i], s[j])
  }

  /** `Before` is asymmetric, and so irreflexive, on every pair of indices. */
  lemma BeforeAsymmetric(t: Tables, sortKey: string, a: nat, b: nat)
    ensures Before(t, sortKey, a, b) ==> !Before(t, sortKey, b, a)
    ensures !Before(t, sortKey, a, a)
  {
    CompareAntisymmetric(t, sortKey, a, b);
    CompareAntisymmetric(t, sortKey, a, a);
  }

  /** On scored elements, sorted and stable together mean strictly ordered. */
  lemma SortedStableIsStrict(t: Tables, sortKey: string, s: seq<nat>)
    requires AllScored(t, s)
    requires SortedOnScored(t, sortKey, s) && StableOnScored(t, sortKey, s)
    ensures StrictlyOrdered(t, sortKey, s)
  {
    forall i, j | 0 <= i < j < |s| ensures Before(t, sortKey, s[i], s[j]) {
      assert Scored(t, s[i]) && Scored(t, s[j]);
    }
  }

  /** Stably sorting an increasing list of scored indices gives a strictly
      ordered list of scored indices. */
  lemma SortStrictOnScored(t: Tables, sortKey: string, s: seq<nat>)
    requires Increasing(s) && AllScored(t, s)
    ensures AllScored(t, Sort(t, sortKey, s))
    ensures StrictlyOrdered(t, sortKey, Sort(t, sortKey, s))
  {
    var r := Sort(t, sortKey, s);
    SortSorted(t, sortKey, s);
    SortStable(t, sortKey, s);
    forall i | 0 <= i < |r| ensures Scored(t, r[i]) {
      assert r[i] in multiset(s);
    }
    SortedStableIsStrict(t, sortKey, r);
  }

  /** Two strictly ordered lists with the same elements are equal. */
  lemma {:induction false} StrictlyOrderedUnique(t: Tables, sortKey: string, a: seq<nat>, b: seq<nat>)
    requires StrictlyOrdered(t, sortKey, a) && StrictlyOrdered(t, sortKey, b)
    requires forall x :: x in a <==> x in b
    ensures a == b
    decreases |a|
  {
    if b != [] {
      assert b[0] in a;
    }
    if a != [] {
      assert b != [] by { assert a[0] in b; }
      if a[0] != b[0] {
        assert b[0] in a && a[0] in b;
        var i :| 0 <= i < |a| && a[i] == b[0];
        var j :| 0 <= j < |b| && b[j] == a[0];
        BeforeAsymmetric(t, sortKey, a[0], b[0]);
        assert false;
      }
      var a', b' := a[1..], b[1..];
      forall x ensures x in a' <==> x in b' {
        if x in a' {
          var k :| 0 <= k < |a'| && a'[k] == x;
          assert Before(t, sortKey, a[0], a[k + 1]);
          BeforeAsymmetric(t, sortKey, x, x);
          assert x in b;
        }
        if x in b' {
          var k :| 0 <= k < |b'| && b'[k] == x;
          assert Before(t, sortKey, b[0], b[k + 1]);
          BeforeAsymmetric(t, sortKey, x, x);
          assert x in a;
        }
      }
      forall i, j | 0 <= i < j < |a'| ensures Before(t, sortKey, a'[i], a'[j]) {
        assert a'[i] == a[i + 1] && a'[j] == a[j + 1];
      }
      forall i, j | 0 <= i < j < |b'| ensures Before(t, sortKey, b'[i], b'[j]) {
        assert b'[i] == b[i + 1] && b'[j] == b[j + 1];
      }
      StrictlyOrderedUnique(t, sortKey, a', b');
      assert a == [a[0]] + a' && b == [b[0]] + b';
    }
  }

  /** Every sort that keeps the guarantees `Array.prototype.sort` gives for a
      consistent comparator (a permutation, sorted, stable) returns exactly
      `Sort` on an increasing list of scored indices: on such a list the
      order of line 180 does not depend on the engine. */
  lemma EveryStableSortAgrees(t: Tables, sortKey: string, s: seq<nat>, r: seq<nat>)
    requires Increasing(s) && AllScored(t, s)
    requires multiset(r) == multiset(s)
    requires SortedOnScored(t, sortKey, r) && StableOnScored(t, sortKey, r)
    ensures r == Sort(t, sortKey, s)
  {
    var q := Sort(t, sortKey, s);
    SortSorted(t, sortKey, s);
    SortStable(t, sortKey, s);
    forall x ensures x in q <==> x in s {
      assert x in q <==> x in multiset(q);
    }
    forall x ensures x in r <==> x in s {
      assert x in r <==> x in multiset(r);
    }
    forall i | 0 <= i < |q| ensures Scored(t, q[i]) {
      assert q[i] in s;
    }
    forall i | 0 <= i < |r| ensures Scored(t, r[i]) {
      assert r[i] in s;
    }
    SortedStableIsStrict(t, sortKey, q);
    SortedStableIsStrict(t, sortKey, r);
    StrictlyOrderedUnique(t, sortKey, r, q);
  }

  /** Insertion from the right end of a sorted prefix: `x`
      moves left past every element that compares above it and stops at the
      first one that does not. */
  function InsertFromRight(t: Tables, sortKey: string, s: seq<nat>, x: nat): (r: seq<nat>)
    ensures multiset(r) == multiset(s) + multiset{x}
    decreases |s|
  {
    if s == [] then [x]
    else if CompareIndices(t, sortKey, s[|s| - 1], x) > 0 then
      assert s == s[..|s| - 1] + [s[|s| - 1]];
      InsertFromRight(t, sortKey, s[..|s| - 1], x) + [s[|s| - 1]]
    else s + [x]
  }

  /** An insertion sort scanning from the right, as SpiderMonkey sorts short
      arrays. */
  function SortFromRight(t: Tables, sortKey: string, s: seq<nat>): (r: seq<nat>)
    ensures multiset(r) == multiset(s)
  {
    if s == [] then []
    else
      assert s == s[..|s| - 1] + [s[|s| - 1]];
      InsertFromRight(t, sortKey, SortFromRight(t, sortKey, s[..|s| - 1]), s[|s| - 1])
  }

  /** On scored elements, inserting from the right an element above all of
      them keeps the list strictly ordered. */
  lemma {:induction false} InsertFromRightOrdered(t: Tables, sortKey: string, s: seq<nat>, x: nat)
    requires StrictlyOrdered(t, sortKey, s) && AllScored(t, s) && Scored(t, x)
    requires forall i :: 0 <= i < |s| ==> s[i] < x
    ensures StrictlyOrdered(t, sortKey, InsertFromRight(t, sortKey, s, x))
    decreases |s|
  {
    if s != [] {
      var init, last := s[..|s| - 1], s[|s| - 1];
      if CompareIndices(t, sortKey, last, x) > 0 {
        forall i, j | 0 <= i < j < |init| ensures Before(t, sortKey, init[i], init[j]) {
          assert init[i] == s[i] && init[j] == s[j];
        }
        InsertFromRightOrdered(t, sortKey, init, x);
        var rest := InsertFromRight(t, sortKey, init, x);
        CompareAntisymmetric(t, sortKey, last, x);
        forall y | y in rest ensures Before(t, sortKey, y, last) {
          assert y in multiset(rest);
          if y != x {
            var k :| 0 <= k < |init| && init[k] == y;
            assert s[k] == y;
          }
        }
        var r := rest + [last];
        forall i, j | 0 <= i < j < |r| ensures Before(t, sortKey, r[i], r[j]) {
          if j == |r| - 1 {
            assert r[i] in rest;
          } else {
            assert r[i] == rest[i] && r[j] == rest[j];
          }
        }
      } else {
        var r := s + [x];
        forall i | 0 <= i < |s| ensures Before(t, sortKey, s[i], x) {
          if i < |s| - 1 {
            assert Before(t, sortKey, s[i], last);
            CompareTransitive(t, sortKey, s[i], last, x);
          }
        }
        forall i, j | 0 <= i < j < |r| ensures Before(t, sortKey, r[i], r[j]) {
          if j < |s| {
            assert r[i] == s[i] && r[j] == s[j];
          }
        }
      }
    }
  }

  /** On an increasing list of scored indices the right-to-left insertion
      sort is strictly ordered. */
  lemma {:induction false} SortFromRightOrdered(t: Tables, sortKey: string, s: seq<nat>)
    requires Increasing(s) && AllScored(t, s)
    ensures StrictlyOrdered(t, sortKey, SortFromRight(t, sortKey, s))
  {
    if s != [] {
      var init, last := s[..|s| - 1], s[|s| - 1];
      SortFromRightOrdered(t, sortKey, init);
      var sorted := SortFromRight(t, sortKey, init);
      forall i | 0 <= i < |sorted| ensures sorted[i] < last && Scored(t, sorted[i]) {
        assert sorted[i] in multiset(init);
        var k :| 0 <= k < |init| && init[k] == sorted[i];
        assert s[k] == sorted[i];
      }
      InsertFromRightOrdered(t, sortKey, sorted, last);
    }
  }

  /** A list without duplicates has every count at most one. */
  lemma {:induction false} CountAtMostOne<T>(s: seq<T>)
    requires NoDuplicates(s)
    ensures forall x :: multiset(s)[x] <= 1
  {
    if s != [] {
      var tail := s[1..];
      forall i, j | 0 <= i < j < |tail| ensures tail[i] != tail[j] {
        assert tail[i] == s[i + 1] && tail[j] == s[j + 1];
      }
      CountAtMostOne(tail);
      assert s == [s[0]] + tail;
      assert s[0] !in tail;
      assert multiset(s) == multiset{s[0]} + multiset(tail);
    }
  }

  /** A permutation of a list without duplicates has none. */
  lemma PermutationNoDuplicates<T>(s: seq<T>, r: seq<T>)
    requires multiset(r) == multiset(s) && NoDuplicates(s)
    ensures NoDuplicates(r)
  {
    CountAtMostOne(s);
    forall i, j | 0 <= i < j < |r| ensures r[i] != r[j] {
      assert r == r[..j] + r[j..];
      assert r[i] in r[..j] && r[j] in r[j..];
      assert multiset(r)[r[j]] == multiset(r[..j])[r[j]] + multiset(r[j..])[r[j]];
    }
  }
}
