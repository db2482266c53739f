/**
 * The order `sort.Strings` puts location names in: byte-wise lexicographic
 * order, as Go compares strings.
 */
module Ordering {
  import opened Bytes
  import opened Aggregation

  /** `a <= b` on Go strings: a prefix comes first, otherwise the first differing byte decides. */
  predicate Below(a: Key, b: Key) {
    if a == [] then true
    else if b == [] then false
    else if a[0] != b[0] then a[0] < b[0]
    else Below(a[1..], b[1..])
  }

  lemma {:induction false} BelowReflexive(a: Key)
    ensures Below(a, a)
    decreases |a|
  {
    if a != [] {
      BelowReflexive(a[1..]);
    }
  }

  lemma {:induction false} BelowAntisymmetric(a: Key, b: Key)
    requires Below(a, b) && Below(b, a)
    ensures a == b
    decreases |a|
  {
    if a != [] && b != [] {
      BelowAntisymmetric(a[1..], b[1..]);
      assert a == [a[0]] + a[1..] && b == [b[0]] + b[1..];
    }
  }

  lemma {:induction false} BelowTransitive(a: Key, b: Key, c: Key)
    requires Below(a, b) && Below(b, c)
    ensures Below(a, c)
    decreases |a|
  {
    if a != [] && b != [] && c != [] && a[0] == b[0] && b[0] == c[0] {
      BelowTransitive(a[1..], b[1..], c[1..]);
    }
  }

  lemma {:induction false} BelowTotal(a: Key, b: Key)
    ensures Below(a, b) || Below(b, a)
    decreases |a|
  {
    if a != [] && b != [] && a[0] == b[0] {
      BelowTotal(a[1..], b[1..]);
    }
  }

  /** Ascending order: every name is at or below every name after it. */
  predicate Sorted(s: seq<Key>) {
    forall i, j :: 0 <= i < j < |s| ==> Below(s[i], s[j])
  }

  /** `k` put into sorted `s` before the first name above it. */
  function InsertSorted(s: seq<Key>, k: Key): (r: seq<Key>)
    ensures multiset(r) == multiset(s) + multiset{k}
    ensures Sorted(s) ==> Sorted(r)
  {
    if s == [] then [k]
    else if Below(k, s[0]) then
      InsertBeforeHead(s, k);
      [k] + s
    else
      var r := [s[0]] + InsertSorted(s[1..], k);
      assert s == [s[0]] + s[1..];
      InsertAfterHead(s, k, InsertSorted(s[1..], k));
      r
  }

  lemma InsertBeforeHead(s: seq<Key>, k: Key)
    requires s != [] && Below(k, s[0])
    ensures Sorted(s) ==> Sorted([k] + s)
  {
    if Sorted(s) {
      var r := [k] + s;
      forall i, j | 0 <= i < j < |r| ensures Below(r[i], r[j]) {
        if i == 0 && j > 1 {
          BelowTransitive(k, s[0], s[j - 1]);
        }
      }
    }
  }

  lemma InsertAfterHead(s: seq<Key>, k: Key, tail: seq<Key>)
    requires s != [] && !Below(k, s[0])
    requires multiset(tail) == multiset(s[1..]) + multiset{k}
    requires Sorted(s[1..]) ==> Sorted(tail)
    ensures Sorted(s) ==> Sorted([s[0]] + tail)
  {
    if Sorted(s) {
      BelowTotal(k, s[0]);
      var r := [s[0]] + tail;
      forall j | 0 <= j < |tail| ensures Below(s[0], tail[j]) {
        assert tail[j] in multiset(tail);
        if tail[j] != k {
          assert tail[j] in multiset(s[1..]);
          var m :| 0 <= m < |s[1..]| && s[1..][m] == tail[j];
          assert s[m + 1] == tail[j];
        }
      }
      forall i, j | 0 <= i < j < |r| ensures Below(r[i], r[j]) {
        if i > 0 {
          assert r[i] == tail[i - 1] && r[j] == tail[j - 1];
        }
      }
    }
  }

  /** The names in ascending order, by insertion. */
  function SortKeys(s: seq<Key>): (r: seq<Key>)
    ensures Sorted(r) && multiset(r) == multiset(s)
  {
    if s == [] then []
    else
      assert s == s[..|s| - 1] + [s[|s| - 1]];
      InsertSorted(SortKeys(s[..|s| - 1]), s[|s| - 1])
  }

  /** There is one ascending order of a collection of names: sorted rearrangements are equal. */
  lemma {:induction false} SortedUnique(x: seq<Key>, y: seq<Key>)
    requires Sorted(x) && Sorted(y) && multiset(x) == multiset(y)
    ensures x == y
    decreases |x|
  {
    assert |x| == |multiset(x)| == |multiset(y)| == |y|;
    if x != [] {
      HeadsAgree(x, y);
      TailMultiset(x);
      TailMultiset(y);
      SortedUnique(x[1..], y[1..]);
      assert x == [x[0]] + x[1..] && y == [y[0]] + y[1..];
    }
  }

  /** Two sorted rearrangements of the same names start with the same name. */
  lemma HeadsAgree(x: seq<Key>, y: seq<Key>)
    requires Sorted(x) && Sorted(y) && multiset(x) == multiset(y) && x != [] && y != []
    ensures x[0] == y[0]
  {
    assert x[0] in multiset(y) && y[0] in multiset(x);
    var k :| 0 <= k < |y| && y[k] == x[0];
    var m :| 0 <= m < |x| && x[m] == y[0];
    BelowReflexive(x[0]);
    assert Below(y[0], x[0]) by {
      if k > 0 {
        assert Below(y[0], y[k]);
      }
    }
    assert Below(x[0], y[0]) by {
      if m > 0 {
        assert Below(x[0], x[m]);
      }
    }
    BelowAntisymmetric(x[0], y[0]);
  }

  lemma TailMultiset<T>(x: seq<T>)
    requires x != []
    ensures multiset(x[1..]) == multiset(x) - multiset{x[0]}
  {
    assert x == [x[0]] + x[1..];
  }

  /** Sorting depends only on which names there are. */
  lemma SortKeysUnique(s: seq<Key>, t: seq<Key>)
    requires multiset(s) == multiset(t)
    ensures SortKeys(s) == SortKeys(t)
  {
    SortedUnique(SortKeys(s), SortKeys(t));
  }

  /**
   * `sort.Strings`, as an insertion sort in place: each next name is swapped
   * down past the names above it.
   */
  method SortStrings(a: array<Key>)
    modifies a
    ensures Sorted(a[..]) && multiset(a[..]) == multiset(old(a[..]))
  {
    var i := 0;
    while i < a.Length
      invariant 0 <= i <= a.Length
      invariant Sorted(a[..i])
      invariant multiset(a[..]) == multiset(old(a[..]))
    {
      SwapDown(a, i);
      i := i + 1;
    }
    assert a[..a.Length] == a[..];
  }

  /** Swap the name at i down until the name before it is at or below it. */
  method SwapDown(a: array<Key>, i: nat)
    requires i < a.Length && Sorted(a[..i])
    modifies a
    ensures Sorted(a[..i + 1]) && multiset(a[..]) == multiset(old(a[..]))
  {
    var j := i;
    assert SortedExcept(a[..], i, j) by {
      assert forall p :: 0 <= p < i ==> a[..i][p] == a[p];
    }
    while j > 0 && !Below(a[j - 1], a[j])
      invariant 0 <= j <= i
      invariant SortedExcept(a[..], i, j) && BelowLater(a[..], i, j)
      invariant multiset(a[..]) == multiset(old(a[..]))
    {
      BelowTotal(a[j - 1], a[j]);
      ghost var before := a[..];
      SwapKeepsOrder(before, i, j);
      a[j - 1], a[j] := a[j], a[j - 1];
      assert a[..] == Swap(before, j);
      j := j - 1;
    }
    SettledInPlace(a[..], i, j);
  }

  /** The first i + 1 names, leaving out the one at j, are in ascending order. */
  predicate SortedExcept(s: seq<Key>, i: nat, j: nat)
    requires i < |s|
  {
    forall p, q :: 0 <= p < q <= i && p != j && q != j ==> Below(s[p], s[q])
  }

  /** The name at j is at or below every name after it up to i. */
  predicate BelowLater(s: seq<Key>, i: nat, j: nat)
    requires j <= i < |s|
  {
    forall q :: j < q <= i ==> Below(s[j], s[q])
  }

  /** `s` with the names at j - 1 and j exchanged. */
  function Swap(s: seq<Key>, j: nat): (t: seq<Key>)
    requires 0 < j < |s|
    ensures multiset(t) == multiset(s)
  {
    s[j - 1 := s[j]][j := s[j - 1]]
  }

  /** Swapping a name below its left neighbour moves the gap in the order one place left. */
  lemma SwapKeepsOrder(s: seq<Key>, i: nat, j: nat)
    requires 0 < j <= i < |s| && SortedExcept(s, i, j) && BelowLater(s, i, j)
    requires Below(s[j], s[j - 1])
    ensures SortedExcept(Swap(s, j), i, j - 1) && BelowLater(Swap(s, j), i, j - 1)
  {
  }

  /** Once the moving name is at or above its left neighbour, the first i + 1 names are sorted. */
  lemma SettledInPlace(s: seq<Key>, i: nat, j: nat)
    requires j <= i < |s|
    requires SortedExcept(s, i, j) && BelowLater(s, i, j)
    requires j == 0 || Below(s[j - 1], s[j])
    ensures Sorted(s[..i + 1])
  {
    forall p, q | 0 <= p < q <= i ensures Below(s[p], s[q]) {
      if q == j && p < j - 1 {
        BelowTransitive(s[p], s[j - 1], s[j]);
      }
    }
  }

  /** Without duplicates, a name occurs once if it is listed and not at all otherwise. */
  lemma {:induction false} NoDuplicatesCount(s: seq<Key>, x: Key)
    requires NoDuplicates(s)
    ensures multiset(s)[x] == if x in Elements(s) then 1 else 0
    decreases |s|
  {
    if s != [] {
      var init := s[..|s| - 1];
      assert s == init + [s[|s| - 1]];
      assert NoDuplicates(init) by {
        assert forall i :: 0 <= i < |init| ==> init[i] == s[i];
      }
      NoDuplicatesCount(init, x);
      assert Elements(s) == Elements(init) + {s[|s| - 1]} by {
        assert forall i :: 0 <= i < |init| ==> init[i] == s[i];
      }
      assert s[|s| - 1] !in Elements(init) by {
        forall i | 0 <= i < |init| ensures init[i] != s[|s| - 1] {
          assert init[i] == s[i];
        }
      }
    }
  }

  /** Two key lists of the same map sort to the same names: the order they were found in does not matter. */
  lemma KeyListsSortAlike(l1: seq<Key>, l2: seq<Key>, m: map<Key, Location>)
    requires KeyList(l1, m) && KeyList(l2, m)
    ensures SortKeys(l1) == SortKeys(l2)
  {
    forall x ensures multiset(l1)[x] == multiset(l2)[x] {
      NoDuplicatesCount(l1, x);
      NoDuplicatesCount(l2, x);
    }
    assert multiset(l1) == multiset(l2);
    SortKeysUnique(l1, l2);
  }
}
