/** Sorting by a comparison that is a strict weak ordering on the elements at hand, as std::sort demands. */
module Sorting {

  ghost predicate Irreflexive<T>(less: (T, T) -> bool, s: seq<T>) {
    forall x | x in s :: !less(x, x)
  }

  ghost predicate Transitive<T>(less: (T, T) -> bool, s: seq<T>) {
    forall x, y, z | x in s && y in s && z in s && less(x, y) && less(y, z) :: less(x, z)
  }

  predicate Incomparable<T>(less: (T, T) -> bool, x: T, y: T) {
    !less(x, y) && !less(y, x)
  }

  ghost predicate TransitivelyIncomparable<T>(less: (T, T) -> bool, s: seq<T>) {
    forall x, y, z | x in s && y in s && z in s && Incomparable(less, x, y) && Incomparable(less, y, z) ::
      Incomparable(less, x, z)
  }

  ghost predicate StrictWeakOrder<T>(less: (T, T) -> bool, s: seq<T>) {
    Irreflexive(less, s) && Transitive(less, s) && TransitivelyIncomparable(less, s)
  }

  /** No element stands behind one that is greater. */
  ghost predicate Sorted<T>(less: (T, T) -> bool, s: seq<T>) {
    forall i, j | 0 <= i < j < |s| :: !less(s[j], s[i])
  }

  /** Where x belongs in a sorted sequence: behind everything that is not greater. */
  method Position<T>(less: (T, T) -> bool, r: seq<T>, x: T, ghost s: seq<T>) returns (k: nat)
    requires StrictWeakOrder(less, s) && Sorted(less, r) && x in s && forall y | y in r :: y in s
    ensures k <= |r|
    ensures forall i | 0 <= i < k :: !less(x, r[i])
    ensures forall i | k <= i < |r| :: !less(r[i], x)
  {
    k := |r|;
    while 0 < k && less(x, r[k - 1])
      invariant k <= |r|
      invariant forall i | k <= i < |r| :: less(x, r[i])
    {
      k := k - 1;
    }
    forall i | k <= i < |r|
      ensures !less(r[i], x)
    {
      assert r[i] in s;
      assert less(x, r[i]) && less(r[i], x) ==> less(x, x);
    }
    forall i | 0 <= i < k
      ensures !less(x, r[i])
    {
      if i < k - 1 {
        assert r[i] in s && r[k - 1] in s;
      }
    }
  }

  lemma InsertKeepsSorted<T>(less: (T, T) -> bool, r: seq<T>, x: T, k: nat)
    requires Sorted(less, r) && k <= |r|
    requires forall i | 0 <= i < k :: !less(x, r[i])
    requires forall i | k <= i < |r| :: !less(r[i], x)
    ensures Sorted(less, r[..k] + [x] + r[k..])
    ensures multiset(r[..k] + [x] + r[k..]) == multiset(r) + multiset{x}
  {
    assert r == r[..k] + r[k..];
    var r' := r[..k] + [x] + r[k..];
    forall i, j | 0 <= i < j < |r'|
      ensures !less(r'[j], r'[i])
    {
      assert r'[i] == (if i < k then r[i] else if i == k then x else r[i - 1]);
      assert r'[j] == (if j < k then r[j] else if j == k then x else r[j - 1]);
    }
  }

  method Sort<T>(less: (T, T) -> bool, s: seq<T>) returns (r: seq<T>)
    requires StrictWeakOrder(less, s)
    ensures Sorted(less, r) && multiset(r) == multiset(s)
  {
    r := [];
    for n := 0 to |s|
      invariant Sorted(less, r) && multiset(r) == multiset(s[..n])
    {
      hide Sorted, StrictWeakOrder;
      forall y | y in r
        ensures y in s
      {
        assert y in multiset(s[..n]);
      }
      var k := Position(less, r, s[n], s);
      InsertKeepsSorted(less, r, s[n], k);
      assert s[..n + 1] == s[..n] + [s[n]];
      r := r[..k] + [s[n]] + r[k..];
    }
    assert s[..|s|] == s;
  }

  lemma TakeOut<T>(b: seq<T>, k: nat)
    requires k < |b|
    ensures multiset(b) == multiset{b[k]} + multiset(b[..k] + b[k + 1..])
  {
    assert b == b[..k] + [b[k]] + b[k + 1..];
  }

  ghost predicate Distinct<T, K>(s: seq<T>, key: T -> K) {
    forall i, j | 0 <= i < j < |s| :: key(s[i]) != key(s[j])
  }

  lemma {:induction false} OnlyOnce<T, K>(s: seq<T>, key: T -> K, x: T)
    requires Distinct(s, key)
    ensures multiset(s)[x] <= 1
    decreases |s|
  {
    if s != [] {
      var init, last := s[..|s| - 1], s[|s| - 1];
      assert s == init + [last];
      OnlyOnce(init, key, x);
      assert last !in init;
    }
  }

  /** Reordering keeps the members and keeps their keys distinct. */
  lemma Reordered<T, K>(a: seq<T>, b: seq<T>, key: T -> K)
    requires multiset(a) == multiset(b) && Distinct(a, key)
    ensures |a| == |b| && Distinct(b, key) && forall x :: x in a <==> x in b
  {
    assert |multiset(a)| == |a| && |multiset(b)| == |b|;
    forall x
      ensures x in a <==> x in b
    {
      assert x in a <==> x in multiset(a);
    }
    forall i, j | 0 <= i < j < |b|
      ensures key(b[i]) != key(b[j])
    {
      assert b[i] in a && b[j] in a;
      OnlyOnce(a, key, b[j]);
      TakeOut(b, j);
      assert (b[..j] + b[j + 1..])[i] == b[i];
      assert b[i] in multiset(b[..j] + b[j + 1..]);
    }
  }
}
