/** Sorting records by a string key, as sort.Strings and sort.Slice do, and why the algorithm cannot matter. */
module Sorting {
  import opened GoBase
  import opened Strings

  ghost predicate SortedBy<T>(xs: seq<T>, key: T -> bytes) {
    forall i, j :: 0 <= i < j < |xs| ==> !Less(key(xs[j]), key(xs[i]))
  }

  ghost predicate DistinctBy<T>(xs: seq<T>, key: T -> bytes) {
    forall i, j :: 0 <= i < j < |xs| ==> key(xs[i]) != key(xs[j])
  }

  lemma InsertMultiset<T>(ys: seq<T>, x: T, k: nat)
    requires k <= |ys|
    ensures multiset(ys[..k] + [x] + ys[k..]) == multiset(ys) + multiset{x}
  {
    assert ys == ys[..k] + ys[k..];
  }

  lemma NotLessIsTransitive(a: bytes, b: bytes, c: bytes)
    requires !Less(a, b) && !Less(b, c)
    ensures !Less(a, c)
  {
    LessIsTotal(a, b);
    LessIsTotal(b, c);
    LessIsTotal(a, c);
    if Less(b, a) && Less(c, b) { LessIsTransitive(c, b, a); }
  }

  lemma InsertSorted<T>(ys: seq<T>, x: T, k: nat, key: T -> bytes)
    requires SortedBy(ys, key) && k <= |ys|
    requires k > 0 ==> !Less(key(x), key(ys[k - 1]))
    requires forall j :: k <= j < |ys| ==> Less(key(x), key(ys[j]))
    ensures SortedBy(ys[..k] + [x] + ys[k..], key)
  {
    var zs := ys[..k] + [x] + ys[k..];
    forall i, j | 0 <= i < j < |zs| ensures !Less(key(zs[j]), key(zs[i])) {
      if j == k {
        if i < k - 1 { NotLessIsTransitive(key(x), key(ys[k - 1]), key(ys[i])); }
      } else if i == k {
        LessIsTotal(key(x), key(zs[j]));
      } else {
        assert zs[i] == (if i < k then ys[i] else ys[i - 1]) && zs[j] == (if j < k then ys[j] else ys[j - 1]);
      }
    }
  }

  /** Sorting: each element is moved down past the larger ones before it. */
  method SortBy<T>(xs: seq<T>, key: T -> bytes) returns (ys: seq<T>)
    ensures SortedBy(ys, key) && multiset(ys) == multiset(xs)
  {
    hide Less;
    ys := [];
    for i := 0 to |xs|
      invariant SortedBy(ys, key) && multiset(ys) == multiset(xs[..i])
    {
      var x := xs[i];
      var k := |ys|;
      while k > 0 && Less(key(x), key(ys[k - 1]))
        invariant 0 <= k <= |ys|
        invariant forall j :: k <= j < |ys| ==> Less(key(x), key(ys[j]))
      {
        k := k - 1;
      }
      InsertSorted(ys, x, k, key);
      InsertMultiset(ys, x, k);
      assert xs[..i + 1] == xs[..i] + [x];
      ys := ys[..k] + [x] + ys[k..];
    }
    assert xs[..|xs|] == xs;
  }

  lemma TailMultiset<T>(xs: seq<T>)
    requires xs != []
    ensures multiset(xs[1..]) == multiset(xs) - multiset{xs[0]}
  {
    assert xs == [xs[0]] + xs[1..];
  }

  lemma LeastFirst<T>(a: seq<T>, b: seq<T>, key: T -> bytes)
    requires SortedBy(a, key) && SortedBy(b, key) && DistinctBy(a, key)
    requires multiset(a) == multiset(b) && a != [] && b != []
    ensures a[0] == b[0]
  {
    assert b[0] in multiset(b) && a[0] in multiset(a);
    assert b[0] in a && a[0] in b;
    var i :| 0 <= i < |a| && a[i] == b[0];
    var j :| 0 <= j < |b| && b[j] == a[0];
    LessIsTotal(key(a[0]), key(b[0]));
    assert !(i > 0 && j > 0);
  }

  /** Any two sorted arrangements of records with distinct keys are the same, whatever produced them. */
  lemma {:induction false} SortedArrangementIsUnique<T>(a: seq<T>, b: seq<T>, key: T -> bytes)
    requires SortedBy(a, key) && SortedBy(b, key) && DistinctBy(a, key)
    requires multiset(a) == multiset(b)
    ensures a == b
    decreases |a|
  {
    hide Less;
    assert |multiset(a)| == |a| && |multiset(b)| == |b|;
    if a != [] {
      LeastFirst(a, b, key);
      TailMultiset(a);
      TailMultiset(b);
      assert a == [a[0]] + a[1..] && b == [b[0]] + b[1..];
      SortedArrangementIsUnique(a[1..], b[1..], key);
    }
  }

  lemma OnceInMultiset<T>(xs: seq<T>, k: nat, key: T -> bytes)
    requires k < |xs| && DistinctBy(xs, key)
    ensures multiset(xs)[xs[k]] == 1
  {
    var rest := xs[..k] + xs[k + 1..];
    assert xs == xs[..k] + [xs[k]] + xs[k + 1..];
    assert multiset(xs) == multiset(rest) + multiset{xs[k]};
    assert forall i :: 0 <= i < |rest| ==> key(rest[i]) == key(xs[if i < k then i else i + 1]);
    assert xs[k] !in rest;
  }

  lemma TwiceInMultiset<T>(xs: seq<T>, i: nat, j: nat)
    requires i < j < |xs|
    ensures xs[i] == xs[j] ==> multiset(xs)[xs[i]] >= 2
  {
    assert xs == xs[..i] + [xs[i]] + xs[i + 1..j] + [xs[j]] + xs[j + 1..];
  }

  /** Rearranging records with distinct keys leaves the keys distinct. */
  lemma RearrangedIsDistinct<T>(xs: seq<T>, ys: seq<T>, key: T -> bytes)
    requires DistinctBy(xs, key) && multiset(xs) == multiset(ys)
    ensures DistinctBy(ys, key)
  {
    forall i, j | 0 <= i < j < |ys| ensures key(ys[i]) != key(ys[j]) {
      assert ys[i] in multiset(xs) && ys[j] in multiset(xs);
      assert ys[i] in xs && ys[j] in xs;
      var k :| 0 <= k < |xs| && xs[k] == ys[i];
      var l :| 0 <= l < |xs| && xs[l] == ys[j];
      OnceInMultiset(xs, k, key);
      TwiceInMultiset(ys, i, j);
      assert k != l;
    }
  }

  /** Whatever algorithm sorts records with distinct keys, the result is the same. */
  lemma SortedArrangementsAgree<T>(xs: seq<T>, a: seq<T>, b: seq<T>, key: T -> bytes)
    requires DistinctBy(xs, key)
    requires SortedBy(a, key) && multiset(a) == multiset(xs)
    requires SortedBy(b, key) && multiset(b) == multiset(xs)
    ensures a == b
  {
    RearrangedIsDistinct(xs, a, key);
    SortedArrangementIsUnique(a, b, key);
  }
}
