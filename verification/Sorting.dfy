/** The part of `std::sort` that its callers rely on. */
module Sorting {

  ghost predicate SortedBy<T>(s: seq<T>, key: T -> int)
  {
    forall i, j :: 0 <= i < j < |s| ==> key(s[i]) <= key(s[j])
  }

  /** Sorts in place by an integer key. As for `std::sort`, nothing is promised about
      the order of elements whose keys are equal. */
  method Sort<T>(a: array<T>, key: T -> int)
    modifies a
    ensures SortedBy(a[..], key)
    ensures multiset(a[..]) == multiset(old(a[..]))
  {
    var i := 0;
    while i < a.Length
      invariant 0 <= i <= a.Length
      invariant SortedBy(a[..i], key)
      invariant multiset(a[..]) == multiset(old(a[..]))
    {
      Insert(a, i, key);
      i := i + 1;
    }
    assert a[..i] == a[..];
  }

  /** Moves `a[n]` down into the sorted prefix `a[..n]`. */
  method Insert<T>(a: array<T>, n: nat, key: T -> int)
    requires n < a.Length
    requires SortedBy(a[..n], key)
    modifies a
    ensures SortedBy(a[..n + 1], key)
    ensures multiset(a[..]) == multiset(old(a[..]))
  {
    var j := n;
    while 0 < j && key(a[j - 1]) > key(a[j])
      invariant 0 <= j <= n
      invariant multiset(a[..]) == multiset(old(a[..]))
      invariant forall x, y :: 0 <= x < y <= n && y != j ==> key(a[x]) <= key(a[y])
    {
      SwapDown(a, j);
      j := j - 1;
    }
  }

  method SwapDown<T>(a: array<T>, j: nat)
    requires 0 < j < a.Length
    modifies a
    ensures a[j - 1] == old(a[j]) && a[j] == old(a[j - 1])
    ensures forall x :: 0 <= x < a.Length && x != j - 1 && x != j ==> a[x] == old(a[x])
    ensures multiset(a[..]) == multiset(old(a[..]))
  {
    a[j - 1], a[j] := a[j], a[j - 1];
  }

  /** Every multiset has a sorted listing. */
  lemma {:induction false} SortedListing<T>(s: seq<T>, key: T -> int) returns (r: seq<T>)
    ensures SortedBy(r, key) && multiset(r) == multiset(s)
  {
    if s == [] {
      r := [];
    } else {
      var front := s[..|s| - 1];
      assert s == front + [s[|s| - 1]];
      var q := SortedListing(front, key);
      r := SortedInsert(q, s[|s| - 1], key);
    }
  }

  lemma {:induction false} SortedInsert<T>(s: seq<T>, x: T, key: T -> int) returns (r: seq<T>)
    requires SortedBy(s, key)
    ensures SortedBy(r, key) && multiset(r) == multiset(s) + multiset{x}
  {
    if s == [] || key(s[|s| - 1]) <= key(x) {
      r := s + [x];
    } else {
      var front, last := s[..|s| - 1], s[|s| - 1];
      assert s == front + [last];
      var q := SortedInsert(front, x, key);
      NotAbove(q, front, x, key, key(last));
      r := q + [last];
    }
  }

  lemma NotAbove<T>(q: seq<T>, front: seq<T>, x: T, key: T -> int, bound: int)
    requires multiset(q) == multiset(front) + multiset{x}
    requires key(x) <= bound && forall i :: 0 <= i < |front| ==> key(front[i]) <= bound
    ensures forall i :: 0 <= i < |q| ==> key(q[i]) <= bound
  {
    forall i | 0 <= i < |q| ensures key(q[i]) <= bound {
      assert q[i] in multiset(q);
      assert q[i] in multiset(front) || q[i] == x;
    }
  }

  lemma SwapMultiset<T>(s: seq<T>, i: nat, j: nat)
    requires i < |s| && j < |s|
    ensures multiset(s[i := s[j]][j := s[i]]) == multiset(s)
  {
  }

  ghost function Keys<T>(s: seq<T>, key: T -> int): seq<int>
  {
    seq(|s|, i requires 0 <= i < |s| => key(s[i]))
  }

  /** Two listings of one multiset, both sorted by a key, show the same keys in the same places. */
  lemma SortedKeysUnique<T>(s: seq<T>, t: seq<T>, key: T -> int)
    requires multiset(s) == multiset(t) && SortedBy(s, key) && SortedBy(t, key)
    ensures |s| == |t| && forall i :: 0 <= i < |s| ==> key(s[i]) == key(t[i])
  {
    assert |s| == |multiset(s)| == |multiset(t)| == |t|;
    KeysMultiset(s, t, key);
    AscendingUnique(Keys(s, key), Keys(t, key));
    forall i | 0 <= i < |s| ensures key(s[i]) == key(t[i]) {
      assert Keys(s, key)[i] == Keys(t, key)[i];
    }
  }

  lemma MultisetWithout<T>(s: seq<T>, k: nat)
    requires k < |s|
    ensures multiset(s) == multiset(s[..k] + s[k + 1..]) + multiset{s[k]}
  {
    assert s == s[..k] + [s[k]] + s[k + 1..];
  }

  lemma Cancel<T>(a: multiset<T>, b: multiset<T>, x: T)
    requires a + multiset{x} == b + multiset{x}
    ensures a == b
  {
    assert a == (a + multiset{x}) - multiset{x};
  }

  lemma {:induction false} KeysMultiset<T>(s: seq<T>, t: seq<T>, key: T -> int)
    requires multiset(s) == multiset(t)
    ensures multiset(Keys(s, key)) == multiset(Keys(t, key))
  {
    if s == [] {
      assert |multiset(t)| == 0;
    } else {
      var n := |s| - 1;
      assert s[n] in multiset(s);
      var k :| 0 <= k < |t| && t[k] == s[n];
      var rest := t[..k] + t[k + 1..];
      MultisetWithout(t, k);
      MultisetWithout(s, n);
      assert s[..n] + s[n + 1..] == s[..n];
      Cancel(multiset(s[..n]), multiset(rest), s[n]);
      KeysMultiset(s[..n], rest, key);
      KeysWithout(s, n, key);
      KeysWithout(t, k, key);
    }
  }

  lemma KeysWithout<T>(s: seq<T>, k: nat, key: T -> int)
    requires k < |s|
    ensures multiset(Keys(s, key)) == multiset(Keys(s[..k] + s[k + 1..], key)) + multiset{key(s[k])}
  {
    var keys := Keys(s, key);
    MultisetWithout(keys, k);
    assert keys[..k] + keys[k + 1..] == Keys(s[..k] + s[k + 1..], key);
  }

  lemma {:induction false} AscendingUnique(a: seq<int>, b: seq<int>)
    requires multiset(a) == multiset(b)
    requires forall i, j :: 0 <= i < j < |a| ==> a[i] <= a[j]
    requires forall i, j :: 0 <= i < j < |b| ==> b[i] <= b[j]
    ensures a == b
  {
    assert |a| == |multiset(a)| == |multiset(b)| == |b|;
    if a != [] {
      var n := |a| - 1;
      LastIsLargest(a, b);
      LastIsLargest(b, a);
      MultisetWithout(a, n);
      MultisetWithout(b, n);
      assert a[..n] + a[n + 1..] == a[..n] && b[..n] + b[n + 1..] == b[..n];
      Cancel(multiset(a[..n]), multiset(b[..n]), a[n]);
      AscendingUnique(a[..n], b[..n]);
      assert a == a[..n] + [a[n]] && b == b[..n] + [b[n]];
    }
  }

  lemma LastIsLargest(a: seq<int>, b: seq<int>)
    requires multiset(a) == multiset(b) && a != [] && b != []
    requires forall i, j :: 0 <= i < j < |a| ==> a[i] <= a[j]
    ensures b[|b| - 1] <= a[|a| - 1]
  {
    assert b[|b| - 1] in multiset(b);
    assert b[|b| - 1] in a;
  }
}
