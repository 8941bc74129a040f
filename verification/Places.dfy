/** Lists whose items stand one for each place of a tree, in the order of the places. */
module Places {
  import opened Wrappers

  /** Where something stands: the index to take at each level. */
  type Place = seq<nat>

  /** Which item, if any, stands at a place. */
  type At<!T> = (Place, T) -> bool

  /** `p` comes before `q`: it has the smaller index where they first differ. */
  ghost predicate Before(p: Place, q: Place)
  {
    p != [] && q != [] && (p[0] < q[0] || (p[0] == q[0] && Before(p[1..], q[1..])))
  }

  ghost predicate Ascending(places: seq<Place>)
  {
    forall i, j :: 0 <= i < j < |places| ==> Before(places[i], places[j])
  }

  /** The items are exactly those that stand somewhere, at these places, in their order. */
  ghost predicate ListedAt<T(!new)>(items: seq<T>, places: seq<Place>, at: At<T>)
  {
    && |items| == |places| && Ascending(places)
    && (forall k :: 0 <= k < |items| ==> Stands(items, places, at, k))
    && forall p, x :: at(p, x) ==> Listing(items, places, p, x)
  }

  ghost predicate Stands<T>(items: seq<T>, places: seq<Place>, at: At<T>, k: nat)
    requires k < |items| == |places|
  {
    at(places[k], items[k])
  }

  ghost predicate Listing<T>(items: seq<T>, places: seq<Place>, p: Place, x: T)
    requires |items| == |places|
  {
    exists k :: 0 <= k < |items| && places[k] == p && items[k] == x
  }

  /** One item for each place where something stands, in the order of the places. */
  ghost predicate Listed<T(!new)>(items: seq<T>, at: At<T>)
  {
    exists places :: ListedAt(items, places, at)
  }

  lemma {:induction false} BeforeInside(p: Place, q: Place, r: Place)
    requires Before(q, r)
    ensures Before(p + q, p + r)
  {
    if p == [] {
      assert p + q == q && p + r == r;
    } else {
      BeforeInside(p[1..], q, r);
      assert (p + q)[1..] == p[1..] + q && (p + r)[1..] == p[1..] + r;
    }
  }

  lemma {:induction false} BeforeOutside(p: Place, q: Place, u: Place, v: Place)
    requires Before(p, q)
    ensures Before(p + u, q + v)
  {
    if p[0] == q[0] {
      BeforeOutside(p[1..], q[1..], u, v);
      assert (p + u)[1..] == p[1..] + u && (q + v)[1..] == q[1..] + v;
    }
  }

  lemma {:induction false} NotBeforeItself(p: Place)
    ensures !Before(p, p)
  {
    if p != [] {
      NotBeforeItself(p[1..]);
    }
  }

  // ----- small lists -----

  lemma ListedNothing<T(!new)>(at: At<T>)
    requires forall p, x :: !at(p, x)
    ensures Listed([], at)
  {
    assert ListedAt([], [], at);
  }

  lemma ListedOne<T(!new)>(x: T, p: Place, at: At<T>)
    requires forall q, y :: at(q, y) <==> q == p && y == x
    ensures Listed([x], at)
  {
    assert Listing([x], [p], p, x) by {
      assert [p][0] == p;
    }
    assert ListedAt([x], [p], at);
  }

  lemma ListedSame<T(!new)>(items: seq<T>, a: At<T>, b: At<T>)
    requires Listed(items, a) && forall p, x :: a(p, x) <==> b(p, x)
    ensures Listed(items, b)
  {
    var places :| ListedAt(items, places, a);
    forall k | 0 <= k < |items| ensures Stands(items, places, b, k) {
      assert Stands(items, places, a, k);
    }
    assert ListedAt(items, places, b);
  }

  /** At most one item, at the empty place. */
  ghost function Here<T>(holds: bool, x: T): At<T>
  {
    (p: Place, y: T) => holds && p == [] && y == x
  }

  lemma ListedHere<T(!new)>(holds: bool, x: T)
    ensures Listed(if holds then [x] else [], Here(holds, x))
  {
    if holds {
      ListedOne(x, [], Here(holds, x));
    } else {
      ListedNothing(Here(holds, x));
    }
  }

  /** The items of a list themselves, one for each index. */
  ghost function Indexed<T>(s: seq<T>): At<T>
  {
    (p: Place, x: T) => |p| == 1 && p[0] < |s| && x == s[p[0]]
  }

  lemma ListedIndexed<T(!new)>(s: seq<T>)
    ensures Listed(s, Indexed(s))
  {
    var places := seq(|s|, k requires 0 <= k < |s| => [k as nat]);
    forall p, x | Indexed(s)(p, x) ensures Listing(s, places, p, x) {
      assert places[p[0]] == p;
    }
    assert ListedAt(s, places, Indexed(s));
  }

  // ----- lists of lists -----

  /** What stands inside: at the i-th item, and there at the rest of the place. */
  ghost function Inside<S, T>(s: seq<S>, inner: S -> At<T>): At<T>
  {
    (p: Place, x: T) => p != [] && p[0] < |s| && inner(s[p[0]])(p[1..], x)
  }

  /** If each part is listed by its own places, the parts joined are listed by the index of
      the part followed by those. */
  lemma {:induction false} ListedFlatMap<S, T(!new)>(f: S -> seq<T>, s: seq<S>, inner: S -> At<T>)
    requires forall i :: 0 <= i < |s| ==> Listed(f(s[i]), inner(s[i]))
    ensures Listed(FlatMap(f, s), Inside(s, inner))
  {
    if s == [] {
      ListedNothing(Inside(s, inner));
    } else {
      var n := |s| - 1;
      assert forall i :: 0 <= i < n ==> s[..n][i] == s[i];
      ListedFlatMap(f, s[..n], inner);
      ListedNext(FlatMap(f, s[..n]), f(s[n]), s, inner);
    }
  }

  ghost function Under(i: nat, places: seq<Place>): seq<Place>
  {
    seq(|places|, k requires 0 <= k < |places| => [i] + places[k])
  }

  lemma ListedNext<S, T(!new)>(front: seq<T>, last: seq<T>, s: seq<S>, inner: S -> At<T>)
    requires s != [] && Listed(front, Inside(s[..|s| - 1], inner)) && Listed(last, inner(s[|s| - 1]))
    ensures Listed(front + last, Inside(s, inner))
  {
    var n := |s| - 1;
    var all, outer, here := Inside(s, inner), Inside(s[..n], inner), inner(s[n]);
    forall p, x ensures all(p, x) <==> outer(p, x) || (p != [] && p[0] == n && here(p[1..], x)) {
      assert p != [] && p[0] < n ==> s[..n][p[0]] == s[p[0]];
    }
    ListedJoin(front, last, n, outer, here, all);
  }

  /** `all` is what stands in `outer`, below index `n`, and what stands in `here`, at `n`. */
  ghost predicate Extends<T(!new)>(all: At<T>, outer: At<T>, n: nat, here: At<T>)
  {
    && (forall p, x :: outer(p, x) ==> p != [] && p[0] < n)
    && forall p, x :: all(p, x) <==> outer(p, x) || (p != [] && p[0] == n && here(p[1..], x))
  }

  lemma ListedJoin<T(!new)>(front: seq<T>, last: seq<T>, n: nat, outer: At<T>, here: At<T>, all: At<T>)
    requires Listed(front, outer) && Listed(last, here) && Extends(all, outer, n, here)
    ensures Listed(front + last, all)
  {
    var before :| ListedAt(front, before, outer);
    var inside :| ListedAt(last, inside, here);
    var places := before + Under(n, inside);
    assert Ascending(places) by {
      forall k | 0 <= k < |before| ensures before[k] != [] && before[k][0] < n {
        assert Stands(front, before, outer, k);
      }
      JoinedAscending(before, n, inside);
    }
    forall k | 0 <= k < |places| ensures Stands(front + last, places, all, k) {
      StandsJoined(front, before, last, inside, n, outer, here, all, k);
    }
    forall p, x | all(p, x) ensures Listing(front + last, places, p, x) {
      FoundJoined(front, before, last, inside, n, outer, here, all, p, x);
    }
    assert ListedAt(front + last, places, all);
  }

  lemma StandsJoined<T(!new)>(front: seq<T>, before: seq<Place>, last: seq<T>, inside: seq<Place>, n: nat,
                              outer: At<T>, here: At<T>, all: At<T>, k: nat)
    requires ListedAt(front, before, outer) && ListedAt(last, inside, here) && Extends(all, outer, n, here)
    requires k < |front| + |last|
    ensures all((before + Under(n, inside))[k], (front + last)[k])
  {
    if k < |before| {
      assert Stands(front, before, outer, k);
    } else {
      var place := [n] + inside[k - |before|];
      assert Stands(last, inside, here, k - |before|);
      assert place[1..] == inside[k - |before|] && place[0] == n;
      assert all(place, last[k - |before|]);
    }
  }

  lemma FoundJoined<T(!new)>(front: seq<T>, before: seq<Place>, last: seq<T>, inside: seq<Place>, n: nat,
                             outer: At<T>, here: At<T>, all: At<T>, p: Place, x: T)
    requires ListedAt(front, before, outer) && ListedAt(last, inside, here) && Extends(all, outer, n, here)
    requires all(p, x)
    ensures Listing(front + last, before + Under(n, inside), p, x)
  {
    if outer(p, x) {
      ListingLeft(front, before, last, Under(n, inside), p, x);
    } else {
      ListingUnder(last, inside, n, p, x);
      ListingRight(front, before, last, Under(n, inside), p, x);
    }
  }

  lemma ListingLeft<T>(a: seq<T>, p1: seq<Place>, b: seq<T>, p2: seq<Place>, p: Place, x: T)
    requires |a| == |p1| && |b| == |p2| && Listing(a, p1, p, x)
    ensures Listing(a + b, p1 + p2, p, x)
  {
    var k :| 0 <= k < |a| && p1[k] == p && a[k] == x;
    assert (p1 + p2)[k] == p && (a + b)[k] == x;
  }

  lemma ListingRight<T>(a: seq<T>, p1: seq<Place>, b: seq<T>, p2: seq<Place>, p: Place, x: T)
    requires |a| == |p1| && |b| == |p2| && Listing(b, p2, p, x)
    ensures Listing(a + b, p1 + p2, p, x)
  {
    var k :| 0 <= k < |b| && p2[k] == p && b[k] == x;
    assert (p1 + p2)[|a| + k] == p && (a + b)[|a| + k] == x;
  }

  lemma ListingUnder<T>(items: seq<T>, places: seq<Place>, n: nat, p: Place, x: T)
    requires |items| == |places| && p != [] && p[0] == n && Listing(items, places, p[1..], x)
    ensures Listing(items, Under(n, places), p, x)
  {
    var k :| 0 <= k < |items| && places[k] == p[1..] && items[k] == x;
    assert Under(n, places)[k] == p;
  }

  lemma JoinedAscending(before: seq<Place>, n: nat, here: seq<Place>)
    requires Ascending(before) && Ascending(here)
    requires forall k :: 0 <= k < |before| ==> before[k] != [] && before[k][0] < n
    ensures Ascending(before + Under(n, here))
  {
    var places := before + Under(n, here);
    forall i, j | 0 <= i < j < |places| ensures Before(places[i], places[j]) {
      if i >= |before| {
        BeforeInside([n], here[i - |before|], here[j - |before|]);
      }
    }
  }

  // ----- one list after another -----

  /** What stands in the first part, at 0, in the second, at 1, or in the third, at 2. */
  ghost function Parts<T>(a: At<T>, b: At<T>, c: At<T>): At<T>
  {
    (p: Place, x: T) =>
      p != [] && ((p[0] == 0 && a(p[1..], x)) || (p[0] == 1 && b(p[1..], x)) || (p[0] == 2 && c(p[1..], x)))
  }

  ghost function Nowhere<T>(): At<T>
  {
    (p: Place, x: T) => false
  }

  lemma ListedParts<T(!new)>(s: seq<T>, t: seq<T>, u: seq<T>, a: At<T>, b: At<T>, c: At<T>)
    requires Listed(s, a) && Listed(t, b) && Listed(u, c)
    ensures Listed(s + t + u, Parts(a, b, c))
  {
    var none := Nowhere<T>();
    ListedNothing(none);
    ListedJoin([], s, 0, none, a, Parts(a, none, none));
    assert [] + s == s;
    ListedJoin(s, t, 1, Parts(a, none, none), b, Parts(a, b, none));
    ListedJoin(s + t, u, 2, Parts(a, b, none), c, Parts(a, b, c));
  }

  // ----- a listing leaves no choice -----

  lemma {:induction false} BeforeTotal(p: Place, q: Place, r: Place)
    ensures Before(p, q) ==> !Before(q, p)
    ensures Before(p, q) && Before(q, r) ==> Before(p, r)
  {
    if p != [] && q != [] {
      BeforeTotal(p[1..], q[1..], if r == [] then [] else r[1..]);
    }
  }

  /** What stands where determines the list. */
  lemma ListedUnique<T(!new)>(a: seq<T>, b: seq<T>, at: At<T>)
    requires Listed(a, at) && Listed(b, at)
    ensures a == b
  {
    ListedPrefix(a, b, at);
    ListedPrefix(b, a, at);
  }

  lemma ListedPrefix<T(!new)>(a: seq<T>, b: seq<T>, at: At<T>)
    requires Listed(a, at) && Listed(b, at)
    ensures |a| <= |b| && a == b[..|a|]
  {
    var p :| ListedAt(a, p, at);
    var q :| ListedAt(b, q, at);
    SameItems(a, p, b, q, at, |a|);
    assert a[..|a|] == a;
  }

  lemma {:induction false} SameItems<T(!new)>(a: seq<T>, p: seq<Place>, b: seq<T>, q: seq<Place>, at: At<T>, n: nat)
    requires ListedAt(a, p, at) && ListedAt(b, q, at) && n <= |a|
    ensures n <= |b| && a[..n] == b[..n] && p[..n] == q[..n]
  {
    if n > 0 {
      SameItems(a, p, b, q, at, n - 1);
      NextItem(a, p, b, q, at, n - 1);
    }
  }

  /** The lists agree up to `m`, and the first has one more: so has the second, the same. */
  lemma NextItem<T(!new)>(a: seq<T>, p: seq<Place>, b: seq<T>, q: seq<Place>, at: At<T>, m: nat)
    requires ListedAt(a, p, at) && ListedAt(b, q, at) && m < |a| && m <= |b| && p[..m] == q[..m]
    ensures m < |b| && a[m] == b[m] && p[m] == q[m]
  {
    assert Stands(a, p, at, m);
    assert Listing(b, q, p[m], a[m]);
    var j :| 0 <= j < |b| && q[j] == p[m] && b[j] == a[m];
    if j < m {
      assert p[j] == p[..m][j] == q[..m][j] == p[m];
      NotBeforeItself(p[m]);
    }
    if j > m {
      assert Stands(b, q, at, m);
      assert Listing(a, p, q[m], b[m]);
      var i :| 0 <= i < |a| && p[i] == q[m] && a[i] == b[m];
      if i < m {
        assert q[i] == q[..m][i] == p[..m][i] == q[m];
        NotBeforeItself(q[m]);
      } else if i > m {
        BeforeTotal(p[m], p[i], p[m]);
      } else {
        NotBeforeItself(q[m]);
      }
    }
  }
}
