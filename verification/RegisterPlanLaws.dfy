/** What the plan reads: multiplicity, separation, and dependence on configuration order. */
module RegisterPlanLaws {
  import opened Wrappers
  import opened Sorting
  import opened RegisterPlan

  const Address: Point -> int := (p: Point) => p.address

  // ----- how often a register is read in one cycle -----

  predicate Spans(p: Point, register: int)
  {
    p.address <= register < p.address + Width(p)
  }

  predicate Reads(r: Request, register: int)
  {
    r.startAddr <= register < r.startAddr + r.count
  }

  ghost function TimesSpanned(s: seq<Point>, register: int): nat
  {
    if s == [] then 0
    else TimesSpanned(s[..|s| - 1], register) + if Spans(s[|s| - 1], register) then 1 else 0
  }

  ghost function TimesRead(requests: seq<Request>, register: int): nat
  {
    if requests == [] then 0
    else TimesRead(requests[..|requests| - 1], register)
         + if Reads(requests[|requests| - 1], register) then 1 else 0
  }

  /** The last read stops where the last point stops. */
  lemma {:induction false} LastRequestEnd(s: seq<Point>)
    requires s != []
    ensures Requests(s) != []
    ensures var r := Requests(s)[|Requests(s)| - 1];
      r.startAddr + r.count == s[|s| - 1].address + Width(s[|s| - 1])
  {
    if |s| > 1 {
      LastRequestEnd(s[..|s| - 1]);
    }
  }

  /** Each register is read exactly as often as points ask for it: no read is wasted,
      none is missing, for any list of points in any order. */
  lemma {:induction false} ReadsMatchPoints(s: seq<Point>, register: int)
    ensures TimesRead(Requests(s), register) == TimesSpanned(s, register)
  {
    if s != [] {
      var front := s[..|s| - 1];
      ReadsMatchPoints(front, register);
      if front != [] {
        LastRequestEnd(front);
      }
      ExtendReads(Requests(front), |s| > 1 && Joins(s[|s| - 2], s[|s| - 1]), s[|s| - 1], register);
    }
  }

  lemma ExtendReads(requests: seq<Request>, joins: bool, p: Point, register: int)
    requires joins ==> requests != [] && var r := requests[|requests| - 1]; r.startAddr + r.count == p.address
    ensures TimesRead(Extend(requests, joins, p), register)
            == TimesRead(requests, register) + if Spans(p, register) then 1 else 0
  {
    var n, longer := |requests| - 1, Extend(requests, joins, p);
    assert longer[..|longer| - 1] == if joins then requests[..n] else requests;
  }

  ghost predicate NoOverlap(s: seq<Point>)
  {
    forall i, j, register :: 0 <= i < j < |s| ==> !(Spans(s[i], register) && Spans(s[j], register))
  }

  ghost predicate NoRegisterReadTwice(requests: seq<Request>)
  {
    forall i, j, register :: 0 <= i < j < |requests| ==>
      !(Reads(requests[i], register) && Reads(requests[j], register))
  }

  /** A cycle never reads a register twice exactly when no two points overlap. */
  lemma NoRegisterReadTwiceIffNoOverlap(s: seq<Point>)
    ensures NoRegisterReadTwice(Requests(s)) <==> NoOverlap(s)
  {
    var requests := Requests(s);
    if !NoOverlap(s) {
      var i, j, register :| 0 <= i < j < |s| && Spans(s[i], register) && Spans(s[j], register);
      SpannedTwice(s, i, j, register);
      ReadsMatchPoints(s, register);
      if NoRegisterReadTwice(requests) {
        ReadAtMostOnce(requests, register);
      }
    }
    if !NoRegisterReadTwice(requests) {
      var i, j, register :| 0 <= i < j < |requests| && Reads(requests[i], register) && Reads(requests[j], register);
      ReadTwice(requests, i, j, register);
      ReadsMatchPoints(s, register);
      if NoOverlap(s) {
        SpannedAtMostOnce(s, register);
      }
    }
  }

  lemma {:induction false} SpannedOnce(s: seq<Point>, i: nat, register: int)
    requires i < |s| && Spans(s[i], register)
    ensures TimesSpanned(s, register) >= 1
  {
    if i < |s| - 1 {
      SpannedOnce(s[..|s| - 1], i, register);
    }
  }

  lemma {:induction false} SpannedTwice(s: seq<Point>, i: nat, j: nat, register: int)
    requires i < j < |s| && Spans(s[i], register) && Spans(s[j], register)
    ensures TimesSpanned(s, register) >= 2
  {
    if j < |s| - 1 {
      SpannedTwice(s[..|s| - 1], i, j, register);
    } else {
      SpannedOnce(s[..|s| - 1], i, register);
    }
  }

  lemma {:induction false} SpannedAtMostOnce(s: seq<Point>, register: int)
    requires NoOverlap(s)
    ensures TimesSpanned(s, register) <= 1
    ensures TimesSpanned(s, register) >= 1 ==> exists i :: 0 <= i < |s| && Spans(s[i], register)
  {
    if s != [] {
      SpannedAtMostOnce(s[..|s| - 1], register);
    }
  }

  lemma {:induction false} ReadOnce(requests: seq<Request>, i: nat, register: int)
    requires i < |requests| && Reads(requests[i], register)
    ensures TimesRead(requests, register) >= 1
  {
    if i < |requests| - 1 {
      ReadOnce(requests[..|requests| - 1], i, register);
    }
  }

  lemma {:induction false} ReadTwice(requests: seq<Request>, i: nat, j: nat, register: int)
    requires i < j < |requests| && Reads(requests[i], register) && Reads(requests[j], register)
    ensures TimesRead(requests, register) >= 2
  {
    if j < |requests| - 1 {
      ReadTwice(requests[..|requests| - 1], i, j, register);
    } else {
      ReadOnce(requests[..|requests| - 1], i, register);
    }
  }

  lemma {:induction false} ReadAtMostOnce(requests: seq<Request>, register: int)
    requires NoRegisterReadTwice(requests)
    ensures TimesRead(requests, register) <= 1
    ensures TimesRead(requests, register) >= 1 ==>
      exists i :: 0 <= i < |requests| && Reads(requests[i], register)
  {
    if requests != [] {
      ReadAtMostOnce(requests[..|requests| - 1], register);
    }
  }

  /** Between consecutive reads lies a register that neither of them reads. */
  ghost predicate Separated(requests: seq<Request>)
  {
    forall k :: 0 < k < |requests| ==> requests[k - 1].startAddr + requests[k - 1].count < requests[k].startAddr
  }

  /** On sorted points that do not overlap, consecutive reads are separated. */
  lemma {:induction false} RangesAreSeparated(s: seq<Point>)
    requires SortedBy(s, Address) && AllKnown(s) && NoOverlap(s)
    ensures Separated(Requests(s))
  {
    if |s| > 1 {
      var front, q, p := s[..|s| - 1], s[|s| - 2], s[|s| - 1];
      RangesAreSeparated(front);
      LastRequestEnd(front);
      assert Address(q) <= Address(p) && !(Spans(q, p.address) && Spans(p, p.address));
      ExtendSeparated(Requests(front), Joins(q, p), p);
    } else if |s| == 1 {
      RequestCount(s);
    }
  }

  lemma ExtendSeparated(requests: seq<Request>, joins: bool, p: Point)
    requires requests != [] && Separated(requests)
    requires !joins ==> var r := requests[|requests| - 1]; r.startAddr + r.count < p.address
    ensures Separated(Extend(requests, joins, p))
  {
  }

  /** Where one of separated reads stops lies a register that none of them reads. */
  lemma GapIsUnread(requests: seq<Request>, k: nat)
    requires Separated(requests) && 0 < k < |requests|
    ensures TimesRead(requests, requests[k - 1].startAddr + requests[k - 1].count) == 0
  {
    var gap := requests[k - 1].startAddr + requests[k - 1].count;
    forall i | 0 <= i < |requests| ensures !Reads(requests[i], gap) {
      if i < k {
        EndsAscend(requests, i, k - 1);
      } else {
        EndsAscend(requests, k, i);
      }
    }
    NeverRead(requests, gap);
  }

  lemma {:induction false} NeverRead(requests: seq<Request>, register: int)
    requires forall i :: 0 <= i < |requests| ==> !Reads(requests[i], register)
    ensures TimesRead(requests, register) == 0
  {
    if requests != [] {
      NeverRead(requests[..|requests| - 1], register);
    }
  }

  lemma {:induction false} EndsAscend(requests: seq<Request>, i: nat, j: nat)
    requires i <= j < |requests|
    requires Separated(requests)
    ensures requests[i].startAddr <= requests[j].startAddr
    ensures requests[i].startAddr + requests[i].count <= requests[j].startAddr + requests[j].count
  {
    if i < j {
      EndsAscend(requests, i, j - 1);
    }
  }

  // ----- dependence on the order of the configuration -----

  /** `s` is a result `std::sort` may leave for these points. */
  ghost predicate IsSorting(s: seq<Point>, points: seq<Point>)
  {
    SortedBy(s, Address) && multiset(s) == multiset(points)
  }

  /** Whatever the configuration order, and however the sort places equal addresses,
      the device sees the same requests. */
  ghost predicate OrderIndependent(points: seq<Point>)
  {
    forall s, t :: IsSorting(s, points) && IsSorting(t, points) ==> Requests(s) == Requests(t)
  }

  ghost predicate EqualAddressEqualWidth(points: seq<Point>)
  {
    forall i, j :: 0 <= i < |points| && 0 <= j < |points| && points[i].address == points[j].address ==>
      Width(points[i]) == Width(points[j])
  }

  /** The request sequence is independent of the configuration order exactly when points
      that share an address share a width (so in particular when addresses are distinct). */
  lemma OrderIndependentIff(points: seq<Point>)
    requires AllKnown(points)
    ensures OrderIndependent(points) <==> EqualAddressEqualWidth(points)
  {
    if EqualAddressEqualWidth(points) {
      forall s, t | IsSorting(s, points) && IsSorting(t, points) ensures Requests(s) == Requests(t) {
        SameShape(points, s, t);
        ShapeDecidesRequests(s, t);
      }
    } else {
      var i, j :| 0 <= i < |points| && 0 <= j < |points| && points[i].address == points[j].address
                  && Width(points[i]) != Width(points[j]);
      TieMatters(points, points[i], points[j]);
    }
  }

  const Shape: Point -> int := (p: Point) => 4 * p.address + Width(p)

  lemma SameMembers(s: seq<Point>, points: seq<Point>)
    requires multiset(s) == multiset(points)
    ensures forall p :: p in s <==> p in points
    ensures AllKnown(points) ==> AllKnown(s)
    ensures EqualAddressEqualWidth(points) ==> EqualAddressEqualWidth(s)
  {
    forall p ensures p in s <==> p in points {
      assert p in s <==> p in multiset(s);
      assert p in points <==> p in multiset(points);
    }
    forall i | 0 <= i < |s| ensures s[i] in points { assert s[i] in s; }
  }

  /** Under equal widths for equal addresses, sorting by address sorts by address and width. */
  lemma SameShape(points: seq<Point>, s: seq<Point>, t: seq<Point>)
    requires AllKnown(points) && EqualAddressEqualWidth(points)
    requires IsSorting(s, points) && IsSorting(t, points)
    ensures |s| == |t| && AllKnown(s) && AllKnown(t)
    ensures forall i :: 0 <= i < |s| ==> s[i].address == t[i].address && Width(s[i]) == Width(t[i])
  {
    SameMembers(s, points);
    SameMembers(t, points);
    ShapeSorted(s);
    ShapeSorted(t);
    SortedKeysUnique(s, t, Shape);
    forall i | 0 <= i < |s| ensures s[i].address == t[i].address && Width(s[i]) == Width(t[i]) {
      assert Shape(s[i]) == Shape(t[i]);
    }
  }

  lemma ShapeSorted(s: seq<Point>)
    requires SortedBy(s, Address) && EqualAddressEqualWidth(s)
    ensures SortedBy(s, Shape)
  {
    forall i, j | 0 <= i < j < |s| ensures Shape(s[i]) <= Shape(s[j]) {
      assert Address(s[i]) <= Address(s[j]);
    }
  }

  lemma {:induction false} ShapeDecidesRequests(s: seq<Point>, t: seq<Point>)
    requires |s| == |t| && AllKnown(s) && AllKnown(t)
    requires forall i :: 0 <= i < |s| ==> s[i].address == t[i].address && Width(s[i]) == Width(t[i])
    ensures Requests(s) == Requests(t)
  {
    if s != [] {
      var n := |s| - 1;
      ShapeDecidesRequests(s[..n], t[..n]);
      assert n > 0 ==> (Joins(s[n - 1], s[n]) <==> Joins(t[n - 1], t[n]));
      SameExtend(Requests(s[..n]), n > 0 && Joins(s[n - 1], s[n]), s[n], t[n]);
    }
  }

  lemma SameExtend(requests: seq<Request>, joins: bool, p: Point, q: Point)
    requires p.address == q.address && Width(p) == Width(q)
    ensures Extend(requests, joins, p) == Extend(requests, joins, q)
  {
  }

  /** Two points with one address and different widths give two request sequences. */
  lemma TieMatters(points: seq<Point>, p: Point, q: Point)
    requires AllKnown(points) && p in points && q in points
    requires p.address == q.address && Width(p) != Width(q)
    ensures !OrderIndependent(points)
  {
    var r := SortedListing(points, Address);
    SameMembers(r, points);
    var lo := FirstAt(r, p);
    var s := BringForward(points, r, lo, p);
    var t := BringForward(points, r, lo, q);
    assert s[..lo] == t[..lo];
    assert lo + 1 < |r| && r[lo + 1].address == p.address by {
      var i :| 0 <= i < |r| && r[i] == p;
      var j :| 0 <= j < |r| && r[j] == q;
      var k := if i == lo then j else i;
      assert k > lo && Address(r[lo]) <= Address(r[lo + 1]) && (k == lo + 1 || Address(r[lo + 1]) <= Address(r[k]));
    }
    SameMembers(s, points);
    SameMembers(t, points);
    FirstOfTieDecides(s, t, lo);
  }

  /** The first of the points that share p's address. */
  lemma FirstAt(r: seq<Point>, p: Point) returns (lo: nat)
    requires p in r && SortedBy(r, Address)
    ensures lo < |r| && r[lo].address == p.address
    ensures forall i :: 0 <= i < lo ==> r[i].address != p.address
  {
    var k :| 0 <= k < |r| && r[k] == p;
    lo := 0;
    while r[lo].address != p.address
      invariant lo <= k && forall i :: 0 <= i < lo ==> r[i].address != p.address
      decreases k - lo
    {
      lo := lo + 1;
    }
  }

  /** Another sorting of the same points, with `p` first among those at its address. */
  lemma BringForward(points: seq<Point>, r: seq<Point>, lo: nat, p: Point) returns (s: seq<Point>)
    requires IsSorting(r, points) && p in r && lo < |r| && r[lo].address == p.address
    requires forall i :: 0 <= i < lo ==> r[i].address != p.address
    ensures IsSorting(s, points) && |s| == |r| && s[..lo] == r[..lo] && s[lo] == p
    ensures forall i :: 0 <= i < |r| ==> s[i].address == r[i].address
  {
    var k :| 0 <= k < |r| && r[k] == p;
    s := r[lo := p][k := r[lo]];
    SwapMultiset(r, lo, k);
    forall i | 0 <= i < |r| ensures s[i].address == r[i].address { }
    forall i, j | 0 <= i < j < |s| ensures Address(s[i]) <= Address(s[j]) {
      assert Address(r[i]) <= Address(r[j]);
    }
  }

  lemma FirstOfTieDecides(s: seq<Point>, t: seq<Point>, lo: nat)
    requires AllKnown(s) && AllKnown(t) && |s| == |t| && lo + 1 < |s|
    requires s[..lo] == t[..lo]
    requires s[lo].address == t[lo].address == s[lo + 1].address == t[lo + 1].address
    requires Width(s[lo]) != Width(t[lo])
    ensures Requests(s) != Requests(t)
  {
    TiedPointPlanned(s, lo);
    TiedPointPlanned(t, lo);
    var joins := lo > 0 && Joins(s[lo - 1], s[lo]);
    assert lo > 0 ==> s[lo - 1] == s[..lo][lo - 1] == t[lo - 1];
    ExtendTellsWidth(Requests(s[..lo]), joins, s[lo], t[lo], Requests(s), Requests(t));
  }

  /** A point with the next one at its own address ends its read. */
  lemma TiedPointPlanned(s: seq<Point>, lo: nat)
    requires lo + 1 < |s| && Known(s[lo]) && s[lo].address == s[lo + 1].address
    ensures Extend(Requests(s[..lo]), lo > 0 && Joins(s[lo - 1], s[lo]), s[lo]) <= Requests(s)
  {
    var front := s[..lo];
    RequestsSnoc(front, s[lo]);
    assert front != [] ==> front[|front| - 1] == s[lo - 1];
    assert front + [s[lo]] == s[..lo + 1];
    PrefixPlanned(s, lo + 1);
  }

  lemma ExtendTellsWidth(requests: seq<Request>, joins: bool, p: Point, q: Point,
                         a: seq<Request>, b: seq<Request>)
    requires Width(p) != Width(q)
    requires Extend(requests, joins, p) <= a && Extend(requests, joins, q) <= b
    ensures a != b
  {
    var n := |Extend(requests, joins, p)| - 1;
    assert a[n] == Extend(requests, joins, p)[n] && b[n] == Extend(requests, joins, q)[n];
    assert a[n].count != b[n].count;
  }

  /** Requests planned before a break stay as they are. */
  lemma {:induction false} PrefixPlanned(s: seq<Point>, m: nat)
    requires 0 < m < |s| && !Joins(s[m - 1], s[m])
    ensures Requests(s[..m]) <= Requests(s) && |Requests(s[..m])| < |Requests(s)|
  {
    var front := s[..|s| - 1];
    if m < |front| {
      PrefixPlanned(front, m);
      assert front[..m] == s[..m];
    } else {
      assert front == s[..m];
    }
  }
}
