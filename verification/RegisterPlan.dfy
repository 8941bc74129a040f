/** How Modbus data points are cut into block reads: the plan, and what it achieves. */
module RegisterPlan {
  import opened Wrappers
  import opened Sorting

  type UInt16 = x: int | 0 <= x < 0x1_0000

  datatype DataType = UNKNOWN | INT16 | UINT16 | INT32 | UINT32 | FLOAT32 | STRING

  datatype Point = Point(name: string, address: UInt16, dataType: DataType)

  /** A read of `count` holding registers starting at `startAddr`. */
  datatype Request = Request(startAddr: UInt16, count: nat)

  /** Registers the planner reserves for a point; other types fall into its default branch. */
  function Width(p: Point): nat
  {
    match p.dataType
    case INT16 | UINT16 => 1
    case INT32 | UINT32 | FLOAT32 => 2
    case UNKNOWN | STRING => 0
  }

  predicate Known(p: Point)
  {
    p.dataType != UNKNOWN && p.dataType != STRING
  }

  ghost predicate AllKnown(s: seq<Point>)
  {
    forall i :: 0 <= i < |s| ==> Known(s[i])
  }

  /** `q` may share a block read with `p` just before it. */
  predicate Joins(p: Point, q: Point)
  {
    Known(p) && Known(q) && q.address == p.address + Width(p)
  }

  ghost predicate GapFree(run: seq<Point>)
  {
    forall k :: 0 < k < |run| ==> Joins(run[k - 1], run[k])
  }

  ghost function TotalWidth(s: seq<Point>): nat
  {
    if s == [] then 0 else TotalWidth(s[..|s| - 1]) + Width(s[|s| - 1])
  }

  /** The read that fetches one run. */
  ghost function RequestOf(run: seq<Point>): Request
    requires run != []
  {
    Request(run[0].address, TotalWidth(run))
  }

  /** Reference plan: scan the points once; each either extends the last read or opens a new one. */
  ghost function Requests(s: seq<Point>): seq<Request>
  {
    if s == [] then []
    else
      var n := |s| - 1;
      Extend(Requests(s[..n]), n > 0 && Joins(s[n - 1], s[n]), s[n])
  }

  ghost function Extend(requests: seq<Request>, joins: bool, p: Point): seq<Request>
  {
    var n := |requests| - 1;
    if joins && n >= 0
    then requests[..n] + [Request(requests[n].startAddr, requests[n].count + Width(p))]
    else requests + [Request(p.address, Width(p))]
  }

  lemma {:induction false} SomeRequest(s: seq<Point>)
    requires s != []
    ensures Requests(s) != []
  {
  }

  lemma RequestsSnoc(s: seq<Point>, p: Point)
    ensures Requests(s + [p]) == Extend(Requests(s), s != [] && Joins(s[|s| - 1], p), p)
  {
    assert (s + [p])[..|s|] == s;
  }

  lemma TotalWidthSnoc(s: seq<Point>, p: Point)
    ensures TotalWidth(s + [p]) == TotalWidth(s) + Width(p)
  {
    assert (s + [p])[..|s|] == s;
  }

  /** A gap-free run after a break is planned as one read of its own. */
  lemma {:induction false} RequestsAppend(s: seq<Point>, run: seq<Point>)
    requires run != [] && GapFree(run)
    requires s != [] ==> !Joins(s[|s| - 1], run[0])
    ensures Requests(s + run) == Requests(s) + [RequestOf(run)]
  {
    var n := |run| - 1;
    if n == 0 {
      RequestsSnoc(s, run[0]);
      TotalWidthSnoc([], run[0]);
      assert run == [] + [run[0]];
    } else {
      RequestsAppend(s, run[..n]);
      RequestsGrow(s, run[..n], run[n]);
      assert run == run[..n] + [run[n]];
    }
  }

  lemma RequestsGrow(s: seq<Point>, head: seq<Point>, p: Point)
    requires head != [] && Joins(head[|head| - 1], p)
    requires Requests(s + head) == Requests(s) + [RequestOf(head)]
    ensures Requests(s + (head + [p])) == Requests(s) + [RequestOf(head + [p])]
  {
    RequestsSnoc(s + head, p);
    TotalWidthSnoc(head, p);
    assert s + (head + [p]) == (s + head) + [p];
  }

  lemma SingleRun(s: seq<Point>)
    requires s != [] && GapFree(s)
    ensures Requests(s) == [RequestOf(s)]
  {
    RequestsAppend([], s);
    assert [] + s == s;
  }

  // ----- the plan as a partition -----

  /** A partition of the points, in order, into gap-free non-empty parts. */
  ghost predicate IsCut(parts: seq<seq<Point>>, s: seq<Point>)
  {
    && Flatten(parts) == s
    && forall k :: 0 <= k < |parts| ==> parts[k] != [] && GapFree(parts[k])
  }

  /** No two neighbouring parts could have been one read. */
  ghost predicate Maximal(parts: seq<seq<Point>>)
    requires forall k :: 0 <= k < |parts| ==> parts[k] != []
  {
    forall k :: 0 < k < |parts| ==> !Joins(parts[k - 1][|parts[k - 1]| - 1], parts[k][0])
  }

  /** The plan's reads fetch, one for one, the parts of a partition of the points into
      gap-free runs that cannot be merged. */
  lemma {:induction false} PlanPartitionsThePoints(s: seq<Point>) returns (parts: seq<seq<Point>>)
    ensures IsCut(parts, s) && Maximal(parts)
    ensures |Requests(s)| == |parts|
    ensures forall k :: 0 <= k < |parts| ==> Requests(s)[k] == RequestOf(parts[k])
  {
    parts := MaximalCut(s);
    MaximalCutIsThePlan(s, parts);
  }

  lemma {:induction false} MaximalCut(s: seq<Point>) returns (parts: seq<seq<Point>>)
    ensures IsCut(parts, s) && Maximal(parts)
  {
    if s == [] {
      parts := [];
    } else {
      var front, p := s[..|s| - 1], s[|s| - 1];
      var shorter := MaximalCut(front);
      assert s == front + [p];
      if front != [] && Joins(front[|front| - 1], p) {
        parts := ExtendLastPart(shorter, front, p);
      } else {
        AddPart(shorter, front, [p]);
        parts := shorter + [[p]];
      }
    }
  }

  lemma ExtendLastPart(parts: seq<seq<Point>>, s: seq<Point>, p: Point) returns (longer: seq<seq<Point>>)
    requires IsCut(parts, s) && Maximal(parts) && s != [] && Joins(s[|s| - 1], p)
    ensures IsCut(longer, s + [p]) && Maximal(longer)
  {
    LastPoint(parts, s);
    var n := |parts| - 1;
    longer := parts[..n] + [parts[n] + [p]];
    assert longer[..n] == parts[..n];
    assert Flatten(longer) == Flatten(parts[..n]) + parts[n] + [p];
  }

  lemma AddPart(parts: seq<seq<Point>>, s: seq<Point>, part: seq<Point>)
    requires IsCut(parts, s) && Maximal(parts)
    requires part != [] && GapFree(part)
    requires s != [] ==> !Joins(s[|s| - 1], part[0])
    ensures IsCut(parts + [part], s + part) && Maximal(parts + [part])
  {
    var longer := parts + [part];
    assert longer[..|parts|] == parts;
    if s != [] {
      LastPoint(parts, s);
    }
  }

  lemma LastPoint(parts: seq<seq<Point>>, s: seq<Point>)
    requires IsCut(parts, s) && s != []
    ensures parts != [] && parts[|parts| - 1][|parts[|parts| - 1]| - 1] == s[|s| - 1]
  {
  }

  /** Any cut whose parts cannot be merged is what the plan reads. */
  lemma {:induction false} MaximalCutIsThePlan(s: seq<Point>, parts: seq<seq<Point>>)
    requires IsCut(parts, s) && Maximal(parts)
    ensures |Requests(s)| == |parts|
    ensures forall k :: 0 <= k < |parts| ==> Requests(s)[k] == RequestOf(parts[k])
    decreases parts
  {
    if parts != [] {
      var n := |parts| - 1;
      var front := Flatten(parts[..n]);
      MaximalCutIsThePlan(front, parts[..n]);
      if n > 0 {
        assert parts[..n][n - 1] != [];
        LastPoint(parts[..n], front);
      }
      RequestsAppend(front, parts[n]);
    }
  }

  // ----- the plan is the shortest -----

  /** What is left of a cut when the last point is taken away. */
  ghost function Shorten(parts: seq<seq<Point>>): seq<seq<Point>>
    requires parts != [] && parts[|parts| - 1] != []
  {
    var n := |parts| - 1;
    if |parts[n]| == 1 then parts[..n] else parts[..n] + [parts[n][..|parts[n]| - 1]]
  }

  lemma ShortenIsCut(parts: seq<seq<Point>>, s: seq<Point>)
    requires IsCut(parts, s) && s != []
    ensures parts != [] && IsCut(Shorten(parts), s[..|s| - 1])
    ensures |parts[|parts| - 1]| > 1 ==> |s| > 1 && Joins(s[|s| - 2], s[|s| - 1])
  {
    var n := |parts| - 1;
    var short, front := Shorten(parts), parts[..n];
    assert s == Flatten(front) + parts[n];
    if |parts[n]| > 1 {
      assert short[..|short| - 1] == front;
      assert Flatten(short) == Flatten(front) + parts[n][..|parts[n]| - 1];
      assert Joins(parts[n][|parts[n]| - 2], parts[n][|parts[n]| - 1]);
    }
  }

  /** Fewest requests: every way of cutting the points into gap-free reads needs as many. */
  lemma {:induction false} PlanIsMinimal(s: seq<Point>, parts: seq<seq<Point>>)
    requires IsCut(parts, s)
    ensures |Requests(s)| <= |parts|
  {
    if s != [] {
      ShortenIsCut(parts, s);
      PlanIsMinimal(s[..|s| - 1], Shorten(parts));
      if |s| > 1 {
        SomeRequest(s[..|s| - 1]);
      }
    }
  }

  /** Neighbours that cannot share a read. */
  ghost function Breaks(s: seq<Point>): nat
  {
    if |s| < 2 then 0
    else Breaks(s[..|s| - 1]) + if Joins(s[|s| - 2], s[|s| - 1]) then 0 else 1
  }

  lemma {:induction false} RequestCount(s: seq<Point>)
    requires s != []
    ensures |Requests(s)| == 1 + Breaks(s)
  {
    if |s| > 1 {
      RequestCount(s[..|s| - 1]);
    } else {
      assert Requests(s[..0]) == [];
    }
  }
}
