/** One polling cycle: sort, plan, read block by block, decode by a running offset. */
module ModbusPoller {
  import opened Wrappers
  import opened Sorting
  import opened RegisterPlan
  import opened RegisterPlanLaws
  import opened BlockDecoding

  /** The planner's answer: first address, registers to read, index of the last point covered. */
  datatype RegisterRange = RegisterRange(startAddr: UInt16, count: nat, endIndex: nat)

  /** What the planner promises about the run that starts at `startIndex`. */
  ghost predicate GreedyRange(points: seq<Point>, startIndex: nat, range: RegisterRange)
    requires startIndex < |points|
  {
    && startIndex <= range.endIndex < |points|
    && GapFree(points[startIndex..range.endIndex + 1])
    && RequestOf(points[startIndex..range.endIndex + 1]) == Request(range.startAddr, range.count)
    && (range.endIndex + 1 < |points| ==> !Joins(points[range.endIndex], points[range.endIndex + 1]))
  }

  /** The range the planner finds after a break is the next request of the plan. */
  lemma NextRange(s: seq<Point>, i: nat, range: RegisterRange)
    requires i < |s| && GreedyRange(s, i, range)
    requires i > 0 ==> !Joins(s[i - 1], s[i])
    ensures Requests(s[..range.endIndex + 1]) == Requests(s[..i]) + [Request(range.startAddr, range.count)]
    ensures Requests(s[..range.endIndex + 1]) <= Requests(s)
  {
    var j := range.endIndex + 1;
    RunAfterPrefix(s, i, j);
    if j < |s| {
      PrefixPlanned(s, j);
    } else {
      assert s[..j] == s;
    }
  }

  lemma RunAfterPrefix(s: seq<Point>, i: nat, j: nat)
    requires i < j <= |s| && GapFree(s[i..j])
    requires i > 0 ==> !Joins(s[i - 1], s[i])
    ensures Requests(s[..j]) == Requests(s[..i]) + [RequestOf(s[i..j])]
  {
    assert s[..i] + s[i..j] == s[..j];
    assert i > 0 ==> s[..i][|s[..i]| - 1] == s[i - 1];
    RequestsAppend(s[..i], s[i..j]);
  }

  /** One more read carries a cycle that has not faulted on. */
  lemma CycleSnoc(deviceId: string, s: seq<Point>, done: seq<Request>, stores: seq<Store>, r: Request,
                  device: Device, stored: seq<Store>, fault: bool)
    requires Cycle(deviceId, s, done, device) == Trace(done, stores, false)
    requires fault == Faults(s, r, device(|done|))
    requires !fault ==> stored == Stored(deviceId, s, r, device(|done|))
    ensures Cycle(deviceId, s, done + [r], device)
            == Trace(done + [r], if fault then stores else stores + stored, fault)
  {
    assert (done + [r])[..|done|] == done;
  }

  lemma GapFreeSnoc(run: seq<Point>, p: Point)
    requires run != [] && GapFree(run) && Joins(run[|run| - 1], p)
    ensures GapFree(run + [p]) && TotalWidth(run + [p]) == TotalWidth(run) + Width(p)
  {
    assert (run + [p])[..|run|] == run;
  }

  /** Finds the longest gap-free run from `startIndex`; the count cannot overflow an int. */
  method FindContinuousRegisters(points: seq<Point>, startIndex: nat) returns (range: RegisterRange)
    ensures startIndex >= |points| ==> range == RegisterRange(0, 0, startIndex)
    ensures startIndex < |points| ==> GreedyRange(points, startIndex, range)
    ensures range.startAddr + range.count <= 0x1_0001
  {
    range := RegisterRange(0, 0, startIndex);
    if startIndex >= |points| {
      return;
    }
    var start := points[startIndex];
    range := RegisterRange(start.address, Width(start), startIndex);
    ghost var run := [start];
    assert points[startIndex..startIndex + 1] == run;
    assert TotalWidth([start]) == TotalWidth([]) + Width(start);
    if !Known(start) || startIndex == |points| - 1 {
      return;
    }
    var nextExpected := start.address + range.count;
    var current := startIndex + 1;
    while current < |points|
      invariant startIndex < current <= |points|
      invariant range.endIndex == current - 1 && range.startAddr == start.address
      invariant run == points[startIndex..current] && GapFree(run) && range.count == TotalWidth(run)
      invariant Known(points[current - 1])
      invariant nextExpected == points[current - 1].address + Width(points[current - 1])
      invariant nextExpected == range.startAddr + range.count
    {
      var point := points[current];
      if !Known(point) {
        return;
      }
      if point.address == nextExpected {
        GapFreeSnoc(run, point);
        run := run + [point];
        range := range.(count := range.count + Width(point), endIndex := current);
        nextExpected := point.address + Width(point);
        current := current + 1;
      } else {
        return;
      }
    }
  }

  /** Walks the points through the buffer, storing each value. Faults exactly when the walk
      needs a register the buffer does not have; `stored` is then what came before. */
  method ProcessUserData(deviceId: string, buffer: seq<UInt16>, points: seq<Point>)
    returns (stored: seq<Store>, fault: bool)
    ensures fault <==> |buffer| < Extent(points)
    ensures !fault ==> stored == Walk(deviceId, points, buffer)
  {
    var offset, i := 0, 0;
    stored, fault := [], false;
    while i < |points|
      invariant 0 <= i <= |points|
      invariant offset == TotalWidth(points[..i])
      invariant Extent(points[..i]) <= |buffer|
      invariant stored == Walk(deviceId, points[..i], buffer)
    {
      var point := points[i];
      assert points[..i + 1][..i] == points[..i];
      if Known(point) {
        if offset + ReadLength(point) > |buffer| {
          ExtentMonotone(points, i + 1);
          fault := true;
          return;
        }
        stored := stored + StoreOf(deviceId, point, buffer, offset);
        offset := offset + Width(point);
      }
      i := i + 1;
    }
    assert points[..i] == points;
  }

  /** The range at a break is the next read of the plan. */
  method PlanNext(points: seq<Point>, i: nat) returns (range: RegisterRange)
    requires i < |points| && (i > 0 ==> !Joins(points[i - 1], points[i]))
    ensures i <= range.endIndex < |points|
    ensures range.endIndex + 1 < |points| ==> !Joins(points[range.endIndex], points[range.endIndex + 1])
    ensures Requests(points[..range.endIndex + 1])
            == Requests(points[..i]) + [Request(range.startAddr, range.count)]
    ensures Requests(points[..range.endIndex + 1]) <= Requests(points)
  {
    range := FindContinuousRegisters(points, i);
    NextRange(points, i, range);
  }

  /** Reads one range and, if the device answers, walks its buffer with the whole list. */
  method ProcessRange(deviceId: string, points: seq<Point>, range: RegisterRange, answer: Option<Memory>)
    returns (stored: seq<Store>, fault: bool)
    ensures var r := Request(range.startAddr, range.count);
      fault == Faults(points, r, answer) && (!fault ==> stored == Stored(deviceId, points, r, answer))
  {
    match answer {
      case None =>
        stored, fault := [], false;
      case Some(memory) =>
        stored, fault := ProcessUserData(deviceId, ReadBlock(memory, range.startAddr, range.count), points);
    }
  }

  /** One polling cycle: the order `std::sort` left the points in, the reads issued, and the
      values stored before any fault. */
  method ProcessContinuousRegisters(deviceId: string, configured: seq<Point>, device: Device)
    returns (sorted: seq<Point>, issued: seq<Request>, stores: seq<Store>, fault: bool)
    ensures IsSorting(sorted, configured)
    ensures Trace(issued, stores, fault) == Cycle(deviceId, sorted, Requests(sorted), device)
  {
    sorted := SortByAddress(configured);
    issued, stores, fault := ReadAll(deviceId, sorted, device);
  }

  /** One turn of the cycle's loop: the range at `i` is planned, read and walked. */
  method ReadNext(deviceId: string, points: seq<Point>, i: nat, answer: Option<Memory>)
    returns (request: Request, next: nat, stored: seq<Store>, fault: bool)
    requires i < |points| && (i > 0 ==> !Joins(points[i - 1], points[i]))
    ensures i < next <= |points| && (next < |points| ==> !Joins(points[next - 1], points[next]))
    ensures Requests(points[..next]) == Requests(points[..i]) + [request]
    ensures Requests(points[..next]) <= Requests(points)
    ensures fault == Faults(points, request, answer)
    ensures !fault ==> stored == Stored(deviceId, points, request, answer)
  {
    var range := PlanNext(points, i);
    stored, fault := ProcessRange(deviceId, points, range, answer);
    request, next := Request(range.startAddr, range.count), range.endIndex + 1;
  }

  /** The cycle's loop over the sorted points; it ends early on a fault. */
  method ReadAll(deviceId: string, points: seq<Point>, device: Device)
    returns (issued: seq<Request>, stores: seq<Store>, fault: bool)
    ensures Trace(issued, stores, fault) == Cycle(deviceId, points, Requests(points), device)
  {
    issued, stores, fault := [], [], false;
    var i := 0;
    while i < |points| && !fault
      invariant i <= |points| && (0 < i < |points| ==> !Joins(points[i - 1], points[i]))
      invariant issued == Requests(points[..i]) && issued <= Requests(points)
      invariant Trace(issued, stores, fault) == Cycle(deviceId, points, issued, device)
      decreases |points| - i
    {
      var request, stored;
      request, i, stored, fault := ReadNext(deviceId, points, i, device(|issued|));
      CycleSnoc(deviceId, points, issued, stores, request, device, stored, fault);
      issued := issued + [request];
      stores := if fault then stores else stores + stored;
    }
    if fault {
      FaultIsFinal(deviceId, points, issued, Requests(points), device);
    } else {
      assert points[..i] == points;
    }
  }

  method SortByAddress(configured: seq<Point>) returns (points: seq<Point>)
    ensures IsSorting(points, configured)
  {
    points := configured;
    if |points| > 0 {
      var cells := new Point[|points|](i requires 0 <= i < |points| => points[i]);
      assert cells[..] == points;
      Sort(cells, Address);
      points := cells[..];
    }
  }
}
