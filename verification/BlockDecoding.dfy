/** Decoding a block of registers by a running offset, and when that reads the right ones. */
module BlockDecoding {
  import opened Wrappers
  import opened Sorting
  import opened RegisterPlan
  import opened RegisterPlanLaws

  /** A value written to the database: its key and the registers its decoding looked at.
      How registers become a number is left to `dataType`. */
  datatype Store = Store(key: string, dataType: DataType, registers: seq<UInt16>)

  /** The holding registers of the device at the moment of one read. */
  type Memory = int -> UInt16

  /** The device's answer to the k-th read of a cycle: nothing when the read fails. */
  type Device = nat -> Option<Memory>

  function ReadBlock(memory: Memory, start: int, count: nat): (block: seq<UInt16>)
  {
    seq(count, i requires 0 <= i < count => memory(start + i))
  }

  /** Registers the decoder looks at; the 32-bit integer branches use only the first. */
  function ReadLength(p: Point): nat
  {
    match p.dataType
    case INT16 | UINT16 | INT32 | UINT32 => 1
    case FLOAT32 => 2
    case UNKNOWN | STRING => 0
  }

  /** The shortest buffer in which the walk over `s` stays inside. */
  ghost function Extent(s: seq<Point>): nat
  {
    if s == [] then 0
    else
      var front, p := s[..|s| - 1], s[|s| - 1];
      var reach := TotalWidth(front) + ReadLength(p);
      if Known(p) && reach > Extent(front) then reach else Extent(front)
  }

  function StoreOf(deviceId: string, p: Point, buffer: seq<UInt16>, offset: nat): seq<Store>
    requires Known(p) ==> offset + ReadLength(p) <= |buffer|
  {
    if Known(p)
    then [Store("modbus_data:" + deviceId + ":" + p.name, p.dataType, buffer[offset..offset + ReadLength(p)])]
    else []
  }

  /** What a walk over `s` through `buffer` stores. */
  ghost function Walk(deviceId: string, s: seq<Point>, buffer: seq<UInt16>): seq<Store>
    requires Extent(s) <= |buffer|
  {
    if s == [] then []
    else
      var front := s[..|s| - 1];
      Walk(deviceId, front, buffer) + StoreOf(deviceId, s[|s| - 1], buffer, TotalWidth(front))
  }

  /** Reference reading: every point fetched and decoded on its own. */
  ghost function ReadEach(deviceId: string, s: seq<Point>, memory: Memory): seq<Store>
  {
    if s == [] then []
    else
      var p := s[|s| - 1];
      ReadEach(deviceId, s[..|s| - 1], memory)
      + StoreOf(deviceId, p, ReadBlock(memory, p.address, Width(p)), 0)
  }

  // ----- decoding one run of the plan -----

  lemma {:induction false} ExtentWithinWidth(s: seq<Point>)
    ensures Extent(s) <= TotalWidth(s)
  {
    if s != [] {
      ExtentWithinWidth(s[..|s| - 1]);
    }
  }

  /** In a run, the running offset of a point is its distance from the start of the block. */
  lemma {:induction false} OffsetIsDistance(run: seq<Point>, k: nat)
    requires GapFree(run) && k < |run|
    ensures run[k].address == run[0].address + TotalWidth(run[..k])
  {
    if k > 0 {
      OffsetIsDistance(run, k - 1);
      assert run[..k][..k - 1] == run[..k - 1];
      assert Joins(run[k - 1], run[k]);
    }
  }

  /** Reading a whole run and walking it by offset stores what reading each of its points
      alone would store. */
  lemma BatchDecodeIsPointwise(deviceId: string, run: seq<Point>, memory: Memory)
    requires run != [] && GapFree(run)
    ensures Extent(run) <= TotalWidth(run)
    ensures Walk(deviceId, run, ReadBlock(memory, run[0].address, TotalWidth(run)))
            == ReadEach(deviceId, run, memory)
  {
    ExtentWithinWidth(run);
    PrefixDecode(deviceId, run, |run|, memory);
    assert run[..|run|] == run;
  }

  lemma {:induction false} PrefixDecode(deviceId: string, run: seq<Point>, k: nat, memory: Memory)
    requires run != [] && GapFree(run) && k <= |run|
    requires Extent(run) <= TotalWidth(run)
    ensures Extent(run[..k]) <= TotalWidth(run)
    ensures Walk(deviceId, run[..k], ReadBlock(memory, run[0].address, TotalWidth(run)))
            == ReadEach(deviceId, run[..k], memory)
  {
    ExtentMonotone(run, k);
    if k > 0 {
      PrefixDecode(deviceId, run, k - 1, memory);
      assert run[..k][..k - 1] == run[..k - 1];
      OffsetIsDistance(run, k - 1);
      var p := run[k - 1];
      var offset := TotalWidth(run[..k - 1]);
      assert run[..k][k - 1] == p;
      SameRegisters(deviceId, p, run[0].address, TotalWidth(run), offset, memory);
    }
  }

  lemma SameRegisters(deviceId: string, p: Point, start: int, count: nat, offset: nat, memory: Memory)
    requires p.address == start + offset
    requires Known(p) ==> offset + ReadLength(p) <= count
    ensures StoreOf(deviceId, p, ReadBlock(memory, start, count), offset)
            == StoreOf(deviceId, p, ReadBlock(memory, p.address, Width(p)), 0)
  {
    if Known(p) {
      var n, block, own := ReadLength(p), ReadBlock(memory, start, count), ReadBlock(memory, p.address, Width(p));
      forall i | 0 <= i < n ensures block[offset..offset + n][i] == own[0..n][i] {
        assert block[offset + i] == memory(start + (offset + i)) == own[i];
      }
      assert block[offset..offset + n] == own[0..n];
    }
  }

  lemma {:induction false} ExtentMonotone(s: seq<Point>, k: nat)
    requires k <= |s|
    ensures Extent(s[..k]) <= Extent(s) && TotalWidth(s[..k]) <= TotalWidth(s)
  {
    if k < |s| {
      ExtentMonotone(s[..|s| - 1], k);
      assert s[..|s| - 1][..k] == s[..k];
    } else {
      assert s[..k] == s;
    }
  }

  // ----- decoding a whole cycle run by run, as the block reads are meant to be used -----

  /** What run-by-run decoding stores when every read of the cycle sees the same registers. */
  ghost function RunByRun(deviceId: string, runs: seq<seq<Point>>, memory: Memory): seq<Store>
    requires forall k :: 0 <= k < |runs| ==> runs[k] != [] && Extent(runs[k]) <= TotalWidth(runs[k])
  {
    if runs == [] then []
    else
      var run := runs[|runs| - 1];
      RunByRun(deviceId, runs[..|runs| - 1], memory)
      + Walk(deviceId, run, ReadBlock(memory, run[0].address, TotalWidth(run)))
  }

  /** Planning, block reads and offset decoding together store exactly what reading each
      point alone would store, in the same order. */
  lemma PlannedCycleIsPointwise(deviceId: string, s: seq<Point>, memory: Memory) returns (runs: seq<seq<Point>>)
    ensures IsCut(runs, s) && |runs| == |Requests(s)|
    ensures forall k :: 0 <= k < |runs| ==> Requests(s)[k] == RequestOf(runs[k])
    ensures forall k :: 0 <= k < |runs| ==> Extent(runs[k]) <= TotalWidth(runs[k])
    ensures RunByRun(deviceId, runs, memory) == ReadEach(deviceId, s, memory)
  {
    runs := PlanPartitionsThePoints(s);
    forall k | 0 <= k < |runs| ensures Extent(runs[k]) <= TotalWidth(runs[k]) {
      ExtentWithinWidth(runs[k]);
    }
    RunsArePointwise(deviceId, runs, s, memory);
  }

  lemma {:induction false} RunsArePointwise(deviceId: string, runs: seq<seq<Point>>, s: seq<Point>, memory: Memory)
    requires IsCut(runs, s)
    requires forall k :: 0 <= k < |runs| ==> Extent(runs[k]) <= TotalWidth(runs[k])
    ensures RunByRun(deviceId, runs, memory) == ReadEach(deviceId, s, memory)
    decreases runs
  {
    if runs != [] {
      var n := |runs| - 1;
      RunsArePointwise(deviceId, runs[..n], Flatten(runs[..n]), memory);
      BatchDecodeIsPointwise(deviceId, runs[n], memory);
      ReadEachAppend(deviceId, Flatten(runs[..n]), runs[n], memory);
    }
  }

  lemma {:induction false} ReadEachAppend(deviceId: string, s: seq<Point>, t: seq<Point>, memory: Memory)
    ensures ReadEach(deviceId, s + t, memory) == ReadEach(deviceId, s, memory) + ReadEach(deviceId, t, memory)
  {
    if t == [] {
      assert s + t == s;
    } else {
      ReadEachAppend(deviceId, s, t[..|t| - 1], memory);
      assert (s + t)[..|s + t| - 1] == s + t[..|t| - 1];
    }
  }

  // ----- decoding as called: every buffer is walked with the whole list of points -----

  lemma {:induction false} OneRequestIffGapFree(s: seq<Point>)
    requires s != []
    ensures |Requests(s)| == 1 <==> GapFree(s)
  {
    RequestCount(s);
    if |s| > 1 {
      OneRequestIffGapFree(s[..|s| - 1]);
      RequestCount(s[..|s| - 1]);
      var front := s[..|s| - 1];
      assert GapFree(s) ==> Joins(s[|s| - 2], s[|s| - 1]) && GapFree(front);
    }
  }

  lemma ExtentOfKnown(s: seq<Point>)
    requires s != [] && AllKnown(s)
    ensures Extent(s) == TotalWidth(s) - Width(s[|s| - 1]) + ReadLength(s[|s| - 1])
  {
    ExtentWithinWidth(s[..|s| - 1]);
  }

  /** No read is longer than `total`, nor is any together with the last one. */
  ghost predicate Within(requests: seq<Request>, total: int)
  {
    var n := |requests| - 1;
    forall k :: 0 <= k <= n ==> requests[k].count <= total && (k < n ==> requests[k].count + requests[n].count <= total)
  }

  lemma {:induction false} CountsBelowTotal(s: seq<Point>)
    ensures Within(Requests(s), TotalWidth(s))
  {
    if s != [] {
      var n := |s| - 1;
      CountsBelowTotal(s[..n]);
      ExtendWithin(Requests(s[..n]), n > 0 && Joins(s[n - 1], s[n]), s[n], TotalWidth(s[..n]));
    }
  }

  lemma ExtendWithin(requests: seq<Request>, joins: bool, p: Point, total: nat)
    requires Within(requests, total)
    ensures Within(Extend(requests, joins, p), total + Width(p))
  {
  }

  /** Walking every buffer with the whole list stays inside all of them exactly when the
      points form a single gap-free run. */
  lemma WholeListFitsIffGapFree(s: seq<Point>)
    requires s != [] && AllKnown(s)
    ensures (forall k :: 0 <= k < |Requests(s)| ==> Extent(s) <= Requests(s)[k].count) <==> GapFree(s)
  {
    OneRequestIffGapFree(s);
    if GapFree(s) {
      SingleRun(s);
      ExtentWithinWidth(s);
    } else {
      SomeBufferTooShort(s);
    }
  }

  /** With two or more reads, the first or the last buffer is too short for the whole list. */
  lemma SomeBufferTooShort(s: seq<Point>)
    requires AllKnown(s) && |Requests(s)| > 1
    ensures Requests(s)[0].count < Extent(s) || Requests(s)[|Requests(s)| - 1].count < Extent(s)
  {
    ExtentOfKnown(s);
    CountsBelowTotal(s);
    assert Requests(s)[0].count + Requests(s)[|Requests(s)| - 1].count <= TotalWidth(s);
    CountsPositive(s);
  }

  lemma {:induction false} CountsPositive(s: seq<Point>)
    requires AllKnown(s)
    ensures forall k :: 0 <= k < |Requests(s)| ==> Requests(s)[k].count >= 1
    ensures s != [] ==> Requests(s)[|Requests(s)| - 1].count >= Width(s[|s| - 1])
  {
    if s != [] {
      CountsPositive(s[..|s| - 1]);
    }
  }

  lemma {:induction false} WalkAt(deviceId: string, s: seq<Point>, buffer: seq<UInt16>, i: nat)
    requires AllKnown(s) && Extent(s) <= |buffer| && i < |s|
    ensures TotalWidth(s[..i]) + ReadLength(s[i]) <= |buffer|
    ensures |Walk(deviceId, s, buffer)| == |s|
    ensures [Walk(deviceId, s, buffer)[i]] == StoreOf(deviceId, s[i], buffer, TotalWidth(s[..i]))
  {
    var front := s[..|s| - 1];
    if i < |s| - 1 {
      WalkAt(deviceId, front, buffer, i);
      assert front[..i] == s[..i];
    } else if front != [] {
      WalkAt(deviceId, front, buffer, 0);
    }
  }

  lemma {:induction false} ReadEachAt(deviceId: string, s: seq<Point>, memory: Memory, i: nat)
    requires AllKnown(s) && i < |s|
    ensures |ReadEach(deviceId, s, memory)| == |s|
    ensures [ReadEach(deviceId, s, memory)[i]]
            == StoreOf(deviceId, s[i], ReadBlock(memory, s[i].address, Width(s[i])), 0)
  {
    var front := s[..|s| - 1];
    if i < |s| - 1 {
      ReadEachAt(deviceId, front, memory, i);
    } else if front != [] {
      ReadEachAt(deviceId, front, memory, 0);
    }
  }

  /** For any one request of the plan: walking its buffer with the whole list stays inside
      and stores the right registers, whatever the device holds, exactly when the points
      form a single gap-free run. */
  lemma AsCalledIsPointwiseIffGapFree(deviceId: string, s: seq<Point>, k: nat)
    requires AllKnown(s) && k < |Requests(s)|
    ensures var r := Requests(s)[k];
      (Extent(s) <= r.count
       && forall memory: Memory ::
            Walk(deviceId, s, ReadBlock(memory, r.startAddr, r.count)) == ReadEach(deviceId, s, memory))
      <==> GapFree(s)
  {
    var r := Requests(s)[k];
    OneRequestIffGapFree(s);
    if GapFree(s) {
      SingleRun(s);
      forall memory: Memory
        ensures Extent(s) <= r.count
        ensures Walk(deviceId, s, ReadBlock(memory, r.startAddr, r.count)) == ReadEach(deviceId, s, memory)
      {
        BatchDecodeIsPointwise(deviceId, s, memory);
      }
      ExtentWithinWidth(s);
    } else if Extent(s) <= r.count {
      var memory := MisreadMemory(deviceId, s, r);
    }
  }

  /** Registers that differ where the walk first goes astray. */
  lemma MisreadMemory(deviceId: string, s: seq<Point>, r: Request) returns (memory: Memory)
    requires AllKnown(s) && !GapFree(s) && Extent(s) <= r.count
    ensures Walk(deviceId, s, ReadBlock(memory, r.startAddr, r.count)) != ReadEach(deviceId, s, memory)
  {
    var i := MisplacedPoint(s, r.startAddr);
    memory := x => if x == s[i].address then 1 else 0;
    WalkAt(deviceId, s, ReadBlock(memory, r.startAddr, r.count), i);
    ReadEachAt(deviceId, s, memory, i);
    assert Walk(deviceId, s, ReadBlock(memory, r.startAddr, r.count))[i].registers[0] == 0;
    assert ReadEach(deviceId, s, memory)[i].registers[0] == 1;
  }

  lemma MisplacedPoint(s: seq<Point>, start: int) returns (i: nat)
    requires AllKnown(s) && !GapFree(s)
    ensures i < |s| && s[i].address != start + TotalWidth(s[..i])
  {
    var k :| 0 < k < |s| && !Joins(s[k - 1], s[k]);
    assert s[..k][..k - 1] == s[..k - 1];
    i := if s[k].address != start + TotalWidth(s[..k]) then k else k - 1;
  }

  lemma TwoApart(a: Point, b: Point)
    requires !Joins(a, b)
    ensures Requests([a, b]) == [Request(a.address, Width(a)), Request(b.address, Width(b))]
    ensures TotalWidth([a, b]) == Width(a) + Width(b)
  {
    SingleRun([a]);
    RequestsAppend([a], [b]);
    assert [a] + [b] == [a, b] && [a, b][..1] == [a];
    assert TotalWidth([a]) == TotalWidth([]) + Width(a) && TotalWidth([b]) == TotalWidth([]) + Width(b);
  }

  // ----- a whole cycle as called -----

  /** What one cycle does: the reads it issues, the values it stores, and whether a walk
      left its buffer. A fault ends the trace; stores of the faulty walk are not recorded. */
  datatype Trace = Trace(issued: seq<Request>, stores: seq<Store>, fault: bool)

  /** The walk over the buffer of one read leaves that buffer. */
  ghost predicate Faults(s: seq<Point>, r: Request, answer: Option<Memory>)
  {
    answer.Some? && r.count < Extent(s)
  }

  /** What one read stores when its buffer is walked with the whole list. */
  ghost function Stored(deviceId: string, s: seq<Point>, r: Request, answer: Option<Memory>): seq<Store>
    requires !Faults(s, r, answer)
  {
    match answer
    case None => []
    case Some(memory) => Walk(deviceId, s, ReadBlock(memory, r.startAddr, r.count))
  }

  ghost function Cycle(deviceId: string, s: seq<Point>, requests: seq<Request>, device: Device): Trace
  {
    if requests == [] then Trace([], [], false)
    else
      var n := |requests| - 1;
      CycleStep(deviceId, s, Cycle(deviceId, s, requests[..n], device), requests[n], device(n))
  }

  ghost function CycleStep(deviceId: string, s: seq<Point>, before: Trace, r: Request, answer: Option<Memory>): Trace
  {
    if before.fault then before
    else if Faults(s, r, answer) then Trace(before.issued + [r], before.stores, true)
    else Trace(before.issued + [r], before.stores + Stored(deviceId, s, r, answer), false)
  }

  lemma {:induction false} FaultIsFinal(deviceId: string, s: seq<Point>, front: seq<Request>,
                                        requests: seq<Request>, device: Device)
    requires front <= requests && Cycle(deviceId, s, front, device).fault
    ensures Cycle(deviceId, s, requests, device) == Cycle(deviceId, s, front, device)
  {
    if |front| < |requests| {
      FaultIsFinal(deviceId, s, front, requests[..|requests| - 1], device);
    } else {
      assert front == requests;
    }
  }

  lemma FaultAppears(s: seq<Point>, front: seq<Request>, requests: seq<Request>, device: Device)
    requires requests != [] && front == requests[..|requests| - 1]
    ensures (exists k :: 0 <= k < |requests| && Faults(s, requests[k], device(k)))
            <==> || (exists k :: 0 <= k < |front| && Faults(s, front[k], device(k)))
                 || Faults(s, requests[|front|], device(|front|))
  {
    if k :| 0 <= k < |requests| && Faults(s, requests[k], device(k)) {
      assert k < |front| ==> Faults(s, front[k], device(k));
    }
    if k :| 0 <= k < |front| && Faults(s, front[k], device(k)) {
      assert Faults(s, requests[k], device(k));
    }
  }

  /** A cycle faults exactly when some answered read is shorter than the walk needs; a cycle
      that does not fault has issued every request. */
  lemma {:induction false} CycleFaultIff(deviceId: string, s: seq<Point>, requests: seq<Request>, device: Device)
    ensures Cycle(deviceId, s, requests, device).fault
            <==> exists k :: 0 <= k < |requests| && Faults(s, requests[k], device(k))
    ensures !Cycle(deviceId, s, requests, device).fault ==>
      Cycle(deviceId, s, requests, device).issued == requests
  {
    if requests != [] {
      var n := |requests| - 1;
      var front := requests[..n];
      CycleFaultIff(deviceId, s, front, device);
      FaultAppears(s, front, requests, device);
      assert requests == front + [requests[n]];
    }
  }

  /** The cycle as called is right for every device -- no fault, and every answered read
      stores each point's own registers -- exactly when the points are one gap-free run. */
  lemma CycleIsPointwiseIffGapFree(deviceId: string, s: seq<Point>)
    requires s != [] && AllKnown(s)
    ensures (forall device: Device :: CycleIsPointwise(deviceId, s, device)) <==> GapFree(s)
  {
    if GapFree(s) {
      SingleRun(s);
      var r := Requests(s)[0];
      forall device: Device ensures CycleIsPointwise(deviceId, s, device) {
        assert Requests(s)[..0] == [];
        ExtentWithinWidth(s);
        if device(0).Some? {
          BatchDecodeIsPointwise(deviceId, s, device(0).value);
        }
      }
    } else {
      WholeListFitsIffGapFree(s);
      var k :| 0 <= k < |Requests(s)| && Requests(s)[k].count < Extent(s);
      var device: Device := n => Some(x => 0);
      CycleFaultIff(deviceId, s, Requests(s), device);
      assert Faults(s, Requests(s)[k], device(k));
      assert !CycleIsPointwise(deviceId, s, device);
    }
  }

  ghost predicate CycleIsPointwise(deviceId: string, s: seq<Point>, device: Device)
  {
    && !Cycle(deviceId, s, Requests(s), device).fault
    && Cycle(deviceId, s, Requests(s), device).stores == AnsweredReads(deviceId, s, device, |Requests(s)|)
  }

  /** Every point read on its own, once for each of the first `n` reads that is answered. */
  ghost function AnsweredReads(deviceId: string, s: seq<Point>, device: Device, n: nat): seq<Store>
  {
    if n == 0 then []
    else
      AnsweredReads(deviceId, s, device, n - 1)
      + match device(n - 1) case None => [] case Some(memory) => ReadEach(deviceId, s, memory)
  }

  /** No walk leaves its buffer and the values are still wrong: of two points apart the first
      read fails, and the first point is stored with a register of the second. */
  lemma WholeListMisreads(deviceId: string, first: string, second: string, memory: Memory, device: Device)
    requires memory(0) != memory(10)
    requires device(0) == None && device(1) == Some(memory)
    ensures var s := [Point(first, 0, INT16), Point(second, 10, UINT32)];
      var cycle := Cycle(deviceId, s, Requests(s), device);
      && Requests(s) == [Request(0, 1), Request(10, 2)]
      && !cycle.fault && cycle.issued == Requests(s) && |cycle.stores| == 2
      && cycle.stores[0] == Store("modbus_data:" + deviceId + ":" + first, INT16, [memory(10)])
      && ReadEach(deviceId, s, memory)[0] == Store("modbus_data:" + deviceId + ":" + first, INT16, [memory(0)])
  {
    var s := [Point(first, 0, INT16), Point(second, 10, UINT32)];
    TwoApart(s[0], s[1]);
    ExtentOfKnown(s);
    TwoReads(deviceId, s, Request(0, 1), Request(10, 2), device, memory);
    var block, own := ReadBlock(memory, 10, 2), ReadBlock(memory, 0, 1);
    WalkAt(deviceId, s, block, 0);
    ReadEachAt(deviceId, s, memory, 0);
    assert s[..0] == [] && block[0..1] == [memory(10)] && own[0..1] == [memory(0)];
  }

  /** Two reads of which only the second is answered, with enough registers. */
  lemma TwoReads(deviceId: string, s: seq<Point>, first: Request, second: Request, device: Device, memory: Memory)
    requires device(0) == None && device(1) == Some(memory) && Extent(s) <= second.count
    ensures Cycle(deviceId, s, [first, second], device)
            == Trace([first, second], Walk(deviceId, s, ReadBlock(memory, second.startAddr, second.count)), false)
  {
    assert [first, second][..1] == [first] && [first][..0] == [];
    assert Cycle(deviceId, s, [first], device) == Trace([first], [], false);
  }

  // ----- the length of a read -----

  ghost predicate ReadsWithin(s: seq<Point>, limit: nat)
  {
    forall k :: 0 <= k < |Requests(s)| ==> Requests(s)[k].count <= limit
  }

  ghost predicate StretchesWithin(s: seq<Point>, limit: nat)
  {
    forall i, j :: 0 <= i < j <= |s| && GapFree(s[i..j]) ==> TotalWidth(s[i..j]) <= limit
  }

  /** No read is longer than `limit` exactly when no gap-free stretch of points is. */
  lemma ReadsWithinLimit(s: seq<Point>, limit: nat)
    ensures ReadsWithin(s, limit) <==> StretchesWithin(s, limit)
  {
    if ReadsWithin(s, limit) {
      forall i, j | 0 <= i < j <= |s| && GapFree(s[i..j]) ensures TotalWidth(s[i..j]) <= limit {
        var k := StretchIsCovered(s, i, j);
      }
    }
    if StretchesWithin(s, limit) {
      var parts := PlanPartitionsThePoints(s);
      forall k | 0 <= k < |Requests(s)| ensures Requests(s)[k].count <= limit {
        var i := PartIsStretch(parts, s, k);
        assert GapFree(s[i..i + |parts[k]|]);
      }
    }
  }

  lemma {:induction false} StretchIsCovered(s: seq<Point>, i: nat, j: nat) returns (k: nat)
    requires i < j <= |s| && GapFree(s[i..j])
    ensures k < |Requests(s)| && TotalWidth(s[i..j]) <= Requests(s)[k].count
    decreases |s|
  {
    if j < |s| {
      var front := s[..|s| - 1];
      assert front[i..j] == s[i..j];
      k := StretchIsCovered(front, i, j);
      CountsGrow(s, k);
    } else {
      assert s[..i] + s[i..j] == s;
      SuffixIsCovered(s[..i], s[i..j]);
      SomeRequest(s);
      k := |Requests(s)| - 1;
    }
  }

  lemma CountsGrow(s: seq<Point>, k: nat)
    requires s != [] && k < |Requests(s[..|s| - 1])|
    ensures k < |Requests(s)| && Requests(s[..|s| - 1])[k].count <= Requests(s)[k].count
  {
  }

  lemma {:induction false} SuffixIsCovered(s: seq<Point>, t: seq<Point>)
    requires t != [] && GapFree(t)
    ensures TotalWidth(t) <= Requests(s + t)[|Requests(s + t)| - 1].count
  {
    var m := |t| - 1;
    assert (s + t)[..|s + t| - 1] == s + t[..m];
    if m > 0 {
      SuffixIsCovered(s, t[..m]);
      assert Joins(t[m - 1], t[m]);
    } else {
      assert TotalWidth(t) == TotalWidth([]) + Width(t[0]);
    }
  }

  lemma {:induction false} PartIsStretch(parts: seq<seq<Point>>, s: seq<Point>, k: nat) returns (i: nat)
    requires Flatten(parts) == s && k < |parts|
    ensures i + |parts[k]| <= |s| && s[i..i + |parts[k]|] == parts[k]
    decreases parts
  {
    var n := |parts| - 1;
    var front := Flatten(parts[..n]);
    if k < n {
      i := PartIsStretch(parts[..n], front, k);
    } else {
      i := |front|;
    }
  }

  /** Nothing caps a read: `n` adjacent one-register points are one read of `n` registers,
      past the 125 of section 6.3 of the MODBUS Application Protocol Specification. */
  lemma ReadsAreNotCapped(n: nat)
    requires 0 < n <= 0x1_0000
    ensures var s := seq(n, i requires 0 <= i < n => Point("p", i, UINT16)); Requests(s) == [Request(0, n)]
  {
    var s := seq(n, i requires 0 <= i < n => Point("p", i, UINT16));
    forall k | 0 < k < |s| ensures Joins(s[k - 1], s[k]) { }
    SingleRun(s);
    LastRequestEnd(s);
  }
}
