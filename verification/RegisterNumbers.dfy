/** The plan and the decoding in plain numbers: one register for a 16-bit point, two for a
    32-bit one. */
module RegisterNumbers {
  import opened Wrappers
  import opened Sorting
  import opened RegisterPlan
  import opened RegisterPlanLaws
  import opened BlockDecoding

  predicate Narrow(p: Point)
  {
    p.dataType == INT16 || p.dataType == UINT16
  }

  predicate Wide(p: Point)
  {
    p.dataType == INT32 || p.dataType == UINT32 || p.dataType == FLOAT32
  }

  /** The address just after the point; a point of unknown type takes no register. */
  function EndOf(p: Point): int
  {
    if Narrow(p) then p.address + 1 else if Wide(p) then p.address + 2 else p.address
  }

  /** `q` starts where `p` ends, both of known type. */
  predicate Follows(p: Point, q: Point)
  {
    (Narrow(p) || Wide(p)) && (Narrow(q) || Wide(q)) && q.address == EndOf(p)
  }

  // ----- the requests -----

  ghost predicate Abutting(run: seq<Point>)
  {
    forall i :: 0 < i < |run| ==> Follows(run[i - 1], run[i])
  }

  /** The request reads from the first point's address to the last point's end. */
  ghost predicate Fetches(r: Request, run: seq<Point>)
  {
    run != [] && r.startAddr == run[0].address && r.startAddr + r.count == EndOf(run[|run| - 1])
  }

  lemma GapFreeIsAbutting(run: seq<Point>)
    ensures GapFree(run) <==> Abutting(run)
  {
    assert forall i :: 0 < i < |run| ==> (Joins(run[i - 1], run[i]) <==> Follows(run[i - 1], run[i]));
  }

  lemma RunIsFetched(run: seq<Point>)
    requires run != [] && GapFree(run)
    ensures Fetches(RequestOf(run), run)
  {
    OffsetIsDistance(run, |run| - 1);
  }

  /** The plan, for any list of points: cut where the next point does not follow, and nowhere
      else, with one request for each piece. */
  lemma PlanInNumbers(s: seq<Point>) returns (parts: seq<seq<Point>>)
    ensures Flatten(parts) == s && |parts| == |Requests(s)|
    ensures forall k :: 0 <= k < |parts| ==> Fetches(Requests(s)[k], parts[k]) && Abutting(parts[k])
    ensures forall k :: 0 < k < |parts| ==> CutBetween(parts[k - 1], parts[k])
  {
    parts := PlanPartitionsThePoints(s);
    forall k | 0 <= k < |parts| ensures Fetches(Requests(s)[k], parts[k]) && Abutting(parts[k]) {
      RunIsFetched(parts[k]);
      GapFreeIsAbutting(parts[k]);
    }
    forall k | 0 < k < |parts| ensures CutBetween(parts[k - 1], parts[k]) {
      assert !Joins(parts[k - 1][|parts[k - 1]| - 1], parts[k][0]);
    }
  }

  ghost predicate CutBetween(run: seq<Point>, next: seq<Point>)
  {
    run != [] && next != [] && !Follows(run[|run| - 1], next[0])
  }

  /** How many points ask for a register: those at it, and the 32-bit ones just before it. */
  ghost function Asking(s: seq<Point>, register: int): nat
  {
    if s == [] then 0
    else
      var p := s[|s| - 1];
      Asking(s[..|s| - 1], register)
      + (if (Narrow(p) || Wide(p)) && p.address == register then 1 else 0)
      + (if Wide(p) && p.address + 1 == register then 1 else 0)
  }

  /** For any list of points, each register is read as many times as points ask for it. */
  lemma {:induction false} ReadsInNumbers(s: seq<Point>, register: int)
    ensures TimesRead(Requests(s), register) == Asking(s, register)
  {
    ReadsMatchPoints(s, register);
    SpansInNumbers(s, register);
  }

  lemma {:induction false} SpansInNumbers(s: seq<Point>, register: int)
    ensures TimesSpanned(s, register) == Asking(s, register)
  {
    if s != [] {
      SpansInNumbers(s[..|s| - 1], register);
    }
  }

  // ----- the values -----

  /** The registers that the points take up one after the other. */
  ghost function Taken(s: seq<Point>): nat
  {
    if s == [] then 0
    else Taken(s[..|s| - 1]) + (if Narrow(s[|s| - 1]) then 1 else if Wide(s[|s| - 1]) then 2 else 0)
  }

  lemma {:induction false} TakenIsTotalWidth(s: seq<Point>)
    ensures TotalWidth(s) == Taken(s)
  {
    if s != [] {
      TakenIsTotalWidth(s[..|s| - 1]);
    }
  }

  /** A buffer is long enough for the walk exactly when every point finds its first register at
      its offset and a float also its second. */
  lemma {:induction false} FitsInNumbers(s: seq<Point>, n: nat)
    ensures Extent(s) <= n
            <==> forall i :: 0 <= i < |s| ==> FindsItsRegisters(s, i, n)
  {
    if s != [] {
      var m := |s| - 1;
      FitsInNumbers(s[..m], n);
      TakenIsTotalWidth(s[..m]);
      forall i | 0 <= i < m ensures FindsItsRegisters(s[..m], i, n) <==> FindsItsRegisters(s, i, n) {
        assert s[..m][i] == s[i] && s[..m][..i] == s[..i];
      }
      assert (forall i :: 0 <= i < |s| ==> FindsItsRegisters(s, i, n))
        <==> FindsItsRegisters(s, m, n) && forall i :: 0 <= i < m ==> FindsItsRegisters(s[..m], i, n);
      assert Known(s[m]) <==> Narrow(s[m]) || Wide(s[m]);
    }
  }

  ghost predicate FindsItsRegisters(s: seq<Point>, i: nat, n: nat)
    requires i < |s|
  {
    Narrow(s[i]) || Wide(s[i]) ==> Taken(s[..i]) + (if s[i].dataType == FLOAT32 then 2 else 1) <= n
  }

  /** What one more point adds to a walk: under its own key and type, a float both registers at
      the walk's offset, any other known type the one there; unknown types nothing. */
  lemma WalkInNumbers(deviceId: string, s: seq<Point>, p: Point, buffer: seq<UInt16>)
    requires Extent(s + [p]) <= |buffer|
    ensures Extent(s) <= |buffer|
    ensures p.dataType == FLOAT32 ==> Taken(s) + 1 < |buffer|
    ensures p.dataType in {INT16, UINT16, INT32, UINT32} ==> Taken(s) < |buffer|
    ensures Walk(deviceId, s + [p], buffer)
            == Walk(deviceId, s, buffer)
               + match p.dataType
                 case FLOAT32 =>
                   [Store("modbus_data:" + deviceId + ":" + p.name, FLOAT32, [buffer[Taken(s)], buffer[Taken(s) + 1]])]
                 case INT16 | UINT16 | INT32 | UINT32 =>
                   [Store("modbus_data:" + deviceId + ":" + p.name, p.dataType, [buffer[Taken(s)]])]
                 case UNKNOWN | STRING => []
  {
    assert (s + [p])[..|s|] == s;
    TakenIsTotalWidth(s);
    var o := Taken(s);
    if Known(p) {
      assert buffer[o..o + ReadLength(p)]
          == if p.dataType == FLOAT32 then [buffer[o], buffer[o + 1]] else [buffer[o]];
    }
  }

  /** The store of a point that is read on its own: the registers at its address. */
  function StoreAt(deviceId: string, p: Point, memory: Memory): Store
  {
    Store("modbus_data:" + deviceId + ":" + p.name, p.dataType,
          if p.dataType == FLOAT32 then [memory(p.address), memory(p.address + 1)] else [memory(p.address)])
  }

  ghost predicate AllNumbers(s: seq<Point>)
  {
    forall i :: 0 <= i < |s| ==> Narrow(s[i]) || Wide(s[i])
  }

  /** The stores are one for each point, in order, each with its own registers. */
  ghost predicate StoresEach(deviceId: string, s: seq<Point>, memory: Memory, stores: seq<Store>)
  {
    |stores| == |s| && forall i :: 0 <= i < |s| ==> stores[i] == StoreAt(deviceId, s[i], memory)
  }

  lemma {:induction false} ReadEachInNumbers(deviceId: string, s: seq<Point>, memory: Memory)
    requires AllNumbers(s)
    ensures StoresEach(deviceId, s, memory, ReadEach(deviceId, s, memory))
  {
    if s != [] {
      var n := |s| - 1;
      ReadEachInNumbers(deviceId, s[..n], memory);
      OwnRegisters(deviceId, s[n], memory);
    }
  }

  lemma OwnRegisters(deviceId: string, p: Point, memory: Memory)
    requires Narrow(p) || Wide(p)
    ensures StoreOf(deviceId, p, ReadBlock(memory, p.address, Width(p)), 0) == [StoreAt(deviceId, p, memory)]
  {
    var block := ReadBlock(memory, p.address, Width(p));
    assert block[0..ReadLength(p)]
        == if p.dataType == FLOAT32 then [memory(p.address), memory(p.address + 1)] else [memory(p.address)];
  }

  /** Points of known type that follow one another are one request, from the first address to
      the end of the last point; when it is answered, every point is stored with the registers
      at its own address. */
  lemma AbuttingPointsCycle(deviceId: string, s: seq<Point>, device: Device, memory: Memory)
    requires s != [] && AllNumbers(s) && Abutting(s)
    requires device(0) == Some(memory)
    ensures |Requests(s)| == 1 && Fetches(Requests(s)[0], s)
    ensures var cycle := Cycle(deviceId, s, Requests(s), device);
      cycle.issued == Requests(s) && !cycle.fault && StoresEach(deviceId, s, memory, cycle.stores)
  {
    GapFreeIsAbutting(s);
    SingleRun(s);
    RunIsFetched(s);
    BatchDecodeIsPointwise(deviceId, s, memory);
    ReadEachInNumbers(deviceId, s, memory);
    OneRead(deviceId, s, RequestOf(s), device, memory);
  }

  lemma OneRead(deviceId: string, s: seq<Point>, r: Request, device: Device, memory: Memory)
    requires device(0) == Some(memory) && Extent(s) <= r.count
    ensures Cycle(deviceId, s, [r], device)
            == Trace([r], Walk(deviceId, s, ReadBlock(memory, r.startAddr, r.count)), false)
  {
    assert [r][..0] == [];
  }
}
