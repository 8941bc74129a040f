/** The IEC 60870-5-104 server: a typed point table under a lock, its snapshots, its replies. */
module Iec104Table {
  import opened Wrappers

  type Int16 = x: int | -0x8000 <= x < 0x8000

  type UInt8 = x: int | 0 <= x < 0x100

  datatype PointType = MeasuredValueScaled | SinglePoint

  datatype Value = Scaled(scaled: Int16) | Single(single: bool)

  datatype DataPoint = DataPoint(ioa: int, pointType: PointType, value: Value, quality: UInt8, timestamp: int)

  type Table = map<int, DataPoint>

  predicate Matches(pointType: PointType, value: Value)
  {
    pointType == MeasuredValueScaled <==> value.Scaled?
  }

  /** The locked operations. A single command acts like an update with a boolean. */
  datatype Op =
    | Add(ioa: int, pointType: PointType, value: Value, quality: UInt8, now: int)
    | Update(ioa: int, value: Value, now: int)
    | Command(ioa: int, state: bool, now: int)

  /** The value an operation offers. */
  function Offered(op: Op): Value
  {
    match op
    case Add(_, _, value, _, _) => value
    case Update(_, value, _) => value
    case Command(_, state, _) => Single(state)
  }

  function Apply(table: Table, op: Op): Table
  {
    if op.Add? then
      table[op.ioa := DataPoint(op.ioa, op.pointType, op.value, op.quality, op.now)]
    else if op.ioa in table && Matches(table[op.ioa].pointType, Offered(op)) then
      table[op.ioa := table[op.ioa].(value := Offered(op), timestamp := op.now)]
    else
      table
  }

  function After(ops: seq<Op>): Table
  {
    if ops == [] then map[] else Apply(After(ops[..|ops| - 1]), ops[|ops| - 1])
  }

  /** Callers of the two overloads pass the tag that goes with the value. */
  ghost predicate AddsMatch(ops: seq<Op>)
  {
    forall k :: 0 <= k < |ops| && ops[k].Add? ==> Matches(ops[k].pointType, ops[k].value)
  }

  // ----- the table against the history of one address -----

  /** `a` is the last time the address was added. */
  ghost predicate LastAdd(ops: seq<Op>, ioa: int, a: nat)
  {
    && a < |ops| && ops[a].Add? && ops[a].ioa == ioa
    && forall k :: a < k < |ops| ==> !(ops[k].Add? && ops[k].ioa == ioa)
  }

  /** Operation `w` addresses the point with a value of the type given at `a`. */
  predicate Fits(ops: seq<Op>, a: nat, w: nat)
    requires a < |ops| && w < |ops| && ops[a].Add?
  {
    ops[w].ioa == ops[a].ioa && Matches(ops[a].pointType, Offered(ops[w]))
  }

  /** `w` is the last such operation since `a`. */
  ghost predicate LastWrite(ops: seq<Op>, a: nat, w: nat)
    requires a < |ops| && ops[a].Add?
  {
    a <= w < |ops| && Fits(ops, a, w) && forall k :: w < k < |ops| ==> !Fits(ops, a, k)
  }

  /** An address is in the table exactly if it was ever added. */
  lemma {:induction false} PresentIffAdded(ops: seq<Op>, ioa: int)
    ensures ioa in After(ops) <==> exists k :: 0 <= k < |ops| && ops[k].Add? && ops[k].ioa == ioa
  {
    if ops != [] {
      var n := |ops| - 1;
      PresentIffAdded(ops[..n], ioa);
      assert forall k :: 0 <= k < n ==> ops[..n][k] == ops[k];
    }
  }

  /** An entry has the address, the type and the quality of its last add, and the value and
      time of the last operation since then that offered a value of this type. */
  lemma {:induction false} EntryIsHistory(ops: seq<Op>, ioa: int) returns (a: nat, w: nat)
    requires AddsMatch(ops) && ioa in After(ops)
    ensures LastAdd(ops, ioa, a) && LastWrite(ops, a, w)
    ensures After(ops)[ioa] == DataPoint(ioa, ops[a].pointType, Offered(ops[w]), ops[a].quality, ops[w].now)
  {
    var n := |ops| - 1;
    var op := ops[n];
    if op.Add? && op.ioa == ioa {
      a, w := n, n;
    } else {
      a, w := EntryIsHistory(ops[..n], ioa);
      assert forall k :: 0 <= k < n ==> ops[..n][k] == ops[k];
      assert forall k :: 0 <= k < n ==> (Fits(ops[..n], a, k) <==> Fits(ops, a, k));
      if Fits(ops, a, n) {
        w := n;
      }
    }
  }

  /** Every entry carries its own key and a value of its own type. */
  ghost predicate Coherent(table: Table)
  {
    forall ioa :: ioa in table ==> table[ioa].ioa == ioa && Matches(table[ioa].pointType, table[ioa].value)
  }

  lemma {:induction false} TableIsCoherent(ops: seq<Op>)
    requires AddsMatch(ops)
    ensures Coherent(After(ops))
  {
    if ops != [] {
      TableIsCoherent(ops[..|ops| - 1]);
    }
  }

  /** Only adding changes a type, adds an address, or removes none. */
  lemma OnlyAddChangesType(table: Table, op: Op, ioa: int)
    requires ioa in table
    ensures ioa in Apply(table, op)
    ensures Apply(table, op)[ioa].pointType != table[ioa].pointType ==> op.Add? && op.ioa == ioa
    ensures !op.Add? ==> Apply(table, op).Keys == table.Keys
  {
  }

  // ----- snapshots -----

  ghost predicate Ascending(points: seq<DataPoint>)
  {
    forall i, j :: 0 <= i < j < |points| ==> points[i].ioa < points[j].ioa
  }

  /** Each entry once, in ascending order of address. */
  ghost predicate IsSnapshot(points: seq<DataPoint>, table: Table)
  {
    && Ascending(points)
    && (forall i :: 0 <= i < |points| ==> points[i].ioa in table && points[i] == table[points[i].ioa])
    && forall ioa :: ioa in table ==> table[ioa] in points
  }

  /** A table has only one snapshot. */
  lemma SnapshotUnique(p: seq<DataPoint>, q: seq<DataPoint>, table: Table)
    requires Coherent(table) && IsSnapshot(p, table) && IsSnapshot(q, table)
    ensures p == q
  {
    forall ioa ensures ioa in Ioas(p) <==> ioa in Ioas(q) {
      InIoas(p, table, ioa);
      InIoas(q, table, ioa);
    }
    AscendingSame(Ioas(p), Ioas(q));
    forall i | 0 <= i < |p| ensures p[i] == q[i] {
      assert Ioas(p)[i] == Ioas(q)[i];
    }
  }

  ghost function Ioas(points: seq<DataPoint>): seq<int>
  {
    seq(|points|, i requires 0 <= i < |points| => points[i].ioa)
  }

  lemma InIoas(p: seq<DataPoint>, table: Table, ioa: int)
    requires Coherent(table) && IsSnapshot(p, table)
    ensures ioa in Ioas(p) <==> ioa in table
  {
    if ioa in table {
      var k :| 0 <= k < |p| && p[k] == table[ioa];
      assert Ioas(p)[k] == ioa;
    }
  }

  lemma {:induction false} AscendingSame(a: seq<int>, b: seq<int>)
    requires forall i, j :: 0 <= i < j < |a| ==> a[i] < a[j]
    requires forall i, j :: 0 <= i < j < |b| ==> b[i] < b[j]
    requires forall x :: x in a <==> x in b
    ensures a == b
  {
    if b != [] {
      assert b[0] in b && b[0] in a;
    }
    if a != [] {
      assert a[0] in a && a[0] in b;
      var m, n := |a| - 1, |b| - 1;
      assert a[m] in a && b[n] in b && a[m] in b && b[n] in a;
      assert a[m] == b[n];
      forall x ensures x in a[..m] <==> x in b[..n] {
        assert x in a <==> x in a[..m] || x == a[m];
        assert x in b <==> x in b[..n] || x == b[n];
      }
      AscendingSame(a[..m], b[..n]);
      assert a == a[..m] + [a[m]] && b == b[..n] + [b[n]];
    }
  }

  // ----- messages -----

  datatype Cot = Periodic | InterrogatedByStation | Activation | ActivationCon | UnknownIoa | UnknownCot | OtherCot

  datatype InfoObject = ScaledObject(ioa: int, scaled: Int16, quality: UInt8)
                      | SingleObject(ioa: int, single: bool, quality: UInt8)

  datatype Message = ActCon(negative: bool) | ActTerm
                   | Data(cot: Cot, objects: seq<InfoObject>) | CommandReply(cot: Cot)

  /** Whether the library takes one more object into an ASDU; the answer is not looked at. */
  type Acceptance = (seq<InfoObject>, InfoObject) -> bool

  function ObjectOf(p: DataPoint): InfoObject
    requires Matches(p.pointType, p.value)
  {
    if p.pointType == MeasuredValueScaled then ScaledObject(p.ioa, p.value.scaled, p.quality)
    else SingleObject(p.ioa, p.value.single, p.quality)
  }

  ghost predicate AllMatch(points: seq<DataPoint>)
  {
    forall i :: 0 <= i < |points| ==> Matches(points[i].pointType, points[i].value)
  }

  /** The objects an ASDU ends up with when the points are offered in order. */
  ghost function Packed(points: seq<DataPoint>, accepts: Acceptance): seq<InfoObject>
    requires AllMatch(points)
  {
    if points == [] then []
    else
      var n := |points| - 1;
      var before, o := Packed(points[..n], accepts), ObjectOf(points[n]);
      if accepts(before, o) then before + [o] else before
  }

  /** The object was made from one of the points. */
  ghost predicate MadeFrom(o: InfoObject, points: seq<DataPoint>)
    requires AllMatch(points)
  {
    exists k :: 0 <= k < |points| && o == ObjectOf(points[k])
  }

  /** Packed objects come from the points, keep their order, and none comes twice. */
  lemma {:induction false} PackedInOrder(points: seq<DataPoint>, accepts: Acceptance)
    requires AllMatch(points) && Ascending(points)
    ensures forall i, j :: 0 <= i < j < |Packed(points, accepts)| ==>
      Packed(points, accepts)[i].ioa < Packed(points, accepts)[j].ioa
    ensures forall i :: 0 <= i < |Packed(points, accepts)| ==> MadeFrom(Packed(points, accepts)[i], points)
  {
    if points != [] {
      var n := |points| - 1;
      PackedInOrder(points[..n], accepts);
      var before := Packed(points[..n], accepts);
      forall i | 0 <= i < |before| ensures before[i].ioa < points[n].ioa && MadeFrom(before[i], points) {
        assert MadeFrom(before[i], points[..n]);
        var k :| 0 <= k < n && before[i] == ObjectOf(points[..n][k]);
        assert points[k].ioa < points[n].ioa && before[i] == ObjectOf(points[k]);
      }
      assert MadeFrom(ObjectOf(points[n]), points);
    }
  }

  /** If the library takes everything, nothing is missing. */
  lemma {:induction false} PackedComplete(points: seq<DataPoint>, accepts: Acceptance)
    requires AllMatch(points) && forall before, o :: accepts(before, o)
    ensures |Packed(points, accepts)| == |points|
    ensures forall i :: 0 <= i < |points| ==> Packed(points, accepts)[i] == ObjectOf(points[i])
  {
    if points != [] {
      PackedComplete(points[..|points| - 1], accepts);
    }
  }

  /** In general the library's answers decide: each object was accepted after those before it,
      and a point without an object was refused at its turn. */
  lemma {:induction false} PackedAsAccepted(points: seq<DataPoint>, accepts: Acceptance)
    requires AllMatch(points)
    ensures var packed := Packed(points, accepts);
      && (forall i :: 0 <= i < |packed| ==> accepts(packed[..i], packed[i]))
      && forall k :: 0 <= k < |points| ==>
           ObjectOf(points[k]) in packed || RefusedIn(packed, ObjectOf(points[k]), accepts)
  {
    if points != [] {
      var n := |points| - 1;
      PackedAsAccepted(points[..n], accepts);
      var before, packed := Packed(points[..n], accepts), Packed(points, accepts);
      assert packed[..|before|] == before;
      forall i | 0 <= i < |before| ensures accepts(packed[..i], packed[i]) {
        assert packed[..i] == before[..i];
      }
      forall k | 0 <= k < n
        ensures ObjectOf(points[k]) in packed || RefusedIn(packed, ObjectOf(points[k]), accepts)
      {
        assert points[..n][k] == points[k];
        if j :| 0 <= j <= |before| && !accepts(before[..j], ObjectOf(points[k])) {
          assert packed[..j] == before[..j];
        }
      }
      assert accepts(before, ObjectOf(points[n])) || !accepts(packed[..|before|], ObjectOf(points[n]));
    }
  }

  ghost predicate RefusedIn(packed: seq<InfoObject>, o: InfoObject, accepts: Acceptance)
  {
    exists j :: 0 <= j <= |packed| && !accepts(packed[..j], o)
  }

  lemma SomeMember(s: set<int>)
    ensures s == {} || exists x :: x in s
  {
    if forall x :: x !in s {
      assert s == {};
    }
  }

  // ----- the server -----

  class IEC104Server {
    var dataPoints: Table

    constructor ()
      ensures dataPoints == map[]
    {
      dataPoints := map[];
    }

    method AddDataPoint(ioa: int, pointType: PointType, value: Value, quality: UInt8, now: int)
      modifies this
      ensures dataPoints == Apply(old(dataPoints), Add(ioa, pointType, value, quality, now))
    {
      var dp := DataPoint(ioa, pointType, value, quality, now);
      dataPoints := dataPoints[ioa := dp];
    }

    method UpdateDataPoint(ioa: int, value: Value, now: int)
      modifies this
      ensures dataPoints == Apply(old(dataPoints), Update(ioa, value, now))
    {
      if ioa in dataPoints && Matches(dataPoints[ioa].pointType, value) {
        dataPoints := dataPoints[ioa := dataPoints[ioa].(value := value, timestamp := now)];
      }
    }

    /** A single command. Activation with an object is confirmed positively whether or not the
        addressed point exists or is a single point. */
    method HandleSingleCommand(cot: Cot, io: Option<(int, bool)>, now: int) returns (reply: Message)
      modifies this
      ensures dataPoints == if cot == Activation && io.Some?
        then Apply(old(dataPoints), Command(io.value.0, io.value.1, now)) else old(dataPoints)
      ensures reply == CommandReply(
        if cot != Activation then UnknownCot else if io.None? then UnknownIoa else ActivationCon)
    {
      if cot == Activation {
        if io.Some? {
          var (ioa, state) := io.value;
          if ioa in dataPoints && dataPoints[ioa].pointType == SinglePoint {
            dataPoints := dataPoints[ioa := dataPoints[ioa].(value := Single(state), timestamp := now)];
          }
          reply := CommandReply(ActivationCon);
        } else {
          reply := CommandReply(UnknownIoa);
        }
      } else {
        reply := CommandReply(UnknownCot);
      }
    }

    /** Copies the entries in the order of the map's keys. */
    method Snapshot() returns (points: seq<DataPoint>)
      requires Coherent(dataPoints)
      ensures IsSnapshot(points, dataPoints) && AllMatch(points)
    {
      points := [];
      var rest := dataPoints.Keys;
      while rest != {}
        invariant rest <= dataPoints.Keys && Ascending(points)
        invariant forall i :: 0 <= i < |points| ==>
          points[i].ioa in dataPoints && points[i] == dataPoints[points[i].ioa]
        invariant forall ioa :: ioa in dataPoints ==> ioa in rest || dataPoints[ioa] in points
        invariant forall i, ioa :: 0 <= i < |points| && ioa in rest ==> points[i].ioa < ioa
        decreases rest
      {
        var ioa := Smallest(rest);
        points := points + [dataPoints[ioa]];
        rest := rest - {ioa};
      }
    }

    static method Smallest(keys: set<int>) returns (k: int)
      requires keys != {}
      ensures k in keys && forall other :: other in keys ==> k <= other
    {
      SomeMember(keys);
      k :| k in keys;
      var rest := keys - {k};
      while rest != {}
        invariant k in keys && rest <= keys
        invariant forall other :: other in keys && other !in rest ==> k <= other
        decreases rest
      {
        SomeMember(rest);
        var x :| x in rest;
        if x < k {
          k := x;
        }
        rest := rest - {x};
      }
    }

    /** Offers every point to one ASDU and sends it; nothing is sent without points or when no
        ASDU can be created. */
    static method SendDataPoints(points: seq<DataPoint>, cot: Cot, created: bool, accepts: Acceptance)
      returns (sent: seq<Message>)
      requires AllMatch(points)
      ensures sent == if points == [] || !created then [] else [Data(cot, Packed(points, accepts))]
    {
      if points == [] || !created {
        return [];
      }
      var objects := [];
      for i := 0 to |points|
        invariant objects == Packed(points[..i], accepts)
      {
        assert points[..i + 1][..i] == points[..i];
        var o := ObjectOf(points[i]);
        if accepts(objects, o) {
          objects := objects + [o];
        }
      }
      assert points[..|points|] == points;
      return [Data(cot, objects)];
    }

    /** One turn of the periodic task: the snapshot in one ASDU, if there is anything to send. */
    method SendPeriodic(created: bool, accepts: Acceptance) returns (sent: seq<Message>, ghost points: seq<DataPoint>)
      requires Coherent(dataPoints)
      ensures IsSnapshot(points, dataPoints) && AllMatch(points)
      ensures sent == if points == [] || !created then [] else [Data(Periodic, Packed(points, accepts))]
    {
      var snapshot := Snapshot();
      points := snapshot;
      sent := SendDataPoints(snapshot, Periodic, created, accepts);
    }

    /** Station interrogation: a positive confirmation, at most one ASDU with the snapshot,
        a termination. Any other qualifier is refused. */
    method HandleInterrogation(qoi: UInt8, created: bool, accepts: Acceptance)
      returns (sent: seq<Message>, ghost points: seq<DataPoint>)
      requires Coherent(dataPoints)
      ensures IsSnapshot(points, dataPoints) && AllMatch(points)
      ensures qoi != 20 ==> sent == [ActCon(true)]
      ensures qoi == 20 ==>
        sent == [ActCon(false)]
                + (if dataPoints == map[] || !created then []
                    else [Data(InterrogatedByStation, Packed(points, accepts))])
                + [ActTerm]
    {
      var snapshot := Snapshot();
      points := snapshot;
      if qoi == 20 {
        var data := SendDataPoints(snapshot, InterrogatedByStation, created, accepts);
        sent := [ActCon(false)] + data + [ActTerm];
        if dataPoints != map[] {
          SomeMember(dataPoints.Keys);
          var ioa :| ioa in dataPoints.Keys;
          assert dataPoints[ioa] in points;
        }
      } else {
        sent := [ActCon(true)];
      }
    }
  }
}
