/** What an ASDU of the 104 server carries, told from the operations on its table. */
module Iec104Replies {
  import opened Wrappers
  import opened Iec104Table

  /** The operation offers a value of the given type; a command offers a boolean. */
  predicate Offers(op: Op, pointType: PointType)
  {
    match op
    case Add(_, _, value, _, _) => value.Scaled? <==> pointType == MeasuredValueScaled
    case Update(_, value, _) => value.Scaled? <==> pointType == MeasuredValueScaled
    case Command(_, _, _) => pointType == SinglePoint
  }

  /** `w` is the last operation, from the add at `a` on, that offered this point a value of its
      type. */
  ghost predicate IsLastOffer(ops: seq<Op>, a: nat, w: nat)
    requires a < |ops| && ops[a].Add?
  {
    && a <= w < |ops| && ops[w].ioa == ops[a].ioa && Offers(ops[w], ops[a].pointType)
    && forall k :: w < k < |ops| && ops[k].ioa == ops[a].ioa ==> !Offers(ops[k], ops[a].pointType)
  }

  predicate CarriesValue(o: InfoObject, value: Value)
  {
    match value
    case Scaled(scaled) => o.ScaledObject? && o.scaled == scaled
    case Single(single) => o.SingleObject? && o.single == single
  }

  /** The object carries the type and quality of the add and the value of the write. */
  predicate Carries(o: InfoObject, add: Op, write: Op)
    requires add.Add?
  {
    && o.ioa == add.ioa && o.quality == add.quality
    && (o.ScaledObject? <==> add.pointType == MeasuredValueScaled)
    && match write
       case Add(_, _, value, _, _) => CarriesValue(o, value)
       case Update(_, value, _) => CarriesValue(o, value)
       case Command(_, state, _) => o.SingleObject? && o.single == state
  }

  /** The object tells the history of its address. */
  ghost predicate Tells(ops: seq<Op>, o: InfoObject)
  {
    exists a: nat, w: nat :: LastAdd(ops, o.ioa, a) && IsLastOffer(ops, a, w) && Carries(o, ops[a], ops[w])
  }

  lemma EntryTells(ops: seq<Op>, ioa: int)
    requires AddsMatch(ops) && ioa in After(ops)
    ensures var p := After(ops)[ioa];
      Matches(p.pointType, p.value) && p.ioa == ioa && Tells(ops, ObjectOf(p))
  {
    TableIsCoherent(ops);
    var a, w := EntryIsHistory(ops, ioa);
    assert forall k :: 0 <= k < |ops| ==>
      (Fits(ops, a, k) <==> ops[k].ioa == ops[a].ioa && Offers(ops[k], ops[a].pointType));
    assert IsLastOffer(ops, a, w);
    assert Carries(ObjectOf(After(ops)[ioa]), ops[a], ops[w]);
  }

  /** After any history, whatever the library accepts: each object of an ASDU made from the
      snapshot has the address, type and quality of the last add of that address and the value
      last offered to it. */
  lemma ObjectsTellHistory(ops: seq<Op>, points: seq<DataPoint>, accepts: Acceptance)
    requires AddsMatch(ops) && IsSnapshot(points, After(ops)) && AllMatch(points)
    ensures forall i :: 0 <= i < |Packed(points, accepts)| ==> Tells(ops, Packed(points, accepts)[i])
  {
    PackedInOrder(points, accepts);
    forall i | 0 <= i < |Packed(points, accepts)| ensures Tells(ops, Packed(points, accepts)[i]) {
      var o := Packed(points, accepts)[i];
      assert MadeFrom(o, points);
      var k :| 0 <= k < |points| && o == ObjectOf(points[k]);
      EntryTells(ops, points[k].ioa);
    }
  }

  /** And if the library takes everything, each address ever added has such an object. */
  lemma EveryAddressIsSent(ops: seq<Op>, points: seq<DataPoint>, accepts: Acceptance, k: nat)
    requires AddsMatch(ops) && IsSnapshot(points, After(ops)) && AllMatch(points)
    requires forall before, o :: accepts(before, o)
    requires k < |ops| && ops[k].Add?
    ensures exists i :: 0 <= i < |Packed(points, accepts)| && Packed(points, accepts)[i].ioa == ops[k].ioa
  {
    PresentIffAdded(ops, ops[k].ioa);
    TableIsCoherent(ops);
    PackedComplete(points, accepts);
    var i :| 0 <= i < |points| && points[i] == After(ops)[ops[k].ioa];
    assert Packed(points, accepts)[i].ioa == ops[k].ioa;
  }
}
