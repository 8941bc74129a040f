/** What the lookups in the templates find: the match that comes first in the document. */
module IcdLookups {
  import opened Wrappers
  import opened Places
  import opened IcdModel
  import opened IcdDocument

  // ----- the first of a listing -----

  /** `x` stands at `p`, is wanted, and nothing wanted stands before it. */
  ghost predicate First<T(!new)>(at: At<T>, wanted: T -> bool, p: Place, x: T)
  {
    at(p, x) && wanted(x) && forall q, y :: at(q, y) && wanted(y) ==> q == p || Before(p, q)
  }

  lemma FirstListed<T(!new)>(items: seq<T>, at: At<T>, wanted: T -> bool, m: nat) returns (p: Place)
    requires Listed(items, at) && m < |items| && wanted(items[m])
    requires forall k :: 0 <= k < m ==> !wanted(items[k])
    ensures First(at, wanted, p, items[m])
  {
    var places :| ListedAt(items, places, at);
    p := places[m];
    assert Stands(items, places, at, m);
    forall q, y | at(q, y) && wanted(y) ensures q == p || Before(p, q) {
      assert Listing(items, places, q, y);
      var k :| 0 <= k < |items| && places[k] == q && items[k] == y;
      assert k >= m;
    }
  }

  lemma NoneListed<T(!new)>(items: seq<T>, at: At<T>, wanted: T -> bool)
    requires Listed(items, at) && forall k :: 0 <= k < |items| ==> !wanted(items[k])
    ensures forall p, x :: at(p, x) ==> !wanted(x)
  {
    var places :| ListedAt(items, places, at);
    forall p, x | at(p, x) ensures !wanted(x) {
      assert Listing(items, places, p, x);
    }
  }

  // ----- DOs and their types -----

  /** At LNodeType with the id, and DO. */
  ghost function DoAt(types: seq<LNodeType>, id: string): At<DoElem>
  {
    (p: Place, d: DoElem) =>
      |p| == 2 && p[0] < |types| && types[p[0]].id == id && p[1] < |types[p[0]].dos| && d == types[p[0]].dos[p[1]]
  }

  ghost function DosHere(id: string): LNodeType -> At<DoElem>
  {
    (l: LNodeType) => if l.id == id then Indexed(l.dos) else Nowhere()
  }

  lemma DosListed(types: seq<LNodeType>, id: string)
    ensures Listed(DosOf(types, id), DoAt(types, id))
  {
    forall i | 0 <= i < |types| ensures Listed(DosWith(id)(types[i]), DosHere(id)(types[i])) {
      if types[i].id == id {
        ListedIndexed(types[i].dos);
      } else {
        ListedNothing(Nowhere<DoElem>());
      }
    }
    ListedFlatMap(DosWith(id), types, DosHere(id));
    forall p, d ensures Inside(types, DosHere(id))(p, d) <==> DoAt(types, id)(p, d) {
      if p != [] && p[0] < |types| && |p| == 2 {
        assert p[1..] == [p[1]];
      }
    }
    ListedSame(DosOf(types, id), Inside(types, DosHere(id)), DoAt(types, id));
  }

  ghost function NamedDo(name: string): DoElem -> bool
  {
    (d: DoElem) => d.name == name
  }

  lemma {:induction false} FirstTypeIdAt(dos: seq<DoElem>, name: string) returns (m: nat)
    ensures FirstTypeId(dos, name).None? ==> forall k :: 0 <= k < |dos| ==> dos[k].name != name
    ensures FirstTypeId(dos, name).Some? ==>
      && m < |dos| && dos[m].name == name && FirstTypeId(dos, name).value == Text(dos[m].typeId, "")
      && forall k :: 0 <= k < m ==> dos[k].name != name
  {
    m := 0;
    if dos != [] {
      var n := |dos| - 1;
      m := FirstTypeIdAt(dos[..n], name);
      assert forall k :: 0 <= k < n ==> dos[..n][k] == dos[k];
      if FirstTypeId(dos[..n], name).None? {
        m := n;
      }
    }
  }

  /** The type of the first DO of this name, or nothing if there is none. */
  ghost predicate IsFirstType(at: At<DoElem>, doName: string, id: string)
  {
    || (id == "" && forall p, d :: at(p, d) ==> d.name != doName)
    || exists p, d :: First(at, NamedDo(doName), p, d) && id == Text(d.typeId, "")
  }

  /** The type of a DO is that of the first DO of the name in the LNodeTypes of the id, in
      document order; empty without one. */
  lemma TypeIdIsFirst(t: Templates, lnType: string, doName: string)
    ensures IsFirstType(DoAt(t.lnodeTypes, lnType), doName, TypeIdOf(Some(t), Some(lnType), Some(doName)))
  {
    var dos := DosOf(t.lnodeTypes, lnType);
    DosListed(t.lnodeTypes, lnType);
    var m := FirstTypeIdAt(dos, doName);
    var at := DoAt(t.lnodeTypes, lnType);
    if FirstTypeId(dos, doName).Some? {
      var p := FirstListed(dos, at, NamedDo(doName), m);
      assert First(at, NamedDo(doName), p, dos[m]);
    } else {
      NoneListed(dos, at, NamedDo(doName));
      assert forall p, d :: at(p, d) ==> !NamedDo(doName)(d);
    }
  }

  // ----- control types -----

  /** A type is a control type exactly if the first DOType with its id has the class SPC or
      DPC. */
  lemma ControlIsFirst(t: Templates, id: string)
    ensures IsControl(Some(t), id)
            <==> exists k :: 0 <= k < |t.doTypes| && FirstWithId(t.doTypes, id, k)
                             && (t.doTypes[k].cdc == Some("SPC") || t.doTypes[k].cdc == Some("DPC"))
  {
    FirstControlAt(t.doTypes, id);
  }

  ghost predicate FirstWithId(types: seq<DoType>, id: string, k: nat)
    requires k < |types|
  {
    types[k].id == id && forall j :: 0 <= j < k ==> types[j].id != id
  }

  lemma {:induction false} FirstControlAt(types: seq<DoType>, id: string)
    ensures FirstControl(types, id).None? ==> forall k :: 0 <= k < |types| ==> types[k].id != id
    ensures FirstControl(types, id).Some? ==>
      exists k :: 0 <= k < |types| && FirstWithId(types, id, k)
                  && (FirstControl(types, id).value <==>
                        types[k].cdc == Some("SPC") || types[k].cdc == Some("DPC"))
  {
    if types != [] {
      var n := |types| - 1;
      FirstControlAt(types[..n], id);
      assert forall k :: 0 <= k < n ==> types[..n][k] == types[k];
      if FirstControl(types[..n], id).Some? {
        var k :| 0 <= k < n && FirstWithId(types[..n], id, k)
                 && (FirstControl(types[..n], id).value <==>
                       types[..n][k].cdc == Some("SPC") || types[..n][k].cdc == Some("DPC"));
        assert FirstWithId(types, id, k);
      } else if types[n].id == id {
        assert FirstWithId(types, id, n);
      }
    }
  }

  // ----- functional constraints -----

  /** At LNodeType with the id, typed DO of the name, DOType with the DO's type as id, and DA. */
  ghost function DaAt(t: Templates, lnType: string, doName: string): At<DaElem>
  {
    (p: Place, a: DaElem) =>
      && |p| == 4 && p[0] < |t.lnodeTypes| && t.lnodeTypes[p[0]].id == lnType
      && p[1] < |t.lnodeTypes[p[0]].dos|
      && var d := t.lnodeTypes[p[0]].dos[p[1]];
         d.name == doName && p[2] < |t.doTypes| && d.typeId == Some(t.doTypes[p[2]].id)
         && p[3] < |t.doTypes[p[2]].das| && a == t.doTypes[p[2]].das[p[3]]
  }

  ghost function DasHere(id: string): DoType -> At<DaElem>
  {
    (x: DoType) => if x.id == id then Indexed(x.das) else Nowhere()
  }

  ghost function ThroughHere(types: seq<DoType>, doName: string): DoElem -> At<DaElem>
  {
    (d: DoElem) => if d.name == doName && d.typeId.Some? then Inside(types, DasHere(d.typeId.value)) else Nowhere()
  }

  ghost function LNodeTypeDas(t: Templates, lnType: string, doName: string): LNodeType -> At<DaElem>
  {
    (l: LNodeType) => if l.id == lnType then Inside(l.dos, ThroughHere(t.doTypes, doName)) else Nowhere()
  }

  ghost function DasOfLNodeType(t: Templates, lnType: string, doName: string): LNodeType -> seq<DaElem>
  {
    (l: LNodeType) => FlatMap(DasThrough(t.doTypes, doName), DosWith(lnType)(l))
  }

  lemma TypeDasListed(types: seq<DoType>, id: string)
    ensures Listed(DasOf(types, id), Inside(types, DasHere(id)))
  {
    forall i | 0 <= i < |types| ensures Listed(DasWith(id)(types[i]), DasHere(id)(types[i])) {
      if types[i].id == id {
        ListedIndexed(types[i].das);
      } else {
        ListedNothing(Nowhere<DaElem>());
      }
    }
    ListedFlatMap(DasWith(id), types, DasHere(id));
  }

  lemma ThroughListed(types: seq<DoType>, doName: string, dos: seq<DoElem>)
    ensures Listed(FlatMap(DasThrough(types, doName), dos), Inside(dos, ThroughHere(types, doName)))
  {
    forall i | 0 <= i < |dos|
      ensures Listed(DasThrough(types, doName)(dos[i]), ThroughHere(types, doName)(dos[i]))
    {
      if dos[i].name == doName && dos[i].typeId.Some? {
        TypeDasListed(types, dos[i].typeId.value);
      } else {
        ListedNothing(Nowhere<DaElem>());
      }
    }
    ListedFlatMap(DasThrough(types, doName), dos, ThroughHere(types, doName));
  }

  lemma DaPlace(t: Templates, lnType: string, doName: string, p: Place, a: DaElem)
    ensures Inside(t.lnodeTypes, LNodeTypeDas(t, lnType, doName))(p, a) <==> DaAt(t, lnType, doName)(p, a)
  {
    if p != [] && p[0] < |t.lnodeTypes| && t.lnodeTypes[p[0]].id == lnType {
      var dos, q := t.lnodeTypes[p[0]].dos, p[1..];
      if q != [] && q[0] < |dos| && dos[q[0]].typeId.Some? {
        var r := q[1..];
        assert q[0] == p[1];
        if r != [] {
          assert r[0] == p[2] && |r[1..]| == |p| - 3;
          if |p| == 4 {
            assert r[1..][0] == p[3];
          }
        }
      }
    }
  }

  lemma DasListed(t: Templates, lnType: string, doName: string)
    ensures Listed(DasNamed(DosOf(t.lnodeTypes, lnType), t.doTypes, doName), DaAt(t, lnType, doName))
  {
    var emit, here := DasOfLNodeType(t, lnType, doName), LNodeTypeDas(t, lnType, doName);
    FlatMapCompose(DosWith(lnType), DasThrough(t.doTypes, doName), emit, t.lnodeTypes);
    forall i | 0 <= i < |t.lnodeTypes| ensures Listed(emit(t.lnodeTypes[i]), here(t.lnodeTypes[i])) {
      if t.lnodeTypes[i].id == lnType {
        ThroughListed(t.doTypes, doName, t.lnodeTypes[i].dos);
      } else {
        assert emit(t.lnodeTypes[i]) == [];
        ListedNothing(Nowhere<DaElem>());
      }
    }
    ListedFlatMap(emit, t.lnodeTypes, here);
    forall p, a ensures Inside(t.lnodeTypes, here)(p, a) <==> DaAt(t, lnType, doName)(p, a) {
      DaPlace(t, lnType, doName, p, a);
    }
    ListedSame(DasNamed(DosOf(t.lnodeTypes, lnType), t.doTypes, doName), Inside(t.lnodeTypes, here),
               DaAt(t, lnType, doName));
  }

  ghost function NamedDa(name: string): DaElem -> bool
  {
    (a: DaElem) => a.name == name
  }

  lemma {:induction false} FirstFcAt(das: seq<DaElem>, name: string) returns (m: nat)
    ensures FirstFc(das, name).None? ==> forall k :: 0 <= k < |das| ==> das[k].name != name
    ensures FirstFc(das, name).Some? ==>
      && m < |das| && das[m].name == name && FirstFc(das, name).value == Text(das[m].fc, "")
      && forall k :: 0 <= k < m ==> das[k].name != name
  {
    m := 0;
    if das != [] {
      var n := |das| - 1;
      m := FirstFcAt(das[..n], name);
      assert forall k :: 0 <= k < n ==> das[..n][k] == das[k];
      if FirstFc(das[..n], name).None? {
        m := n;
      }
    }
  }

  /** The fc of the first attribute of this name, or nothing if there is none. */
  ghost predicate IsFirstFc(at: At<DaElem>, daName: string, fc: string)
  {
    || (fc == "" && forall p, a :: at(p, a) ==> a.name != daName)
    || exists p, a :: First(at, NamedDa(daName), p, a) && fc == Text(a.fc, "")
  }

  /** The four nested loops find the constraint of the first attribute of the name, in the order
      of LNodeTypes, DOs, DOTypes and attributes; empty without one. */
  lemma FcIsFirst(t: Templates, lnType: string, doName: string, daName: string)
    ensures IsFirstFc(DaAt(t, lnType, doName), daName, FcOf(Some(t), Some(lnType), Some(doName), Some(daName)))
  {
    var das := DasNamed(DosOf(t.lnodeTypes, lnType), t.doTypes, doName);
    DasListed(t, lnType, doName);
    var m := FirstFcAt(das, daName);
    var at := DaAt(t, lnType, doName);
    if FirstFc(das, daName).Some? {
      var p := FirstListed(das, at, NamedDa(daName), m);
      assert First(at, NamedDa(daName), p, das[m]);
    } else {
      NoneListed(das, at, NamedDa(daName));
      assert forall p, a :: at(p, a) ==> !NamedDa(daName)(a);
    }
  }

  /** Without templates, or with a name missing, the lookups find nothing. */
  lemma NothingToLookUp(templates: Option<Templates>, lnType: Option<string>, doName: Option<string>,
                        daName: Option<string>)
    ensures templates.None? || lnType.None? || doName.None? ==> TypeIdOf(templates, lnType, doName) == ""
    ensures templates.None? || lnType.None? || doName.None? || daName.None? ==>
      FcOf(templates, lnType, doName, daName) == ""
    ensures templates.None? ==> forall id :: !IsControl(templates, id)
  {
  }
}
