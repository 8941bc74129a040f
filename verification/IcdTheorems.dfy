/** The two traversals of the templates agree. */
module IcdTheorems {
  import opened Wrappers
  import opened IcdModel

  // ----- membership in the enumerations -----

  lemma InDos(types: seq<LNodeType>, id: string, d: DoElem)
    ensures d in DosOf(types, id) <==> exists l :: l in types && l.id == id && d in l.dos
  {
    FlatMapMember(DosWith(id), types, d);
    assert forall l: LNodeType :: d in DosWith(id)(l) <==> l.id == id && d in l.dos;
  }

  lemma InDas(types: seq<DoType>, id: string, a: DaElem)
    ensures a in DasOf(types, id) <==> exists t :: t in types && t.id == id && a in t.das
  {
    FlatMapMember(DasWith(id), types, a);
    assert forall t: DoType :: a in DasWith(id)(t) <==> t.id == id && a in t.das;
  }

  /** `a` is an attribute of the typed DO `d`. */
  ghost predicate Has(types: seq<DoType>, d: DoElem, a: DaElem)
  {
    d.typeId.Some? && a in DasOf(types, d.typeId.value)
  }

  lemma InDasNamed(dos: seq<DoElem>, types: seq<DoType>, doName: string, a: DaElem)
    ensures a in DasNamed(dos, types, doName) <==> exists d :: d in dos && d.name == doName && Has(types, d, a)
  {
    FlatMapMember(DasThrough(types, doName), dos, a);
    assert forall d: DoElem :: a in DasThrough(types, doName)(d) <==> d.name == doName && Has(types, d, a);
  }

  lemma InAttributeNodes(doPath: string, das: seq<DaElem>, node: DataNode)
    ensures node in AttributeNodes(doPath, das)
            <==> exists a :: a in das && a.fc == Some(node.fc) && node.path == doPath + "." + a.name
  {
    FlatMapMember(AttributeNode(doPath), das, node);
    assert forall a: DaElem ::
      (node in AttributeNode(doPath)(a) <==> a.fc == Some(node.fc) && node.path == doPath + "." + a.name);
  }

  lemma InAllDoNodes(templates: Templates, lnRef: string, dos: seq<DoElem>, node: DataNode)
    ensures node in AllDoNodes(templates, lnRef, dos) <==> exists d :: d in dos && node in DoNodes(templates, lnRef, d)
  {
    FlatMapMember(DoEmitter(templates, lnRef), dos, node);
    assert forall d: DoElem :: node in DoEmitter(templates, lnRef)(d) <==> node in DoNodes(templates, lnRef, d);
  }

  lemma {:induction false} FirstFcIsOne(das: seq<DaElem>, daName: string)
    ensures FirstFc(das, daName).Some? <==> exists a :: a in das && a.name == daName
    ensures FirstFc(das, daName).Some? ==>
      exists a :: a in das && a.name == daName && FirstFc(das, daName).value == OrElse(a.fc, "")
  {
    if das != [] {
      var n := |das| - 1;
      FirstFcIsOne(das[..n], daName);
      assert das == das[..n] + [das[n]];
    }
  }

  lemma {:induction false} FirstTypeIdIsOne(dos: seq<DoElem>, doName: string)
    requires FirstTypeId(dos, doName).Some?
    ensures exists d :: d in dos && d.name == doName && FirstTypeId(dos, doName).value == OrElse(d.typeId, "")
  {
    var n := |dos| - 1;
    assert dos[n] in dos;
    if FirstTypeId(dos[..n], doName).Some? {
      FirstTypeIdIsOne(dos[..n], doName);
      var d :| d in dos[..n] && d.name == doName && FirstTypeId(dos, doName).value == OrElse(d.typeId, "");
      assert d in dos;
    }
  }

  // ----- every looked-up node is enumerated -----

  /** A looked-up constraint is one the enumeration emits, whatever the document. */
  lemma LookupIsEnumerated(t: Templates, lnRef: string, lnType: string, doName: string, daName: string)
    requires FcOf(Some(t), Some(lnType), Some(doName), Some(daName)) != ""
    ensures DataNode(lnRef + "." + doName + "." + daName, FcOf(Some(t), Some(lnType), Some(doName), Some(daName)))
            in TemplateNodes(Some(t), lnRef, lnType)
  {
    var dos := DosOf(t.lnodeTypes, lnType);
    var das := DasNamed(dos, t.doTypes, doName);
    FirstFcIsOne(das, daName);
    var a :| a in das && a.name == daName && FirstFc(das, daName).value == OrElse(a.fc, "");
    InDasNamed(dos, t.doTypes, doName, a);
    var d :| d in dos && d.name == doName && Has(t.doTypes, d, a);
    AttributeIsEnumerated(t, lnRef, lnType, d, a);
  }

  lemma AttributeIsEnumerated(t: Templates, lnRef: string, lnType: string, d: DoElem, a: DaElem)
    requires d in DosOf(t.lnodeTypes, lnType) && Has(t.doTypes, d, a) && a.fc.Some?
    ensures DataNode(lnRef + "." + d.name + "." + a.name, a.fc.value) in TemplateNodes(Some(t), lnRef, lnType)
  {
    var node := DataNode(lnRef + "." + d.name + "." + a.name, a.fc.value);
    InAttributeNodes(lnRef + "." + d.name, DasOf(t.doTypes, d.typeId.value), node);
    InAllDoNodes(t, lnRef, DosOf(t.lnodeTypes, lnType), node);
  }

  lemma ControlIsEnumerated(t: Templates, lnRef: string, lnType: string, doName: string)
    requires var id := TypeIdOf(Some(t), Some(lnType), Some(doName)); id != "" && IsControl(Some(t), id)
    ensures DataNode(lnRef + "." + doName, "CO") in TemplateNodes(Some(t), lnRef, lnType)
  {
    var dos := DosOf(t.lnodeTypes, lnType);
    FirstTypeIdIsOne(dos, doName);
    var d :| d in dos && d.name == doName && FirstTypeId(dos, doName).value == OrElse(d.typeId, "");
    var node := DataNode(lnRef + "." + doName, "CO");
    assert node in DoNodes(t, lnRef, d);
    InAllDoNodes(t, lnRef, dos, node);
  }

  lemma DaiNodesEnumerated(templates: Option<Templates>, lnRef: string, lnType: string,
                           doName: Option<string>, dais: seq<Option<string>>, node: DataNode)
    requires node in DaiNodes(templates, lnRef, Some(lnType), doName, dais)
    ensures node in TemplateNodes(templates, lnRef, lnType)
  {
    FlatMapMember(DaiEmitter(templates, lnRef, Some(lnType), doName), dais, node);
    var daName :| daName in dais && node in DaiEmitter(templates, lnRef, Some(lnType), doName)(daName);
    assert node in DaiNode(templates, lnRef, Some(lnType), doName, daName);
    LookupIsEnumerated(templates.value, lnRef, lnType, doName.value, daName.value);
  }

  lemma DoiNodesEnumerated(templates: Option<Templates>, lnRef: string, lnType: string,
                           dois: seq<Doi>, node: DataNode)
    requires node in AllDoiNodes(templates, lnRef, Some(lnType), dois)
    ensures node in TemplateNodes(templates, lnRef, lnType)
  {
    FlatMapMember(DoiEmitter(templates, lnRef, Some(lnType)), dois, node);
    var doi :| doi in dois && node in DoiEmitter(templates, lnRef, Some(lnType))(doi);
    assert node in DoiNodes(templates, lnRef, Some(lnType), doi);
    if node in DaiNodes(templates, lnRef, Some(lnType), doi.name, doi.dais) {
      DaiNodesEnumerated(templates, lnRef, lnType, doi.name, doi.dais, node);
    } else {
      ControlIsEnumerated(templates.value, lnRef, lnType, doi.name.value);
    }
  }

  /** For a logical node's type attribute, the DOI/DAI pass adds nothing that the enumeration
      does not -- for every document -- exactly when the attribute is not present-but-empty. */
  lemma DoiPassIsRedundantIff(lnType: Option<string>)
    ensures (forall templates, lnRef, dois, node ::
               node in AllDoiNodes(templates, lnRef, lnType, dois) ==>
                  node in LnTemplateNodes(templates, lnRef, lnType))
            <==> lnType != Some("")
  {
    if lnType == Some("") {
      EmptyTypeIsLookedUp();
      var templates, lnRef, dois, node :| OnlyLookedUp(templates, lnRef, dois, node);
      assert node in AllDoiNodes(templates, lnRef, lnType, dois);
    } else {
      forall templates, lnRef, dois, node | node in AllDoiNodes(templates, lnRef, lnType, dois)
        ensures node in LnTemplateNodes(templates, lnRef, lnType)
      {
        if lnType.None? {
          NoTypeNoNodes(templates, lnRef, dois, node);
        } else {
          DoiNodesEnumerated(templates, lnRef, lnType.value, dois, node);
        }
      }
    }
  }

  lemma NoTypeNoNodes(templates: Option<Templates>, lnRef: string, dois: seq<Doi>, node: DataNode)
    ensures node !in AllDoiNodes(templates, lnRef, None, dois)
  {
    FlatMapMember(DoiEmitter(templates, lnRef, None), dois, node);
    forall doi: Doi ensures node !in DoiEmitter(templates, lnRef, None)(doi) {
      FlatMapMember(DaiEmitter(templates, lnRef, None, doi.name), doi.dais, node);
      assert forall da :: DaiEmitter(templates, lnRef, None, doi.name)(da) == [];
      assert DoiEmitter(templates, lnRef, None)(doi) == DoiNodes(templates, lnRef, None, doi);
    }
  }

  /** An LNodeType with an empty id is found by the lookup but never enumerated. */
  lemma EmptyTypeIsLookedUp()
    ensures exists templates, lnRef, dois, node :: OnlyLookedUp(templates, lnRef, dois, node)
  {
    var single := OneAttribute("", "Ind1", "stVal");
    var t := Some(single);
    var doi := Doi(Some("Ind1"), [Some("stVal")]);
    var node := DataNode("R" + "." + "Ind1" + "." + "stVal", "ST");
    LookedUp(t, "R", "", "Ind1", "stVal");
    assert OnlyLookedUp(t, "R", [doi], node);
  }

  lemma LookedUp(templates: Option<Templates>, lnRef: string, lnType: string, doName: string, daName: string)
    requires FcOf(templates, Some(lnType), Some(doName), Some(daName)) != ""
    ensures DataNode(lnRef + "." + doName + "." + daName, FcOf(templates, Some(lnType), Some(doName), Some(daName)))
            in AllDoiNodes(templates, lnRef, Some(lnType), [Doi(Some(doName), [Some(daName)])])
  {
    FlatMapSingle(DaiEmitter(templates, lnRef, Some(lnType), Some(doName)), Some(daName));
    FlatMapSingle(DoiEmitter(templates, lnRef, Some(lnType)), Doi(Some(doName), [Some(daName)]));
  }

  ghost predicate OnlyLookedUp(templates: Option<Templates>, lnRef: string, dois: seq<Doi>, node: DataNode)
  {
    node in AllDoiNodes(templates, lnRef, Some(""), dois) && node !in LnTemplateNodes(templates, lnRef, Some(""))
  }

  // ----- lookup and enumeration agree -----

  /** Elements that share an id or a name are the same element. */
  ghost predicate Consistent(t: Templates)
  {
    && (forall l, m :: l in t.lnodeTypes && m in t.lnodeTypes && l.id == m.id ==> l == m)
    && (forall l, d, e :: l in t.lnodeTypes && d in l.dos && e in l.dos && d.name == e.name ==> d == e)
    && (forall x, y :: x in t.doTypes && y in t.doTypes && x.id == y.id ==> x == y)
    && (forall x, a, b :: x in t.doTypes && a in x.das && b in x.das && a.name == b.name ==> a == b)
  }

  predicate DotFree(s: string)
  {
    '.' !in s
  }

  ghost predicate DotFreeNames(t: Templates)
  {
    && (forall l, d :: l in t.lnodeTypes && d in l.dos ==> DotFree(d.name))
    && (forall x, a :: x in t.doTypes && a in x.das ==> DotFree(a.name))
  }

  /** Splitting at the only dot on the right is forced. */
  lemma SplitAtDot(a: string, b: string, c: string, d: string)
    requires a + "." + b == c + "." + d && DotFree(c) && DotFree(d)
    ensures a == c && b == d
  {
    var left, right := a + "." + b, c + "." + d;
    assert forall i :: 0 <= i < |c| ==> right[i] == c[i] != '.';
    assert forall i :: |c| < i < |right| ==> right[i] == d[i - |c| - 1] != '.';
    assert left[|a|] == '.' && |a| == |c|;
    assert left[..|a|] == a && right[..|c|] == c && left[|a| + 1..] == b && right[|c| + 1..] == d;
  }

  /** For a fixed logical node, a path of dot-free template names names one DO and one DA. */
  lemma PathInjective(lnRef: string, doName: string, daName: string, do2: string, da2: string)
    requires lnRef + "." + doName + "." + daName == lnRef + "." + do2 + "." + da2
    requires DotFree(do2) && DotFree(da2)
    ensures doName == do2 && daName == da2
  {
    var n := |lnRef| + 1;
    assert doName + "." + daName == (lnRef + "." + doName + "." + daName)[n..];
    assert do2 + "." + da2 == (lnRef + "." + do2 + "." + da2)[n..];
    SplitAtDot(doName, daName, do2, da2);
  }

  lemma ControlPathDiffers(lnRef: string, doName: string, daName: string, do2: string)
    requires DotFree(do2)
    ensures lnRef + "." + doName + "." + daName != lnRef + "." + do2
  {
    var n, rest := |lnRef| + 1, doName + "." + daName;
    assert rest[|doName|] == '.';
    assert (lnRef + "." + doName + "." + daName)[n..] == rest;
    assert (lnRef + "." + do2)[n..] == do2;
  }

  /** An attribute path that the enumeration emits was reached through those very names. */
  lemma EnumeratedComesFrom(t: Templates, lnRef: string, lnType: string, doName: string, daName: string, fc: string)
    requires DotFreeNames(t)
    requires DataNode(lnRef + "." + doName + "." + daName, fc) in TemplateNodes(Some(t), lnRef, lnType)
    ensures exists d, a :: d in DosOf(t.lnodeTypes, lnType) && d.name == doName
                           && Has(t.doTypes, d, a) && a.name == daName && a.fc == Some(fc)
  {
    var dos := DosOf(t.lnodeTypes, lnType);
    var node := DataNode(lnRef + "." + doName + "." + daName, fc);
    InAllDoNodes(t, lnRef, dos, node);
    var d :| d in dos && node in DoNodes(t, lnRef, d);
    InDos(t.lnodeTypes, lnType, d);
    ControlPathDiffers(lnRef, doName, daName, d.name);
    AttributeOf(t, lnRef, d, doName, daName, fc);
  }

  lemma AttributeOf(t: Templates, lnRef: string, d: DoElem, doName: string, daName: string, fc: string)
    requires DotFreeNames(t) && DotFree(d.name) && d.typeId.Some?
    requires DataNode(lnRef + "." + doName + "." + daName, fc)
             in AttributeNodes(lnRef + "." + d.name, DasOf(t.doTypes, d.typeId.value))
    ensures d.name == doName
    ensures exists a :: Has(t.doTypes, d, a) && a.name == daName && a.fc == Some(fc)
  {
    var das := DasOf(t.doTypes, d.typeId.value);
    InAttributeNodes(lnRef + "." + d.name, das, DataNode(lnRef + "." + doName + "." + daName, fc));
    var a :| a in das && a.fc == Some(fc)
             && lnRef + "." + doName + "." + daName == lnRef + "." + d.name + "." + a.name;
    InDas(t.doTypes, d.typeId.value, a);
    PathInjective(lnRef, doName, daName, d.name, a.name);
  }

  /** On consistent templates with dot-free names, the first-match lookup finds a constraint
      exactly when the enumeration emits the path with it. */
  lemma LookupAgreesWithEnumeration(t: Templates, lnRef: string, lnType: string, doName: string, daName: string,
                                    fc: string)
    requires Consistent(t) && DotFreeNames(t) && fc != ""
    ensures FcOf(Some(t), Some(lnType), Some(doName), Some(daName)) == fc
            <==> DataNode(lnRef + "." + doName + "." + daName, fc) in TemplateNodes(Some(t), lnRef, lnType)
  {
    if FcOf(Some(t), Some(lnType), Some(doName), Some(daName)) == fc {
      LookupIsEnumerated(t, lnRef, lnType, doName, daName);
    }
    if DataNode(lnRef + "." + doName + "." + daName, fc) in TemplateNodes(Some(t), lnRef, lnType) {
      EnumeratedComesFrom(t, lnRef, lnType, doName, daName, fc);
      var d, a :| d in DosOf(t.lnodeTypes, lnType) && d.name == doName
                  && Has(t.doTypes, d, a) && a.name == daName && a.fc == Some(fc);
      OnlyMatch(t, lnType, d, a);
    }
  }

  lemma OnlyMatch(t: Templates, lnType: string, d: DoElem, a: DaElem)
    requires Consistent(t) && d in DosOf(t.lnodeTypes, lnType) && Has(t.doTypes, d, a)
    ensures FcOf(Some(t), Some(lnType), Some(d.name), Some(a.name)) == OrElse(a.fc, "")
  {
    var dos := DosOf(t.lnodeTypes, lnType);
    var das := DasNamed(dos, t.doTypes, d.name);
    InDasNamed(dos, t.doTypes, d.name, a);
    FirstFcIsOne(das, a.name);
    var b :| b in das && b.name == a.name && FirstFc(das, a.name).value == OrElse(b.fc, "");
    InDasNamed(dos, t.doTypes, d.name, b);
    var e :| e in dos && e.name == d.name && Has(t.doTypes, e, b);
    InDos(t.lnodeTypes, lnType, d);
    InDos(t.lnodeTypes, lnType, e);
    InDas(t.doTypes, d.typeId.value, a);
    InDas(t.doTypes, d.typeId.value, b);
  }

  /** The lookup and the enumeration tell the same, whatever is asked. */
  ghost predicate Agree(t: Templates)
  {
    forall lnRef, lnType, doName, daName, fc :: fc != "" ==> Same(t, lnRef, lnType, doName, daName, fc)
  }

  ghost predicate Same(t: Templates, lnRef: string, lnType: string, doName: string, daName: string, fc: string)
  {
    FcOf(Some(t), Some(lnType), Some(doName), Some(daName)) == fc
    <==> DataNode(lnRef + "." + doName + "." + daName, fc) in TemplateNodes(Some(t), lnRef, lnType)
  }

  /** The templates name their DOs and DAs out of the given vocabularies. */
  ghost predicate NamedFrom(t: Templates, doNames: set<string>, daNames: set<string>)
  {
    && (forall l, d :: l in t.lnodeTypes && d in l.dos ==> d.name in doNames)
    && (forall x, a :: x in t.doTypes && a in x.das ==> a.name in daNames)
  }

  ghost predicate AllDotFree(names: set<string>)
  {
    forall name :: name in names ==> DotFree(name)
  }

  ghost predicate AllAgree(doNames: set<string>, daNames: set<string>)
  {
    forall t :: Consistent(t) && NamedFrom(t, doNames, daNames) ==> Agree(t)
  }

  /** Of all consistent templates over a vocabulary of names, every one has its traversals
      agree exactly when no name has a dot, or there is no name for a DO at all. */
  lemma AgreementIffDotFree(doNames: set<string>, daNames: set<string>)
    ensures AllAgree(doNames, daNames)
            <==> doNames == {} || (AllDotFree(doNames) && AllDotFree(daNames))
  {
    if doNames == {} {
      forall t | NamedFrom(t, doNames, daNames) ensures Agree(t) {
        NoDosAgree(t, daNames);
      }
    } else if doName :| doName in doNames && !DotFree(doName) {
      var t := DottedDo(doName);
      assert NamedFrom(t, doNames, daNames);
    } else if daName :| daName in daNames && !DotFree(daName) {
      var doName :| doName in doNames;
      var t := DottedDa(doName, daName);
      assert NamedFrom(t, doNames, daNames);
    } else {
      forall t | Consistent(t) && NamedFrom(t, doNames, daNames) ensures Agree(t) {
        forall lnRef, lnType, doName, daName, fc | fc != "" ensures Same(t, lnRef, lnType, doName, daName, fc) {
          LookupAgreesWithEnumeration(t, lnRef, lnType, doName, daName, fc);
        }
      }
    }
  }

  lemma NoDosAgree(t: Templates, daNames: set<string>)
    requires NamedFrom(t, {}, daNames)
    ensures Agree(t)
  {
    forall lnRef, lnType, doName, daName, fc | fc != "" ensures Same(t, lnRef, lnType, doName, daName, fc) {
      var dos := DosOf(t.lnodeTypes, lnType);
      if dos != [] {
        InDos(t.lnodeTypes, lnType, dos[0]);
      }
      NoSuchDo(t, lnType, doName, daName);
    }
  }

  /** A dotted DO name: its control node has the path of an attribute that does not exist. */
  lemma DottedDo(name: string) returns (t: Templates)
    requires !DotFree(name)
    ensures Consistent(t) && NamedFrom(t, {name}, {}) && !Agree(t)
  {
    var d, x := DoElem(name, Some("T")), DoType("T", Some("SPC"), []);
    t := Single("L", d, x);
    var head, tail := CutAtDot(name);
    SingleConsistent("L", d, x);
    SingleTraversals("L", d, x, "R");
    assert FirstControl(t.doTypes[..0], "T") == None;
    NoOtherDo(t, d, head, tail);
    assert "R" + "." + head + "." + tail == "R" + "." + name;
    assert !Same(t, "R", "L", head, tail, "CO");
  }

  /** A dotted DA name: the path can be cut at that dot instead. */
  lemma DottedDa(doName: string, daName: string) returns (t: Templates)
    requires !DotFree(daName)
    ensures Consistent(t) && NamedFrom(t, {doName}, {daName}) && !Agree(t)
  {
    t := OneAttribute("L", doName, daName);
    LookupIsEnumerated(t, "R", "L", doName, daName);
    var head, tail := CutAtDot(daName);
    var longer := doName + "." + head;
    assert |longer| > |doName|;
    NoOtherDo(t, DoElem(doName, Some("T")), longer, tail);
    CutElsewhere("R", doName, head, tail);
    assert !Same(t, "R", "L", longer, tail, "ST");
  }

  /** Templates with one DO of one type. */
  ghost function Single(id: string, d: DoElem, x: DoType): Templates
  {
    Templates([LNodeType(id, [d])], [x])
  }

  lemma SingleConsistent(id: string, d: DoElem, x: DoType)
    requires |x.das| <= 1
    ensures Consistent(Single(id, d, x))
    ensures NamedFrom(Single(id, d, x), {d.name}, set a | a in x.das :: a.name)
  {
  }

  lemma SingleTraversals(id: string, d: DoElem, x: DoType, lnRef: string)
    ensures var t := Single(id, d, x);
      && DosOf(t.lnodeTypes, id) == [d] && DasOf(t.doTypes, x.id) == x.das
      && TemplateNodes(Some(t), lnRef, id) == DoNodes(t, lnRef, d)
  {
    var t := Single(id, d, x);
    FlatMapSingle(DosWith(id), t.lnodeTypes[0]);
    FlatMapSingle(DasWith(x.id), x);
    FlatMapSingle(DoEmitter(t, lnRef), d);
  }

  /** Templates in which the only attribute can be looked up. */
  lemma OneAttribute(id: string, doName: string, daName: string) returns (t: Templates)
    ensures Consistent(t) && NamedFrom(t, {doName}, {daName})
    ensures DosOf(t.lnodeTypes, id) == [DoElem(doName, Some("T"))]
    ensures FcOf(Some(t), Some(id), Some(doName), Some(daName)) == "ST"
  {
    var a := DaElem(daName, Some("ST"));
    var d, x := DoElem(doName, Some("T")), DoType("T", None, [a]);
    t := Single(id, d, x);
    SingleConsistent(id, d, x);
    SingleTraversals(id, d, x, "");
    SingleLookup(id, d, x, a);
  }

  lemma SingleLookup(id: string, d: DoElem, x: DoType, a: DaElem)
    requires x.das == [a] && d.typeId == Some(x.id)
    ensures FcOf(Some(Single(id, d, x)), Some(id), Some(d.name), Some(a.name)) == OrElse(a.fc, "")
  {
    var t := Single(id, d, x);
    SingleConsistent(id, d, x);
    SingleTraversals(id, d, x, "");
    assert d in DosOf(t.lnodeTypes, id) && a in DasOf(t.doTypes, x.id);
    OnlyMatch(t, id, d, a);
  }

  lemma CutElsewhere(lnRef: string, doName: string, head: string, tail: string)
    ensures lnRef + "." + (doName + "." + head) + "." + tail == lnRef + "." + doName + "." + (head + "." + tail)
  {
  }

  lemma CutAtDot(name: string) returns (head: string, tail: string)
    requires !DotFree(name)
    ensures name == head + "." + tail
  {
    var i :| 0 <= i < |name| && name[i] == '.';
    head, tail := name[..i], name[i + 1..];
  }

  /** Templates with a single DO know no other. */
  lemma NoOtherDo(t: Templates, d: DoElem, doName: string, daName: string)
    requires DosOf(t.lnodeTypes, "L") == [d] && doName != d.name
    ensures FcOf(Some(t), Some("L"), Some(doName), Some(daName)) == ""
  {
    NoSuchDo(t, "L", doName, daName);
  }

  lemma NoSuchDo(t: Templates, lnType: string, doName: string, daName: string)
    requires forall d :: d in DosOf(t.lnodeTypes, lnType) ==> d.name != doName
    ensures FcOf(Some(t), Some(lnType), Some(doName), Some(daName)) == ""
  {
    var das := DasNamed(DosOf(t.lnodeTypes, lnType), t.doTypes, doName);
    FirstFcIsOne(das, daName);
    forall a | a in das ensures false {
      InDasNamed(DosOf(t.lnodeTypes, lnType), t.doTypes, doName, a);
    }
  }

  // ----- the whole document -----

  ghost function SiteTemplateNodes(templates: Option<Templates>, site: Site): seq<DataNode>
  {
    LnTemplateNodes(templates, LnRef(site.iedName, site.ldInst, site.ln), site.ln.lnType)
  }

  ghost predicate Contributes(templates: Option<Templates>, site: Site, node: DataNode)
  {
    node in DataSetNodes(site.iedName, site.ln.dataSets) || node in SiteTemplateNodes(templates, site)
  }

  lemma SiteNodes(templates: Option<Templates>, site: Site, node: DataNode)
    requires site.ln.lnType != Some("")
    ensures node in LnResult(templates, site).nodes <==> Contributes(templates, site, node)
  {
    var lnRef := LnRef(site.iedName, site.ldInst, site.ln);
    DoiPassIsRedundantIff(site.ln.lnType);
    assert node in AllDoiNodes(templates, lnRef, site.ln.lnType, site.ln.dois) ==>
      node in LnTemplateNodes(templates, lnRef, site.ln.lnType);
  }

  lemma {:induction false} InJoinAll(f: Site -> ParseResult, sites: seq<Site>, node: DataNode)
    ensures node in JoinAll(f, sites).nodes <==> exists site :: site in sites && node in f(site).nodes
  {
    if sites != [] {
      var n := |sites| - 1;
      InJoinAll(f, sites[..n], node);
      assert forall site :: site in sites <==> site in sites[..n] || site == sites[n];
    }
  }

  /** Unless some type attribute is present but empty, the nodes that parsing a document yields
      are, as a set, those of its data sets and those of the templates alone. */
  lemma NodesAreFcdaAndTemplates(doc: Document, node: DataNode)
    requires forall site :: site in Sites(doc) ==> site.ln.lnType != Some("")
    ensures node in DocumentResult(doc).nodes
            <==> exists site :: site in Sites(doc) && Contributes(TemplatesOf(doc), site, node)
  {
    SiteNodesJoined(TemplatesOf(doc), Sites(doc), node);
  }

  lemma SiteNodesJoined(templates: Option<Templates>, sites: seq<Site>, node: DataNode)
    requires forall site :: site in sites ==> site.ln.lnType != Some("")
    ensures node in SitesResult(templates, sites).nodes
            <==> exists site :: site in sites && Contributes(templates, site, node)
  {
    InJoinAll(SiteResult(templates), sites, node);
    forall site | site in sites
      ensures node in SiteResult(templates)(site).nodes <==> Contributes(templates, site, node)
    {
      SiteNodes(templates, site, node);
    }
  }
}
