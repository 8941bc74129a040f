/** The data nodes that parsing yields, told from the document: for each logical node those of
    its data sets, then those of its DOIs, then those of its type. */
module IcdNodes {
  import opened Wrappers
  import opened Places
  import opened IcdModel
  import opened IcdDocument

  // ----- DOIs -----

  ghost predicate IsControlDoi(templates: Option<Templates>, lnType: Option<string>, doi: Doi)
  {
    TypeIdOf(templates, lnType, doi.name) != "" && IsControl(templates, TypeIdOf(templates, lnType, doi.name))
  }

  /** At DOI and 0: its control node. At DOI, 1 and DAI: the attribute with the constraint that
      was looked up. */
  ghost function DoiNodesAt(templates: Option<Templates>, lnRef: string, lnType: Option<string>, dois: seq<Doi>)
    : At<DataNode>
  {
    (p: Place, node: DataNode) =>
      && 2 <= |p| && p[0] < |dois|
      && var doi := dois[p[0]];
         || (p[1] == 0 && |p| == 2 && IsControlDoi(templates, lnType, doi)
             && node == DataNode(lnRef + "." + Text(doi.name, ""), "CO"))
         || (p[1] == 1 && |p| == 3 && p[2] < |doi.dais|
             && node.fc == FcOf(templates, lnType, doi.name, doi.dais[p[2]]) != ""
             && node.path == lnRef + "." + Text(doi.name, "") + "." + Text(doi.dais[p[2]], ""))
  }

  ghost function DaiHere(templates: Option<Templates>, lnRef: string, lnType: Option<string>, doName: Option<string>)
    : Option<string> -> At<DataNode>
  {
    (daName: Option<string>) =>
      var fc := FcOf(templates, lnType, doName, daName);
      Here(fc != "", DataNode(lnRef + "." + Text(doName, "") + "." + Text(daName, ""), fc))
  }

  ghost function DoiHere(templates: Option<Templates>, lnRef: string, lnType: Option<string>): Doi -> At<DataNode>
  {
    (doi: Doi) =>
      Parts(Here(IsControlDoi(templates, lnType, doi), DataNode(lnRef + "." + Text(doi.name, ""), "CO")),
            Inside(doi.dais, DaiHere(templates, lnRef, lnType, doi.name)), Nowhere())
  }

  lemma OneDoiListed(templates: Option<Templates>, lnRef: string, lnType: Option<string>, doi: Doi)
    ensures Listed(DoiNodes(templates, lnRef, lnType, doi), DoiHere(templates, lnRef, lnType)(doi))
  {
    var emit, here := DaiEmitter(templates, lnRef, lnType, doi.name), DaiHere(templates, lnRef, lnType, doi.name);
    forall i | 0 <= i < |doi.dais| ensures Listed(emit(doi.dais[i]), here(doi.dais[i])) {
      var fc := FcOf(templates, lnType, doi.name, doi.dais[i]);
      ListedHere(fc != "", DataNode(lnRef + "." + Text(doi.name, "") + "." + Text(doi.dais[i], ""), fc));
    }
    ListedFlatMap(emit, doi.dais, here);
    var control, node := IsControlDoi(templates, lnType, doi), DataNode(lnRef + "." + Text(doi.name, ""), "CO");
    ListedHere(control, node);
    ListedNothing(Nowhere<DataNode>());
    var first, rest := if control then [node] else [], DaiNodes(templates, lnRef, lnType, doi.name, doi.dais);
    ListedParts(first, rest, [], Here(control, node), Inside(doi.dais, here), Nowhere());
    assert first + rest + [] == first + rest;
  }

  lemma DoiPlace(templates: Option<Templates>, lnRef: string, lnType: Option<string>, dois: seq<Doi>,
                 p: Place, node: DataNode)
    ensures Inside(dois, DoiHere(templates, lnRef, lnType))(p, node)
            <==> DoiNodesAt(templates, lnRef, lnType, dois)(p, node)
  {
    if p != [] && p[0] < |dois| {
      var q := p[1..];
      if q != [] {
        assert q[0] == p[1] && (q[1..] == [] <==> |p| == 2);
        if q[1..] != [] {
          assert q[1..][0] == p[2] && (q[1..][1..] == [] <==> |p| == 3);
        }
      }
    }
  }

  lemma DoisListed(templates: Option<Templates>, lnRef: string, lnType: Option<string>, dois: seq<Doi>)
    ensures Listed(AllDoiNodes(templates, lnRef, lnType, dois), DoiNodesAt(templates, lnRef, lnType, dois))
  {
    var here := DoiHere(templates, lnRef, lnType);
    forall i | 0 <= i < |dois| ensures Listed(DoiEmitter(templates, lnRef, lnType)(dois[i]), here(dois[i])) {
      OneDoiListed(templates, lnRef, lnType, dois[i]);
    }
    ListedFlatMap(DoiEmitter(templates, lnRef, lnType), dois, here);
    forall p, node
      ensures Inside(dois, here)(p, node) <==> DoiNodesAt(templates, lnRef, lnType, dois)(p, node)
    {
      DoiPlace(templates, lnRef, lnType, dois, p, node);
    }
    ListedSame(AllDoiNodes(templates, lnRef, lnType, dois), Inside(dois, here),
               DoiNodesAt(templates, lnRef, lnType, dois));
  }

  // ----- the attributes of a type -----

  /** At DOType with the id, and attribute with an fc. */
  ghost function AttributesAt(doPath: string, types: seq<DoType>, id: string): At<DataNode>
  {
    (p: Place, node: DataNode) =>
      |p| == 2 && p[0] < |types| && types[p[0]].id == id && p[1] < |types[p[0]].das|
      && types[p[0]].das[p[1]].fc == Some(node.fc)
      && node.path == doPath + "." + types[p[0]].das[p[1]].name
  }

  ghost function AttributeHere(doPath: string): DaElem -> At<DataNode>
  {
    (a: DaElem) => Here(a.fc.Some?, DataNode(doPath + "." + a.name, Text(a.fc, "")))
  }

  ghost function TypeHere(doPath: string, id: string): DoType -> At<DataNode>
  {
    (x: DoType) => if x.id == id then Inside(x.das, AttributeHere(doPath)) else Nowhere()
  }

  ghost function TypeEmitter(doPath: string, id: string): DoType -> seq<DataNode>
  {
    (x: DoType) => FlatMap(AttributeNode(doPath), DasWith(id)(x))
  }

  lemma DasListed(doPath: string, das: seq<DaElem>)
    ensures Listed(FlatMap(AttributeNode(doPath), das), Inside(das, AttributeHere(doPath)))
  {
    forall i | 0 <= i < |das| ensures Listed(AttributeNode(doPath)(das[i]), AttributeHere(doPath)(das[i])) {
      ListedHere(das[i].fc.Some?, DataNode(doPath + "." + das[i].name, Text(das[i].fc, "")));
    }
    ListedFlatMap(AttributeNode(doPath), das, AttributeHere(doPath));
  }

  lemma AttributePlace(doPath: string, types: seq<DoType>, id: string, p: Place, node: DataNode)
    ensures Inside(types, TypeHere(doPath, id))(p, node) <==> AttributesAt(doPath, types, id)(p, node)
  {
    if p != [] && p[0] < |types| && types[p[0]].id == id {
      var q := p[1..];
      if q != [] {
        assert q[0] == p[1] && (q[1..] == [] <==> |p| == 2);
      }
    }
  }

  lemma AttributesListed(doPath: string, types: seq<DoType>, id: string)
    ensures Listed(AttributeNodes(doPath, DasOf(types, id)), AttributesAt(doPath, types, id))
  {
    FlatMapCompose(DasWith(id), AttributeNode(doPath), TypeEmitter(doPath, id), types);
    forall i | 0 <= i < |types| ensures Listed(TypeEmitter(doPath, id)(types[i]), TypeHere(doPath, id)(types[i])) {
      if types[i].id == id {
        DasListed(doPath, types[i].das);
      } else {
        assert TypeEmitter(doPath, id)(types[i]) == [];
        ListedNothing(Nowhere<DataNode>());
      }
    }
    ListedFlatMap(TypeEmitter(doPath, id), types, TypeHere(doPath, id));
    forall p, node
      ensures Inside(types, TypeHere(doPath, id))(p, node) <==> AttributesAt(doPath, types, id)(p, node)
    {
      AttributePlace(doPath, types, id, p, node);
    }
    ListedSame(AttributeNodes(doPath, DasOf(types, id)), Inside(types, TypeHere(doPath, id)),
               AttributesAt(doPath, types, id));
  }

  // ----- the nodes of a logical node's type -----

  /** At LNodeType with the id, typed DO and 0: its control node. At LNodeType, DO, 1, DOType and
      attribute: the attribute's node. */
  ghost function TypeNodesAt(t: Templates, lnRef: string, lnType: string): At<DataNode>
  {
    (p: Place, node: DataNode) =>
      && 3 <= |p| && p[0] < |t.lnodeTypes| && t.lnodeTypes[p[0]].id == lnType
      && p[1] < |t.lnodeTypes[p[0]].dos|
      && var d := t.lnodeTypes[p[0]].dos[p[1]];
         d.typeId.Some?
         && (|| (p[2] == 0 && |p| == 3 && IsControl(Some(t), d.typeId.value)
                 && node == DataNode(lnRef + "." + d.name, "CO"))
             || (p[2] == 1 && |p| == 5 && p[3] < |t.doTypes| && t.doTypes[p[3]].id == d.typeId.value
                 && p[4] < |t.doTypes[p[3]].das|
                 && t.doTypes[p[3]].das[p[4]].fc == Some(node.fc)
                 && node.path == lnRef + "." + d.name + "." + t.doTypes[p[3]].das[p[4]].name))
  }

  ghost function DoHere(t: Templates, lnRef: string): DoElem -> At<DataNode>
  {
    (d: DoElem) =>
      if d.typeId.None? then Nowhere()
      else Parts(Here(IsControl(Some(t), d.typeId.value), DataNode(lnRef + "." + d.name, "CO")),
                 AttributesAt(lnRef + "." + d.name, t.doTypes, d.typeId.value), Nowhere())
  }

  ghost function LNodeTypeHere(t: Templates, lnRef: string, lnType: string): LNodeType -> At<DataNode>
  {
    (l: LNodeType) => if l.id == lnType then Inside(l.dos, DoHere(t, lnRef)) else Nowhere()
  }

  ghost function LNodeTypeEmitter(t: Templates, lnRef: string, lnType: string): LNodeType -> seq<DataNode>
  {
    (l: LNodeType) => FlatMap(DoEmitter(t, lnRef), DosWith(lnType)(l))
  }

  lemma OneDoListed(t: Templates, lnRef: string, d: DoElem)
    ensures Listed(DoNodes(t, lnRef, d), DoHere(t, lnRef)(d))
  {
    ListedNothing(Nowhere<DataNode>());
    if d.typeId.Some? {
      var control, node := IsControl(Some(t), d.typeId.value), DataNode(lnRef + "." + d.name, "CO");
      ListedHere(control, node);
      AttributesListed(lnRef + "." + d.name, t.doTypes, d.typeId.value);
      var first := if control then [node] else [];
      var rest := AttributeNodes(lnRef + "." + d.name, DasOf(t.doTypes, d.typeId.value));
      ListedParts(first, rest, [], Here(control, node),
                  AttributesAt(lnRef + "." + d.name, t.doTypes, d.typeId.value), Nowhere());
      assert first + rest + [] == first + rest;
    }
  }

  lemma DosListed(t: Templates, lnRef: string, dos: seq<DoElem>)
    ensures Listed(FlatMap(DoEmitter(t, lnRef), dos), Inside(dos, DoHere(t, lnRef)))
  {
    forall i | 0 <= i < |dos| ensures Listed(DoEmitter(t, lnRef)(dos[i]), DoHere(t, lnRef)(dos[i])) {
      OneDoListed(t, lnRef, dos[i]);
    }
    ListedFlatMap(DoEmitter(t, lnRef), dos, DoHere(t, lnRef));
  }

  lemma TypeNodePlace(t: Templates, lnRef: string, lnType: string, p: Place, node: DataNode)
    ensures Inside(t.lnodeTypes, LNodeTypeHere(t, lnRef, lnType))(p, node)
            <==> TypeNodesAt(t, lnRef, lnType)(p, node)
  {
    if p != [] && p[0] < |t.lnodeTypes| && t.lnodeTypes[p[0]].id == lnType {
      var dos, q := t.lnodeTypes[p[0]].dos, p[1..];
      if q != [] && q[0] < |dos| && dos[q[0]].typeId.Some? {
        var r := q[1..];
        assert q[0] == p[1];
        if r != [] {
          var s := r[1..];
          assert r[0] == p[2] && |s| == |p| - 3;
          if |s| == 2 {
            assert s[0] == p[3] && s[1] == p[4];
          }
        }
      }
    }
  }

  lemma TypeNodesListed(t: Templates, lnRef: string, lnType: string)
    ensures Listed(TemplateNodes(Some(t), lnRef, lnType), TypeNodesAt(t, lnRef, lnType))
  {
    var emit, here := LNodeTypeEmitter(t, lnRef, lnType), LNodeTypeHere(t, lnRef, lnType);
    FlatMapCompose(DosWith(lnType), DoEmitter(t, lnRef), emit, t.lnodeTypes);
    forall i | 0 <= i < |t.lnodeTypes| ensures Listed(emit(t.lnodeTypes[i]), here(t.lnodeTypes[i])) {
      if t.lnodeTypes[i].id == lnType {
        DosListed(t, lnRef, t.lnodeTypes[i].dos);
      } else {
        assert emit(t.lnodeTypes[i]) == [];
        ListedNothing(Nowhere<DataNode>());
      }
    }
    ListedFlatMap(emit, t.lnodeTypes, here);
    forall p, node ensures Inside(t.lnodeTypes, here)(p, node) <==> TypeNodesAt(t, lnRef, lnType)(p, node) {
      TypeNodePlace(t, lnRef, lnType, p, node);
    }
    ListedSame(TemplateNodes(Some(t), lnRef, lnType), Inside(t.lnodeTypes, here), TypeNodesAt(t, lnRef, lnType));
  }

  // ----- one logical node, and the document -----

  function Reference(site: Site): string
  {
    site.iedName + site.ldInst + "/" + Text(site.ln.lnClass, "") + Text(site.ln.inst, "")
  }

  /** The type's nodes are given only for a type attribute that is there and not empty. */
  ghost function SiteTypeNodesAt(templates: Option<Templates>, site: Site): At<DataNode>
  {
    if templates.Some? && site.ln.lnType.Some? && site.ln.lnType.value != ""
    then TypeNodesAt(templates.value, Reference(site), site.ln.lnType.value)
    else Nowhere()
  }

  /** At 0 the nodes of the data sets, at 1 those of the DOIs, at 2 those of the type. */
  ghost function SiteNodesAt(templates: Option<Templates>): Site -> At<DataNode>
  {
    (site: Site) =>
      Parts(FcdaNodesAt(site.iedName, site.ln.dataSets),
            DoiNodesAt(templates, Reference(site), site.ln.lnType, site.ln.dois),
            SiteTypeNodesAt(templates, site))
  }

  lemma SiteNodesListed(templates: Option<Templates>, site: Site)
    ensures Listed(LnResult(templates, site).nodes, SiteNodesAt(templates)(site))
  {
    var ln, lnRef := site.ln, Reference(site);
    FcdaNodesListed(site.iedName, ln.dataSets);
    DoisListed(templates, lnRef, ln.lnType, ln.dois);
    if templates.Some? && ln.lnType.Some? && ln.lnType.value != "" {
      TypeNodesListed(templates.value, lnRef, ln.lnType.value);
    } else {
      ListedNothing(Nowhere<DataNode>());
    }
    ListedParts(DataSetNodes(site.iedName, ln.dataSets), AllDoiNodes(templates, lnRef, ln.lnType, ln.dois),
                LnTemplateNodes(templates, lnRef, ln.lnType),
                FcdaNodesAt(site.iedName, ln.dataSets), DoiNodesAt(templates, lnRef, ln.lnType, ln.dois),
                SiteTypeNodesAt(templates, site));
  }

  /** What parsing a document yields: with its LNs and LN0s listed in document order, one data
      set for each DataSet, one report for each ReportControl and one node for each place that
      gives one, in the order of these nodes and then of the places in them. */
  lemma DocumentInOrder(doc: Document) returns (sites: seq<Site>)
    ensures Listed(sites, SiteAt(doc))
    ensures Listed(DocumentResult(doc).dataSets, Inside(sites, SiteDataSets()))
    ensures Listed(DocumentResult(doc).reports, Inside(sites, SiteReports()))
    ensures Listed(DocumentResult(doc).nodes, Inside(sites, SiteNodesAt(TemplatesOf(doc))))
  {
    sites := Sites(doc);
    SitesListed(doc);
    var templates := TemplatesOf(doc);
    JoinedParts(templates, sites);
    assert DocumentResult(doc) == SitesResult(templates, sites);
    forall i | 0 <= i < |sites| ensures Listed(DataSetsOf()(sites[i]), SiteDataSets()(sites[i])) {
      DataSetsListed(sites[i].iedName, sites[i].ln.dataSets);
    }
    ListedFlatMap(DataSetsOf(), sites, SiteDataSets());
    forall i | 0 <= i < |sites| ensures Listed(ReportsOf()(sites[i]), SiteReports()(sites[i])) {
      ReportsListed(sites[i].ln.reports);
    }
    ListedFlatMap(ReportsOf(), sites, SiteReports());
    forall i | 0 <= i < |sites| ensures Listed(NodesOf(templates)(sites[i]), SiteNodesAt(templates)(sites[i])) {
      SiteNodesListed(templates, sites[i]);
    }
    ListedFlatMap(NodesOf(templates), sites, SiteNodesAt(templates));
  }
}
