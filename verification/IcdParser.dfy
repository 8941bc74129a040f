/** The parser's own loops: cursors over siblings, early returns, results appended in place. */
module IcdParser {
  import opened Wrappers
  import opened IcdModel

  // ----- looking up a DO's type -----

  lemma {:induction false} FirstTypeIdAppend(front: seq<DoElem>, back: seq<DoElem>, doName: string)
    ensures FirstTypeId(front + back, doName)
            == if FirstTypeId(front, doName).Some? then FirstTypeId(front, doName) else FirstTypeId(back, doName)
  {
    if back == [] {
      assert front + back == front;
    } else {
      FirstTypeIdAppend(front, back[..|back| - 1], doName);
      assert (front + back)[..|front + back| - 1] == front + back[..|back| - 1];
    }
  }

  method FindTypeId(dos: seq<DoElem>, doName: string) returns (id: Option<string>)
    ensures id == FirstTypeId(dos, doName)
  {
    for j := 0 to |dos|
      invariant FirstTypeId(dos[..j], doName).None?
    {
      assert dos[..j + 1][..j] == dos[..j];
      if dos[j].name == doName {
        assert dos == dos[..j + 1] + dos[j + 1..];
        FirstTypeIdAppend(dos[..j + 1], dos[j + 1..], doName);
        return Some(OrElse(dos[j].typeId, ""));
      }
    }
    assert dos[..|dos|] == dos;
    return None;
  }

  method GetDoTypeId(templates: Option<Templates>, lnType: Option<string>, doName: Option<string>) returns (id: string)
    ensures id == TypeIdOf(templates, lnType, doName)
  {
    if lnType.None? || doName.None? || templates.None? {
      return "";
    }
    var lnts := templates.value.lnodeTypes;
    for i := 0 to |lnts|
      invariant FirstTypeId(DosOf(lnts[..i], lnType.value), doName.value).None?
    {
      FlatMapNext(DosWith(lnType.value), lnts, i);
      if lnts[i].id == lnType.value {
        var found := FindTypeId(lnts[i].dos, doName.value);
        FirstTypeIdAppend(DosOf(lnts[..i], lnType.value), lnts[i].dos, doName.value);
        if found.Some? {
          FlatMapSplit(DosWith(lnType.value), lnts, i + 1);
          FirstTypeIdAppend(DosOf(lnts[..i + 1], lnType.value), DosOf(lnts[i + 1..], lnType.value), doName.value);
          return found.value;
        }
      } else {
        assert DosOf(lnts[..i + 1], lnType.value) == DosOf(lnts[..i], lnType.value);
      }
    }
    assert lnts[..|lnts|] == lnts;
    return "";
  }

  // ----- is a DO type a control type -----

  lemma {:induction false} FirstControlStays(types: seq<DoType>, i: nat, id: string)
    requires i <= |types| && FirstControl(types[..i], id).Some?
    ensures FirstControl(types, id) == FirstControl(types[..i], id)
  {
    if i < |types| {
      var front := types[..|types| - 1];
      assert front[..i] == types[..i];
      FirstControlStays(front, i, id);
    } else {
      assert types[..i] == types;
    }
  }

  method IsControlObject(templates: Option<Templates>, doTypeId: string) returns (control: bool)
    ensures control == IsControl(templates, doTypeId)
  {
    if templates.None? {
      return false;
    }
    var types := templates.value.doTypes;
    for i := 0 to |types|
      invariant FirstControl(types[..i], doTypeId).None?
    {
      assert types[..i + 1][..i] == types[..i];
      if types[i].id == doTypeId {
        FirstControlStays(types, i + 1, doTypeId);
        return ControlCdc(types[i].cdc);
      }
    }
    assert types[..|types|] == types;
    return false;
  }

  // ----- looking up a functional constraint -----

  lemma {:induction false} FirstFcAppend(front: seq<DaElem>, back: seq<DaElem>, daName: string)
    ensures FirstFc(front + back, daName)
            == if FirstFc(front, daName).Some? then FirstFc(front, daName) else FirstFc(back, daName)
  {
    if back == [] {
      assert front + back == front;
    } else {
      FirstFcAppend(front, back[..|back| - 1], daName);
      assert (front + back)[..|front + back| - 1] == front + back[..|back| - 1];
    }
  }

  method FindInDas(das: seq<DaElem>, daName: string) returns (fc: Option<string>)
    ensures fc == FirstFc(das, daName)
  {
    for j := 0 to |das|
      invariant FirstFc(das[..j], daName).None?
    {
      assert das[..j + 1][..j] == das[..j];
      if das[j].name == daName {
        assert das == das[..j + 1] + das[j + 1..];
        FirstFcAppend(das[..j + 1], das[j + 1..], daName);
        return Some(OrElse(das[j].fc, ""));
      }
    }
    assert das[..|das|] == das;
    return None;
  }

  /** The DOType loop; it goes on past a type without a matching attribute. */
  method FindInTypes(types: seq<DoType>, typeId: string, daName: string) returns (fc: Option<string>)
    ensures fc == FirstFc(DasOf(types, typeId), daName)
  {
    for i := 0 to |types|
      invariant FirstFc(DasOf(types[..i], typeId), daName).None?
    {
      FlatMapNext(DasWith(typeId), types, i);
      if types[i].id == typeId {
        fc := FindInDas(types[i].das, daName);
        FirstFcAppend(DasOf(types[..i], typeId), types[i].das, daName);
        if fc.Some? {
          FlatMapSplit(DasWith(typeId), types, i + 1);
          FirstFcAppend(DasOf(types[..i + 1], typeId), DasOf(types[i + 1..], typeId), daName);
          return;
        }
      } else {
        assert DasOf(types[..i + 1], typeId) == DasOf(types[..i], typeId);
      }
    }
    assert types[..|types|] == types;
    return None;
  }

  /** The DO loop; it goes on past a DO whose type has no match. */
  method FindInDos(dos: seq<DoElem>, types: seq<DoType>, doName: string, daName: string) returns (fc: Option<string>)
    ensures fc == FirstFc(DasNamed(dos, types, doName), daName)
  {
    for j := 0 to |dos|
      invariant FirstFc(DasNamed(dos[..j], types, doName), daName).None?
    {
      FlatMapNext(DasThrough(types, doName), dos, j);
      if dos[j].name == doName && dos[j].typeId.Some? {
        fc := FindInTypes(types, dos[j].typeId.value, daName);
        FirstFcAppend(DasNamed(dos[..j], types, doName), DasOf(types, dos[j].typeId.value), daName);
        if fc.Some? {
          FlatMapSplit(DasThrough(types, doName), dos, j + 1);
          FirstFcAppend(DasNamed(dos[..j + 1], types, doName), DasNamed(dos[j + 1..], types, doName), daName);
          return;
        }
      } else {
        assert DasNamed(dos[..j + 1], types, doName) == DasNamed(dos[..j], types, doName);
      }
    }
    assert dos[..|dos|] == dos;
    return None;
  }

  method GetFcFromDoType(templates: Option<Templates>, lnType: Option<string>, doName: Option<string>,
                         daName: Option<string>) returns (fc: string)
    ensures fc == FcOf(templates, lnType, doName, daName)
  {
    if lnType.None? || doName.None? || daName.None? || templates.None? {
      return "";
    }
    var lnts, types := templates.value.lnodeTypes, templates.value.doTypes;
    for i := 0 to |lnts|
      invariant FirstFc(DasNamed(DosOf(lnts[..i], lnType.value), types, doName.value), daName.value).None?
    {
      FlatMapNext(DosWith(lnType.value), lnts, i);
      if lnts[i].id == lnType.value {
        var found := FindInDos(lnts[i].dos, types, doName.value, daName.value);
        DasNamedSplit(DosOf(lnts[..i], lnType.value), lnts[i].dos, types, doName.value, daName.value);
        if found.Some? {
          FlatMapSplit(DosWith(lnType.value), lnts, i + 1);
          DasNamedSplit(DosOf(lnts[..i + 1], lnType.value), DosOf(lnts[i + 1..], lnType.value),
                        types, doName.value, daName.value);
          return found.value;
        }
      } else {
        assert DosOf(lnts[..i + 1], lnType.value) == DosOf(lnts[..i], lnType.value);
      }
    }
    assert lnts[..|lnts|] == lnts;
    return "";
  }

  lemma DasNamedSplit(front: seq<DoElem>, back: seq<DoElem>, types: seq<DoType>, doName: string, daName: string)
    ensures FirstFc(DasNamed(front + back, types, doName), daName)
            == if FirstFc(DasNamed(front, types, doName), daName).Some?
               then FirstFc(DasNamed(front, types, doName), daName)
               else FirstFc(DasNamed(back, types, doName), daName)
  {
    FlatMapAppend(DasThrough(types, doName), front, back);
    FirstFcAppend(DasNamed(front, types, doName), DasNamed(back, types, doName), daName);
  }

  // ----- enumeration -----

  method ExtractAttributes(doPath: string, das: seq<DaElem>, nodes: seq<DataNode>) returns (more: seq<DataNode>)
    ensures more == nodes + AttributeNodes(doPath, das)
  {
    more := nodes;
    for j := 0 to |das|
      invariant more == nodes + AttributeNodes(doPath, das[..j])
    {
      FlatMapNext(AttributeNode(doPath), das, j);
      if das[j].fc.Some? {
        more := more + [DataNode(doPath + "." + das[j].name, das[j].fc.value)];
      }
    }
    assert das[..|das|] == das;
  }

  method ExtractTypes(doPath: string, types: seq<DoType>, typeId: string, nodes: seq<DataNode>)
    returns (more: seq<DataNode>)
    ensures more == nodes + AttributeNodes(doPath, DasOf(types, typeId))
  {
    more := nodes;
    for i := 0 to |types|
      invariant more == nodes + AttributeNodes(doPath, DasOf(types[..i], typeId))
    {
      FlatMapNext(DasWith(typeId), types, i);
      if types[i].id == typeId {
        FlatMapAppend(AttributeNode(doPath), DasOf(types[..i], typeId), types[i].das);
        more := ExtractAttributes(doPath, types[i].das, more);
      } else {
        assert DasOf(types[..i + 1], typeId) == DasOf(types[..i], typeId);
      }
    }
    assert types[..|types|] == types;
  }

  method ExtractDo(templates: Templates, lnRef: string, d: DoElem, nodes: seq<DataNode>) returns (more: seq<DataNode>)
    ensures more == nodes + DoNodes(templates, lnRef, d)
  {
    more := nodes;
    if d.typeId.Some? {
      var doPath := lnRef + "." + d.name;
      var control := IsControlObject(Some(templates), d.typeId.value);
      if control {
        more := more + [DataNode(doPath, "CO")];
      }
      more := ExtractTypes(doPath, templates.doTypes, d.typeId.value, more);
    }
  }

  method ExtractDos(templates: Templates, lnRef: string, dos: seq<DoElem>, nodes: seq<DataNode>)
    returns (more: seq<DataNode>)
    ensures more == nodes + AllDoNodes(templates, lnRef, dos)
  {
    more := nodes;
    for j := 0 to |dos|
      invariant more == nodes + AllDoNodes(templates, lnRef, dos[..j])
    {
      FlatMapNext(DoEmitter(templates, lnRef), dos, j);
      more := ExtractDo(templates, lnRef, dos[j], more);
    }
    assert dos[..|dos|] == dos;
  }

  lemma NextType(t: Templates, lnRef: string, lnts: seq<LNodeType>, i: nat, lnType: string)
    requires i < |lnts|
    ensures AllDoNodes(t, lnRef, DosOf(lnts[..i + 1], lnType))
            == AllDoNodes(t, lnRef, DosOf(lnts[..i], lnType))
               + if lnts[i].id == lnType then AllDoNodes(t, lnRef, lnts[i].dos) else []
  {
    FlatMapNext(DosWith(lnType), lnts, i);
    if lnts[i].id == lnType {
      FlatMapAppend(DoEmitter(t, lnRef), DosOf(lnts[..i], lnType), lnts[i].dos);
    } else {
      assert DosOf(lnts[..i + 1], lnType) == DosOf(lnts[..i], lnType);
    }
  }

  method ExtractLNodeTypes(t: Templates, lnRef: string, lnType: string, nodes: seq<DataNode>)
    returns (more: seq<DataNode>)
    ensures more == nodes + AllDoNodes(t, lnRef, DosOf(t.lnodeTypes, lnType))
  {
    more := nodes;
    var lnts := t.lnodeTypes;
    ghost var emitted: seq<DataNode> := [];
    for i := 0 to |lnts|
      invariant emitted == AllDoNodes(t, lnRef, DosOf(lnts[..i], lnType)) && more == nodes + emitted
    {
      NextType(t, lnRef, lnts, i, lnType);
      if lnts[i].id == lnType {
        more := ExtractDos(t, lnRef, lnts[i].dos, more);
        emitted := emitted + AllDoNodes(t, lnRef, lnts[i].dos);
      }
    }
    assert lnts[..|lnts|] == lnts;
  }

  method ExtractAllDoDa(templates: Option<Templates>, lnRef: string, lnType: string, nodes: seq<DataNode>)
    returns (more: seq<DataNode>)
    ensures more == nodes + TemplateNodes(templates, lnRef, lnType)
  {
    more := nodes;
    if templates.Some? {
      more := ExtractLNodeTypes(templates.value, lnRef, lnType, nodes);
    }
  }

  // ----- one logical node -----

  method ParseFcdas(iedName: string, fcdas: seq<Fcda>, nodes: seq<DataNode>)
    returns (paths: seq<string>, more: seq<DataNode>)
    ensures paths == FcdaPaths(iedName, fcdas) && more == nodes + FcdaNodes(iedName, fcdas)
  {
    paths, more := [], nodes;
    for i := 0 to |fcdas|
      invariant paths == FcdaPaths(iedName, fcdas[..i]) && more == nodes + FcdaNodes(iedName, fcdas[..i])
    {
      assert fcdas[..i + 1][..i] == fcdas[..i];
      var path := FcdaPath(iedName, fcdas[i]);
      if fcdas[i].fc.Some? {
        paths := paths + [path];
        more := more + [DataNode(path, fcdas[i].fc.value)];
      }
    }
    assert fcdas[..|fcdas|] == fcdas;
  }

  method ParseDataSets(iedName: string, dataSets: seq<DataSet>, nodes: seq<DataNode>)
    returns (infos: seq<DataSetInfo>, more: seq<DataNode>)
    ensures infos == DataSetInfos(iedName, dataSets) && more == nodes + DataSetNodes(iedName, dataSets)
  {
    infos, more := [], nodes;
    for i := 0 to |dataSets|
      invariant |infos| == i && forall k :: 0 <= k < i ==>
        infos[k] == DataSetInfo(OrElse(dataSets[k].name, ""), FcdaPaths(iedName, dataSets[k].fcdas))
      invariant more == nodes + DataSetNodes(iedName, dataSets[..i])
    {
      assert dataSets[..i + 1][..i] == dataSets[..i];
      var paths;
      paths, more := ParseFcdas(iedName, dataSets[i].fcdas, more);
      infos := infos + [DataSetInfo(OrElse(dataSets[i].name, ""), paths)];
    }
    assert dataSets[..|dataSets|] == dataSets;
  }

  method ParseReports(controls: seq<ReportControl>) returns (reports: seq<ReportInfo>)
    ensures reports == ReportInfos(controls)
  {
    reports := [];
    for i := 0 to |controls|
      invariant |reports| == i && forall k :: 0 <= k < i ==> reports[k] == ReportOf(controls[k])
    {
      reports := reports + [ReportOf(controls[i])];
    }
  }

  method ParseDais(templates: Option<Templates>, lnRef: string, lnType: Option<string>, doName: Option<string>,
                   dais: seq<Option<string>>, nodes: seq<DataNode>) returns (more: seq<DataNode>)
    ensures more == nodes + DaiNodes(templates, lnRef, lnType, doName, dais)
  {
    more := nodes;
    for i := 0 to |dais|
      invariant more == nodes + DaiNodes(templates, lnRef, lnType, doName, dais[..i])
    {
      FlatMapNext(DaiEmitter(templates, lnRef, lnType, doName), dais, i);
      var fc := GetFcFromDoType(templates, lnType, doName, dais[i]);
      if fc != "" {
        more := more + [DataNode(lnRef + "." + OrElse(doName, "") + "." + OrElse(dais[i], ""), fc)];
      }
    }
    assert dais[..|dais|] == dais;
  }

  method ParseDoi(templates: Option<Templates>, lnRef: string, lnType: Option<string>, doi: Doi)
    returns (more: seq<DataNode>)
    ensures more == DoiNodes(templates, lnRef, lnType, doi)
  {
    more := [];
    var id := GetDoTypeId(templates, lnType, doi.name);
    if id != "" {
      var control := IsControlObject(templates, id);
      if control {
        more := more + [DataNode(lnRef + "." + OrElse(doi.name, ""), "CO")];
      }
    }
    more := ParseDais(templates, lnRef, lnType, doi.name, doi.dais, more);
  }

  lemma NextDoi(templates: Option<Templates>, lnRef: string, lnType: Option<string>, dois: seq<Doi>, i: nat)
    requires i < |dois|
    ensures AllDoiNodes(templates, lnRef, lnType, dois[..i + 1])
            == AllDoiNodes(templates, lnRef, lnType, dois[..i]) + DoiNodes(templates, lnRef, lnType, dois[i])
  {
    FlatMapNext(DoiEmitter(templates, lnRef, lnType), dois, i);
  }

  method ParseDois(templates: Option<Templates>, lnRef: string, lnType: Option<string>, dois: seq<Doi>,
                   nodes: seq<DataNode>) returns (more: seq<DataNode>)
    ensures more == nodes + AllDoiNodes(templates, lnRef, lnType, dois)
  {
    var added := [];
    for i := 0 to |dois|
      invariant added == AllDoiNodes(templates, lnRef, lnType, dois[..i])
    {
      NextDoi(templates, lnRef, lnType, dois, i);
      var own := ParseDoi(templates, lnRef, lnType, dois[i]);
      added := added + own;
    }
    more := nodes + added;
    assert dois[..|dois|] == dois;
  }

  method ParseTemplates(templates: Option<Templates>, lnRef: string, lnType: Option<string>, nodes: seq<DataNode>)
    returns (more: seq<DataNode>)
    ensures more == nodes + LnTemplateNodes(templates, lnRef, lnType)
  {
    more := nodes;
    if OrElse(lnType, "") != "" {
      more := ExtractAllDoDa(templates, lnRef, OrElse(lnType, ""), nodes);
    }
  }

  lemma Regroup<T>(s: seq<T>, a: seq<T>, b: seq<T>, c: seq<T>)
    ensures s + a + b + c == s + (a + b + c)
  {
  }

  method ParseLn(templates: Option<Templates>, site: Site, result: ParseResult) returns (more: ParseResult)
    ensures more == Join(result, LnResult(templates, site))
  {
    var ln := site.ln;
    var lnRef := LnRef(site.iedName, site.ldInst, ln);
    var infos, nodes := ParseDataSets(site.iedName, ln.dataSets, result.nodes);
    var reports := ParseReports(ln.reports);
    nodes := ParseDois(templates, lnRef, ln.lnType, ln.dois, nodes);
    nodes := ParseTemplates(templates, lnRef, ln.lnType, nodes);
    Regroup(result.nodes, DataSetNodes(site.iedName, ln.dataSets), AllDoiNodes(templates, lnRef, ln.lnType, ln.dois),
            LnTemplateNodes(templates, lnRef, ln.lnType));
    more := ParseResult(nodes, result.dataSets + infos, result.reports + reports);
  }

  // ----- the document -----

  lemma JoinAssociative(a: ParseResult, b: ParseResult, c: ParseResult)
    ensures Join(Join(a, b), c) == Join(a, Join(b, c))
  {
  }

  lemma {:induction false} JoinAllAppend(f: Site -> ParseResult, front: seq<Site>, back: seq<Site>)
    ensures JoinAll(f, front + back) == Join(JoinAll(f, front), JoinAll(f, back))
  {
    if back == [] {
      assert front + back == front;
      var whole := JoinAll(f, front);
      assert Join(whole, ParseResult([], [], [])) == whole;
    } else {
      var n := |back| - 1;
      JoinAllAppend(f, front, back[..n]);
      assert (front + back)[..|front + back| - 1] == front + back[..n];
      JoinAssociative(JoinAll(f, front), JoinAll(f, back[..n]), f(back[n]));
    }
  }

  /** Appending to a result what further logical nodes contribute. */
  lemma JoinSites(templates: Option<Templates>, result: ParseResult, front: seq<Site>, back: seq<Site>)
    ensures Join(Join(result, SitesResult(templates, front)), SitesResult(templates, back))
            == Join(result, SitesResult(templates, front + back))
  {
    JoinAllAppend(SiteResult(templates), front, back);
    JoinAssociative(result, SitesResult(templates, front), SitesResult(templates, back));
  }

  lemma OneSite(templates: Option<Templates>, site: Site)
    ensures SitesResult(templates, [site]) == LnResult(templates, site)
  {
    var f, one := SiteResult(templates), LnResult(templates, site);
    assert [site][..0] == [] && JoinAll(f, []) == ParseResult([], [], []);
    assert JoinAll(f, [site]) == Join(JoinAll(f, []), f(site));
    assert Join(ParseResult([], [], []), one) == one;
  }

  method ParseDevice(templates: Option<Templates>, iedName: string, device: LDevice, result: ParseResult)
    returns (more: ParseResult)
    ensures more == Join(result, SitesResult(templates,
      LnSites(iedName, OrElse(device.inst, "UnknownLDevice"), device.children)))
  {
    more := result;
    var ldInst, lns := OrElse(device.inst, "UnknownLDevice"), device.children;
    for i := 0 to |lns|
      invariant more == Join(result, SitesResult(templates, LnSites(iedName, ldInst, lns[..i])))
    {
      assert lns[..i + 1][..i] == lns[..i];
      if IsLn(lns[i]) {
        var site := Site(iedName, ldInst, lns[i]);
        more := ParseLn(templates, site, more);
        OneSite(templates, site);
        JoinSites(templates, result, LnSites(iedName, ldInst, lns[..i]), [site]);
      } else {
        assert LnSites(iedName, ldInst, lns[..i + 1]) == LnSites(iedName, ldInst, lns[..i]);
      }
    }
    assert lns[..|lns|] == lns;
  }

  method ParseServer(templates: Option<Templates>, iedName: string, devices: seq<LDevice>, result: ParseResult)
    returns (more: ParseResult)
    ensures more == Join(result, SitesResult(templates, DeviceSites(iedName, devices)))
  {
    more := result;
    for i := 0 to |devices|
      invariant more == Join(result, SitesResult(templates, DeviceSites(iedName, devices[..i])))
    {
      assert devices[..i + 1][..i] == devices[..i];
      more := ParseDevice(templates, iedName, devices[i], more);
      JoinSites(templates, result, DeviceSites(iedName, devices[..i]),
                LnSites(iedName, OrElse(devices[i].inst, "UnknownLDevice"), devices[i].children));
    }
    assert devices[..|devices|] == devices;
  }

  method ParseAccessPoints(templates: Option<Templates>, iedName: string, points: seq<AccessPoint>, result: ParseResult)
    returns (more: ParseResult)
    ensures more == Join(result, SitesResult(templates, PointSites(iedName, points)))
  {
    more := result;
    for i := 0 to |points|
      invariant more == Join(result, SitesResult(templates, PointSites(iedName, points[..i])))
    {
      assert points[..i + 1][..i] == points[..i];
      if points[i].server.Some? {
        more := ParseServer(templates, iedName, points[i].server.value, more);
        JoinSites(templates, result, PointSites(iedName, points[..i]), DeviceSites(iedName, points[i].server.value));
      } else {
        assert PointSites(iedName, points[..i + 1]) == PointSites(iedName, points[..i]);
      }
    }
    assert points[..|points|] == points;
  }

  method Parse(doc: Document) returns (result: ParseResult)
    ensures result == DocumentResult(doc)
  {
    result := ParseResult([], [], []);
    if doc.Loaded? {
      var ieds, templates := doc.scl.ieds, doc.scl.templates;
      ghost var start := result;
      for i := 0 to |ieds|
        invariant result == Join(start, SitesResult(templates, IedSites(ieds[..i])))
      {
        assert ieds[..i + 1][..i] == ieds[..i];
        var iedName := OrElse(ieds[i].name, "UnknownIED");
        result := ParseAccessPoints(templates, iedName, ieds[i].accessPoints, result);
        JoinSites(templates, start, IedSites(ieds[..i]), PointSites(iedName, ieds[i].accessPoints));
      }
      assert ieds[..|ieds|] == ieds;
    }
  }
}
