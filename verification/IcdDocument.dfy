/** What parsing yields, told from the document: every item with the place it stands at, one
    for each place and in document order. */
module IcdDocument {
  import opened Wrappers
  import opened Places
  import opened IcdModel

  /** An attribute's text, and what stands for it when it is missing. */
  function Text(o: Option<string>, missing: string): string
  {
    match o case Some(s) => s case None => missing
  }

  // ----- the logical nodes -----

  /** At IED, access point with a server, device and child: an LN or LN0, with the names of its
      IED and its device. */
  ghost function SiteAt(doc: Document): At<Site>
  {
    (p: Place, site: Site) =>
      && doc.Loaded? && |p| == 4
      && p[0] < |doc.scl.ieds|
      && p[1] < |doc.scl.ieds[p[0]].accessPoints|
      && doc.scl.ieds[p[0]].accessPoints[p[1]].server.Some?
      && var ied, devices := doc.scl.ieds[p[0]], doc.scl.ieds[p[0]].accessPoints[p[1]].server.value;
         p[2] < |devices| && p[3] < |devices[p[2]].children|
         && var child := devices[p[2]].children[p[3]];
            (child.tag == "LN" || child.tag == "LN0")
            && site == Site(Text(ied.name, "UnknownIED"), Text(devices[p[2]].inst, "UnknownLDevice"), child)
  }

  ghost function ChildPlaces(iedName: string, ldInst: string): Ln -> At<Site>
  {
    (ln: Ln) => Here(ln.tag == "LN" || ln.tag == "LN0", Site(iedName, ldInst, ln))
  }

  ghost function DevicePlaces(iedName: string): LDevice -> At<Site>
  {
    (d: LDevice) => Inside(d.children, ChildPlaces(iedName, Text(d.inst, "UnknownLDevice")))
  }

  ghost function PointPlaces(iedName: string): AccessPoint -> At<Site>
  {
    (p: AccessPoint) => if p.server.Some? then Inside(p.server.value, DevicePlaces(iedName)) else Nowhere()
  }

  ghost function IedPlaces(): Ied -> At<Site>
  {
    (ied: Ied) => Inside(ied.accessPoints, PointPlaces(Text(ied.name, "UnknownIED")))
  }

  lemma ChildrenListed(iedName: string, ldInst: string, children: seq<Ln>)
    ensures Listed(LnSites(iedName, ldInst, children), Inside(children, ChildPlaces(iedName, ldInst)))
  {
    forall i | 0 <= i < |children|
      ensures Listed(SiteIfLn(iedName, ldInst)(children[i]), ChildPlaces(iedName, ldInst)(children[i]))
    {
      var ln := children[i];
      ListedHere(ln.tag == "LN" || ln.tag == "LN0", Site(iedName, ldInst, ln));
    }
    ListedFlatMap(SiteIfLn(iedName, ldInst), children, ChildPlaces(iedName, ldInst));
  }

  lemma DevicesListed(iedName: string, devices: seq<LDevice>)
    ensures Listed(DeviceSites(iedName, devices), Inside(devices, DevicePlaces(iedName)))
  {
    forall i | 0 <= i < |devices|
      ensures Listed(SitesOfDevice(iedName)(devices[i]), DevicePlaces(iedName)(devices[i]))
    {
      ChildrenListed(iedName, Text(devices[i].inst, "UnknownLDevice"), devices[i].children);
    }
    ListedFlatMap(SitesOfDevice(iedName), devices, DevicePlaces(iedName));
  }

  lemma PointsListed(iedName: string, points: seq<AccessPoint>)
    ensures Listed(PointSites(iedName, points), Inside(points, PointPlaces(iedName)))
  {
    forall i | 0 <= i < |points|
      ensures Listed(SitesOfPoint(iedName)(points[i]), PointPlaces(iedName)(points[i]))
    {
      if points[i].server.Some? {
        DevicesListed(iedName, points[i].server.value);
      } else {
        ListedNothing(Nowhere<Site>());
      }
    }
    ListedFlatMap(SitesOfPoint(iedName), points, PointPlaces(iedName));
  }

  lemma IedsListed(ieds: seq<Ied>)
    ensures Listed(IedSites(ieds), Inside(ieds, IedPlaces()))
  {
    forall i | 0 <= i < |ieds| ensures Listed(SitesOfIed()(ieds[i]), IedPlaces()(ieds[i])) {
      PointsListed(Text(ieds[i].name, "UnknownIED"), ieds[i].accessPoints);
    }
    ListedFlatMap(SitesOfIed(), ieds, IedPlaces());
  }

  /** The logical nodes that are parsed, in document order: every LN and LN0 that stands in a
      device of a server. */
  lemma SitesListed(doc: Document)
    ensures Listed(Sites(doc), SiteAt(doc))
  {
    if doc.Loaded? {
      IedsListed(doc.scl.ieds);
      forall p, site ensures Inside(doc.scl.ieds, IedPlaces())(p, site) <==> SiteAt(doc)(p, site) {
        SitePlaceFlat(doc, p, site);
      }
      ListedSame(Sites(doc), Inside(doc.scl.ieds, IedPlaces()), SiteAt(doc));
    } else {
      ListedNothing(SiteAt(doc));
    }
  }

  lemma SitePlaceFlat(doc: Document, p: Place, site: Site)
    requires doc.Loaded?
    ensures Inside(doc.scl.ieds, IedPlaces())(p, site) <==> SiteAt(doc)(p, site)
  {
    if p != [] && p[0] < |doc.scl.ieds| {
      var ied, q := doc.scl.ieds[p[0]], p[1..];
      if q != [] && q[0] < |ied.accessPoints| && ied.accessPoints[q[0]].server.Some? {
        var devices, r := ied.accessPoints[q[0]].server.value, q[1..];
        assert q[0] == p[1];
        if r != [] && r[0] < |devices| {
          var t := r[1..];
          assert r[0] == p[2];
          if t != [] && t[0] < |devices[r[0]].children| {
            assert t[0] == p[3] && (t[1..] == [] <==> |p| == 4);
          }
        }
      }
    }
  }

  // ----- joining what the logical nodes yield -----

  ghost function NodesOf(templates: Option<Templates>): Site -> seq<DataNode>
  {
    (site: Site) => LnResult(templates, site).nodes
  }

  ghost function DataSetsOf(): Site -> seq<DataSetInfo>
  {
    (site: Site) => DataSetInfos(site.iedName, site.ln.dataSets)
  }

  ghost function ReportsOf(): Site -> seq<ReportInfo>
  {
    (site: Site) => ReportInfos(site.ln.reports)
  }

  lemma {:induction false} JoinedParts(templates: Option<Templates>, sites: seq<Site>)
    ensures SitesResult(templates, sites)
            == ParseResult(FlatMap(NodesOf(templates), sites), FlatMap(DataSetsOf(), sites),
                           FlatMap(ReportsOf(), sites))
  {
    if sites != [] {
      JoinedParts(templates, sites[..|sites| - 1]);
    }
  }

  // ----- reports -----

  ghost function ReportsAt(controls: seq<ReportControl>): At<ReportInfo>
  {
    (p: Place, r: ReportInfo) =>
      |p| == 1 && p[0] < |controls|
      && r == ReportInfo(Text(controls[p[0]].name, ""), Text(controls[p[0]].datSet, ""), controls[p[0]].buffered)
  }

  ghost function SiteReports(): Site -> At<ReportInfo>
  {
    (site: Site) => ReportsAt(site.ln.reports)
  }

  lemma ReportsListed(controls: seq<ReportControl>)
    ensures Listed(ReportInfos(controls), ReportsAt(controls))
  {
    var infos := ReportInfos(controls);
    ListedIndexed(infos);
    forall p, r ensures Indexed(infos)(p, r) <==> ReportsAt(controls)(p, r) {
      ReportPlace(controls, p, r);
    }
    ListedSame(infos, Indexed(infos), ReportsAt(controls));
  }

  lemma ReportPlace(controls: seq<ReportControl>, p: Place, r: ReportInfo)
    ensures Indexed(ReportInfos(controls))(p, r) <==> ReportsAt(controls)(p, r)
  {
    assert |ReportInfos(controls)| == |controls|;
  }

  // ----- data sets -----

  /** The path of an FCDA; missing parts are empty, and a missing attribute name adds none. */
  function PathText(iedName: string, f: Fcda): string
  {
    iedName + Text(f.ldInst, "") + "/" + Text(f.lnClass, "") + Text(f.lnInst, "") + "." + Text(f.doName, "")
    + (match f.daName case Some(daName) => "." + daName case None => "")
  }

  /** The paths of the FCDAs that have an fc. */
  ghost function PathsAt(iedName: string, fcdas: seq<Fcda>): At<string>
  {
    (p: Place, path: string) =>
      |p| == 1 && p[0] < |fcdas| && fcdas[p[0]].fc.Some? && path == PathText(iedName, fcdas[p[0]])
  }

  ghost function DataSetsAt(iedName: string, dataSets: seq<DataSet>): At<DataSetInfo>
  {
    (p: Place, d: DataSetInfo) =>
      |p| == 1 && p[0] < |dataSets| && d.name == Text(dataSets[p[0]].name, "")
      && Listed(d.fcdaPaths, PathsAt(iedName, dataSets[p[0]].fcdas))
  }

  ghost function SiteDataSets(): Site -> At<DataSetInfo>
  {
    (site: Site) => DataSetsAt(site.iedName, site.ln.dataSets)
  }

  ghost function PathHere(iedName: string): Fcda -> At<string>
  {
    (f: Fcda) => Here(f.fc.Some?, PathText(iedName, f))
  }

  lemma PathsListed(iedName: string, fcdas: seq<Fcda>)
    ensures Listed(FcdaPaths(iedName, fcdas), PathsAt(iedName, fcdas))
  {
    forall i | 0 <= i < |fcdas| ensures Listed(PathIfAny(iedName)(fcdas[i]), PathHere(iedName)(fcdas[i])) {
      ListedHere(fcdas[i].fc.Some?, PathText(iedName, fcdas[i]));
    }
    ListedFlatMap(PathIfAny(iedName), fcdas, PathHere(iedName));
    ListedSame(FcdaPaths(iedName, fcdas), Inside(fcdas, PathHere(iedName)), PathsAt(iedName, fcdas));
  }

  lemma DataSetsListed(iedName: string, dataSets: seq<DataSet>)
    ensures Listed(DataSetInfos(iedName, dataSets), DataSetsAt(iedName, dataSets))
  {
    var infos := DataSetInfos(iedName, dataSets);
    ListedIndexed(infos);
    forall p, d ensures Indexed(infos)(p, d) <==> DataSetsAt(iedName, dataSets)(p, d) {
      DataSetPlace(iedName, dataSets, p, d);
    }
    ListedSame(infos, Indexed(infos), DataSetsAt(iedName, dataSets));
  }

  lemma DataSetPlace(iedName: string, dataSets: seq<DataSet>, p: Place, d: DataSetInfo)
    ensures Indexed(DataSetInfos(iedName, dataSets))(p, d) <==> DataSetsAt(iedName, dataSets)(p, d)
  {
    if |p| == 1 && p[0] < |dataSets| {
      OneDataSet(iedName, dataSets[p[0]], d);
    }
  }

  lemma OneDataSet(iedName: string, dataSet: DataSet, d: DataSetInfo)
    ensures d == DataSetInfo(OrElse(dataSet.name, ""), FcdaPaths(iedName, dataSet.fcdas))
            <==> d.name == Text(dataSet.name, "") && Listed(d.fcdaPaths, PathsAt(iedName, dataSet.fcdas))
  {
    PathsListed(iedName, dataSet.fcdas);
    if Listed(d.fcdaPaths, PathsAt(iedName, dataSet.fcdas)) {
      ListedUnique(d.fcdaPaths, FcdaPaths(iedName, dataSet.fcdas), PathsAt(iedName, dataSet.fcdas));
    }
  }

  /** Splitting at the first `c` is forced when it is in neither left part. */
  lemma SplitAtFirst(a: string, b: string, a2: string, b2: string, c: char)
    requires a + [c] + b == a2 + [c] + b2 && c !in a && c !in a2
    ensures a == a2 && b == b2
  {
    var left, right := a + [c] + b, a2 + [c] + b2;
    assert left[|a|] == c && right[|a2|] == c;
    assert forall i :: 0 <= i < |a| ==> left[i] == a[i] != c;
    assert forall i :: 0 <= i < |a2| ==> right[i] == a2[i] != c;
    assert |a| == |a2|;
    assert left[..|a|] == a && right[..|a2|] == a2 && left[|a| + 1..] == b && right[|a2| + 1..] == b2;
  }

  function DeviceText(iedName: string, f: Fcda): string
  {
    iedName + Text(f.ldInst, "")
  }

  function NodeText(f: Fcda): string
  {
    Text(f.lnClass, "") + Text(f.lnInst, "")
  }

  /** An FCDA's path tells its parts: the device up to the first slash, the logical node up to
      the first dot after it, the data object, and whether there is an attribute and which --
      for device names without a slash and logical node and object names without a dot. */
  lemma PathTellsParts(iedName: string, f: Fcda, iedName2: string, g: Fcda)
    requires PathText(iedName, f) == PathText(iedName2, g)
    requires '/' !in DeviceText(iedName, f) && '/' !in DeviceText(iedName2, g)
    requires '.' !in NodeText(f) && '.' !in NodeText(g)
    requires '.' !in Text(f.doName, "") && '.' !in Text(g.doName, "")
    ensures DeviceText(iedName, f) == DeviceText(iedName2, g) && NodeText(f) == NodeText(g)
    ensures Text(f.doName, "") == Text(g.doName, "") && f.daName == g.daName
  {
    PathSplits(iedName, f);
    PathSplits(iedName2, g);
    SplitAtFirst(DeviceText(iedName, f), NodeText(f) + "." + ObjectText(f),
                 DeviceText(iedName2, g), NodeText(g) + "." + ObjectText(g), '/');
    SplitAtFirst(NodeText(f), ObjectText(f), NodeText(g), ObjectText(g), '.');
    ObjectTellsParts(f, g);
  }

  function ObjectText(f: Fcda): string
  {
    Text(f.doName, "") + (match f.daName case Some(daName) => "." + daName case None => "")
  }

  lemma PathSplits(iedName: string, f: Fcda)
    ensures PathText(iedName, f) == DeviceText(iedName, f) + "/" + (NodeText(f) + "." + ObjectText(f))
  {
  }

  lemma ObjectTellsParts(f: Fcda, g: Fcda)
    requires ObjectText(f) == ObjectText(g) && '.' !in Text(f.doName, "") && '.' !in Text(g.doName, "")
    ensures Text(f.doName, "") == Text(g.doName, "") && f.daName == g.daName
  {
    DottedIffAttribute(f);
    DottedIffAttribute(g);
    if f.daName.Some? {
      var a, b := Text(f.doName, ""), Text(g.doName, "");
      assert a + "." + f.daName.value == ObjectText(f) && b + "." + g.daName.value == ObjectText(g);
      SplitAtFirst(a, f.daName.value, b, g.daName.value, '.');
    }
  }

  lemma DottedIffAttribute(f: Fcda)
    requires '.' !in Text(f.doName, "")
    ensures '.' in ObjectText(f) <==> f.daName.Some?
    ensures f.daName.None? ==> ObjectText(f) == Text(f.doName, "")
  {
    if f.daName.Some? {
      assert ObjectText(f)[|Text(f.doName, "")|] == '.';
    }
  }

  // ----- nodes -----

  /** The nodes of the FCDAs that have an fc: at data set and FCDA. */
  ghost function FcdaNodesAt(iedName: string, dataSets: seq<DataSet>): At<DataNode>
  {
    (p: Place, node: DataNode) =>
      |p| == 2 && p[0] < |dataSets| && p[1] < |dataSets[p[0]].fcdas|
      && dataSets[p[0]].fcdas[p[1]].fc.Some?
      && node == DataNode(PathText(iedName, dataSets[p[0]].fcdas[p[1]]), dataSets[p[0]].fcdas[p[1]].fc.value)
  }

  ghost function FcdaHere(iedName: string): Fcda -> At<DataNode>
  {
    (f: Fcda) => Here(f.fc.Some?, DataNode(PathText(iedName, f), Text(f.fc, "")))
  }

  ghost function DataSetHere(iedName: string): DataSet -> At<DataNode>
  {
    (d: DataSet) => Inside(d.fcdas, FcdaHere(iedName))
  }

  lemma FcdaNodesListed(iedName: string, dataSets: seq<DataSet>)
    ensures Listed(DataSetNodes(iedName, dataSets), FcdaNodesAt(iedName, dataSets))
  {
    forall i | 0 <= i < |dataSets|
      ensures Listed(DataSetEmitter(iedName)(dataSets[i]), DataSetHere(iedName)(dataSets[i]))
    {
      var fcdas := dataSets[i].fcdas;
      forall j | 0 <= j < |fcdas| ensures Listed(FcdaNode(iedName)(fcdas[j]), FcdaHere(iedName)(fcdas[j])) {
        ListedHere(fcdas[j].fc.Some?, DataNode(PathText(iedName, fcdas[j]), Text(fcdas[j].fc, "")));
      }
      ListedFlatMap(FcdaNode(iedName), fcdas, FcdaHere(iedName));
    }
    ListedFlatMap(DataSetEmitter(iedName), dataSets, DataSetHere(iedName));
    var nested := Inside(dataSets, DataSetHere(iedName));
    forall p, node ensures nested(p, node) <==> FcdaNodesAt(iedName, dataSets)(p, node) {
      if p != [] && p[0] < |dataSets| {
        var q := p[1..];
        if q != [] && q[0] < |dataSets[p[0]].fcdas| {
          assert q[0] == p[1] && (q[1..] == [] <==> |p| == 2);
        }
      }
    }
    ListedSame(DataSetNodes(iedName, dataSets), nested, FcdaNodesAt(iedName, dataSets));
  }
}
