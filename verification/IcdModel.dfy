/** An SCL document as the parser sees it, and what its two template traversals compute. */
module IcdModel {
  import opened Wrappers

  // ----- the document; ids and names compared with strcmp are never missing -----

  datatype DaElem = DaElem(name: string, fc: Option<string>)

  datatype DoElem = DoElem(name: string, typeId: Option<string>)

  datatype LNodeType = LNodeType(id: string, dos: seq<DoElem>)

  datatype DoType = DoType(id: string, cdc: Option<string>, das: seq<DaElem>)

  datatype Templates = Templates(lnodeTypes: seq<LNodeType>, doTypes: seq<DoType>)

  datatype Doi = Doi(name: Option<string>, dais: seq<Option<string>>)

  datatype Fcda = Fcda(ldInst: Option<string>, lnClass: Option<string>, lnInst: Option<string>,
                       doName: Option<string>, daName: Option<string>, fc: Option<string>)

  datatype DataSet = DataSet(name: Option<string>, fcdas: seq<Fcda>)

  datatype ReportControl = ReportControl(name: Option<string>, datSet: Option<string>, buffered: bool)

  /** A child element of an LDevice; only the tags LN and LN0 are looked at. */
  datatype Ln = Ln(tag: string, lnClass: Option<string>, inst: Option<string>, lnType: Option<string>,
                   dataSets: seq<DataSet>, reports: seq<ReportControl>, dois: seq<Doi>)

  datatype LDevice = LDevice(inst: Option<string>, children: seq<Ln>)

  datatype AccessPoint = AccessPoint(server: Option<seq<LDevice>>)

  datatype Ied = Ied(name: Option<string>, accessPoints: seq<AccessPoint>)

  datatype Scl = Scl(ieds: seq<Ied>, templates: Option<Templates>)

  datatype Document = LoadFailed | NoSclRoot | Loaded(scl: Scl)

  function OrElse(o: Option<string>, default: string): string
  {
    if o.Some? then o.value else default
  }

  // ----- results -----

  datatype DataNode = DataNode(path: string, fc: string)

  datatype DataSetInfo = DataSetInfo(name: string, fcdaPaths: seq<string>)

  datatype ReportInfo = ReportInfo(name: string, datSet: string, buffered: bool)

  datatype ParseResult = ParseResult(nodes: seq<DataNode>, dataSets: seq<DataSetInfo>, reports: seq<ReportInfo>)

  // ----- the elements a traversal meets, in document order -----

  /** The DOs of every LNodeType with the given id. */
  ghost function DosOf(types: seq<LNodeType>, id: string): seq<DoElem>
  {
    FlatMap(DosWith(id), types)
  }

  ghost function DosWith(id: string): LNodeType -> seq<DoElem>
  {
    (l: LNodeType) => if l.id == id then l.dos else []
  }

  /** The DAs of every DOType with the given id. */
  ghost function DasOf(types: seq<DoType>, id: string): seq<DaElem>
  {
    FlatMap(DasWith(id), types)
  }

  ghost function DasWith(id: string): DoType -> seq<DaElem>
  {
    (t: DoType) => if t.id == id then t.das else []
  }

  /** The DAs reached through every typed DO with the given name. */
  ghost function DasNamed(dos: seq<DoElem>, types: seq<DoType>, doName: string): seq<DaElem>
  {
    FlatMap(DasThrough(types, doName), dos)
  }

  ghost function DasThrough(types: seq<DoType>, doName: string): DoElem -> seq<DaElem>
  {
    (d: DoElem) => if d.name == doName && d.typeId.Some? then DasOf(types, d.typeId.value) else []
  }

  // ----- first-match lookup -----

  ghost function FirstTypeId(dos: seq<DoElem>, doName: string): Option<string>
  {
    if dos == [] then None
    else
      var n := |dos| - 1;
      var first := FirstTypeId(dos[..n], doName);
      if first.Some? then first else if dos[n].name == doName then Some(OrElse(dos[n].typeId, "")) else None
  }

  ghost function FirstFc(das: seq<DaElem>, daName: string): Option<string>
  {
    if das == [] then None
    else
      var n := |das| - 1;
      var first := FirstFc(das[..n], daName);
      if first.Some? then first else if das[n].name == daName then Some(OrElse(das[n].fc, "")) else None
  }

  predicate ControlCdc(cdc: Option<string>)
  {
    cdc == Some("SPC") || cdc == Some("DPC")
  }

  /** The first DOType with the id decides. */
  ghost function FirstControl(types: seq<DoType>, id: string): Option<bool>
  {
    if types == [] then None
    else
      var n := |types| - 1;
      var first := FirstControl(types[..n], id);
      if first.Some? then first else if types[n].id == id then Some(ControlCdc(types[n].cdc)) else None
  }

  ghost predicate IsControl(templates: Option<Templates>, id: string)
  {
    templates.Some? && FirstControl(templates.value.doTypes, id) == Some(true)
  }

  ghost function TypeIdOf(templates: Option<Templates>, lnType: Option<string>, doName: Option<string>): string
  {
    if lnType.None? || doName.None? || templates.None? then ""
    else OrElse(FirstTypeId(DosOf(templates.value.lnodeTypes, lnType.value), doName.value), "")
  }

  ghost function FcOf(templates: Option<Templates>, lnType: Option<string>, doName: Option<string>,
                      daName: Option<string>): string
  {
    if lnType.None? || doName.None? || daName.None? || templates.None? then ""
    else
      var t := templates.value;
      OrElse(FirstFc(DasNamed(DosOf(t.lnodeTypes, lnType.value), t.doTypes, doName.value), daName.value), "")
  }

  // ----- full enumeration -----

  ghost function AttributeNodes(doPath: string, das: seq<DaElem>): seq<DataNode>
  {
    FlatMap(AttributeNode(doPath), das)
  }

  ghost function AttributeNode(doPath: string): DaElem -> seq<DataNode>
  {
    (a: DaElem) => if a.fc.Some? then [DataNode(doPath + "." + a.name, a.fc.value)] else []
  }

  /** What one DO contributes: a control node, then its attributes. */
  ghost function DoNodes(templates: Templates, lnRef: string, d: DoElem): seq<DataNode>
  {
    if d.typeId.None? then []
    else
      var doPath, id := lnRef + "." + d.name, d.typeId.value;
      (if IsControl(Some(templates), id) then [DataNode(doPath, "CO")] else [])
      + AttributeNodes(doPath, DasOf(templates.doTypes, id))
  }

  ghost function AllDoNodes(templates: Templates, lnRef: string, dos: seq<DoElem>): seq<DataNode>
  {
    FlatMap(DoEmitter(templates, lnRef), dos)
  }

  ghost function DoEmitter(templates: Templates, lnRef: string): DoElem -> seq<DataNode>
  {
    (d: DoElem) => DoNodes(templates, lnRef, d)
  }

  ghost function TemplateNodes(templates: Option<Templates>, lnRef: string, lnType: string): seq<DataNode>
  {
    if templates.None? then []
    else AllDoNodes(templates.value, lnRef, DosOf(templates.value.lnodeTypes, lnType))
  }

  // ----- one logical node -----

  ghost function DaiNodes(templates: Option<Templates>, lnRef: string, lnType: Option<string>,
                          doName: Option<string>, dais: seq<Option<string>>): seq<DataNode>
  {
    FlatMap(DaiEmitter(templates, lnRef, lnType, doName), dais)
  }

  ghost function DaiEmitter(templates: Option<Templates>, lnRef: string, lnType: Option<string>,
                            doName: Option<string>): Option<string> -> seq<DataNode>
  {
    (daName: Option<string>) => DaiNode(templates, lnRef, lnType, doName, daName)
  }

  ghost function DaiNode(templates: Option<Templates>, lnRef: string, lnType: Option<string>,
                         doName: Option<string>, daName: Option<string>): seq<DataNode>
  {
    var fc := FcOf(templates, lnType, doName, daName);
    if fc != "" then [DataNode(lnRef + "." + OrElse(doName, "") + "." + OrElse(daName, ""), fc)] else []
  }

  ghost function DoiNodes(templates: Option<Templates>, lnRef: string, lnType: Option<string>, doi: Doi): seq<DataNode>
  {
    var id := TypeIdOf(templates, lnType, doi.name);
    (if id != "" && IsControl(templates, id) then [DataNode(lnRef + "." + OrElse(doi.name, ""), "CO")] else [])
    + DaiNodes(templates, lnRef, lnType, doi.name, doi.dais)
  }

  ghost function AllDoiNodes(templates: Option<Templates>, lnRef: string, lnType: Option<string>, dois: seq<Doi>)
    : seq<DataNode>
  {
    FlatMap(DoiEmitter(templates, lnRef, lnType), dois)
  }

  ghost function DoiEmitter(templates: Option<Templates>, lnRef: string, lnType: Option<string>): Doi -> seq<DataNode>
  {
    (doi: Doi) => DoiNodes(templates, lnRef, lnType, doi)
  }

  function FcdaPath(iedName: string, f: Fcda): string
  {
    iedName + OrElse(f.ldInst, "") + "/" + OrElse(f.lnClass, "") + OrElse(f.lnInst, "") + "."
    + OrElse(f.doName, "") + if f.daName.Some? then "." + f.daName.value else ""
  }

  ghost function FcdaNodes(iedName: string, fcdas: seq<Fcda>): seq<DataNode>
  {
    FlatMap(FcdaNode(iedName), fcdas)
  }

  ghost function FcdaNode(iedName: string): Fcda -> seq<DataNode>
  {
    (f: Fcda) => if f.fc.Some? then [DataNode(FcdaPath(iedName, f), f.fc.value)] else []
  }

  ghost function FcdaPaths(iedName: string, fcdas: seq<Fcda>): seq<string>
  {
    FlatMap(PathIfAny(iedName), fcdas)
  }

  ghost function PathIfAny(iedName: string): Fcda -> seq<string>
  {
    (f: Fcda) => if f.fc.Some? then [FcdaPath(iedName, f)] else []
  }

  ghost function DataSetNodes(iedName: string, dataSets: seq<DataSet>): seq<DataNode>
  {
    FlatMap(DataSetEmitter(iedName), dataSets)
  }

  ghost function DataSetEmitter(iedName: string): DataSet -> seq<DataNode>
  {
    (d: DataSet) => FcdaNodes(iedName, d.fcdas)
  }

  function LnRef(iedName: string, ldInst: string, ln: Ln): string
  {
    iedName + ldInst + "/" + OrElse(ln.lnClass, "") + OrElse(ln.inst, "")
  }

  predicate IsLn(ln: Ln)
  {
    ln.tag == "LN" || ln.tag == "LN0"
  }

  /** The nodes of the backup enumeration; it is skipped when the type is missing or empty. */
  ghost function LnTemplateNodes(templates: Option<Templates>, lnRef: string, lnType: Option<string>): seq<DataNode>
  {
    if OrElse(lnType, "") == "" then [] else TemplateNodes(templates, lnRef, OrElse(lnType, ""))
  }

  ghost function DataSetInfos(iedName: string, dataSets: seq<DataSet>): seq<DataSetInfo>
  {
    seq(|dataSets|, i requires 0 <= i < |dataSets| =>
      DataSetInfo(OrElse(dataSets[i].name, ""), FcdaPaths(iedName, dataSets[i].fcdas)))
  }

  function ReportOf(r: ReportControl): ReportInfo
  {
    ReportInfo(OrElse(r.name, ""), OrElse(r.datSet, ""), r.buffered)
  }

  ghost function ReportInfos(controls: seq<ReportControl>): seq<ReportInfo>
  {
    seq(|controls|, i requires 0 <= i < |controls| => ReportOf(controls[i]))
  }

  /** A logical node and where it stands. */
  datatype Site = Site(iedName: string, ldInst: string, ln: Ln)

  ghost function LnResult(templates: Option<Templates>, site: Site): ParseResult
  {
    var ln, lnRef := site.ln, LnRef(site.iedName, site.ldInst, site.ln);
    ParseResult(
      DataSetNodes(site.iedName, ln.dataSets)
      + AllDoiNodes(templates, lnRef, ln.lnType, ln.dois)
      + LnTemplateNodes(templates, lnRef, ln.lnType),
      DataSetInfos(site.iedName, ln.dataSets),
      ReportInfos(ln.reports))
  }

  ghost function Join(a: ParseResult, b: ParseResult): ParseResult
  {
    ParseResult(a.nodes + b.nodes, a.dataSets + b.dataSets, a.reports + b.reports)
  }

  /** What a list of logical nodes contributes, joined in order. */
  ghost function SitesResult(templates: Option<Templates>, sites: seq<Site>): ParseResult
  {
    JoinAll(SiteResult(templates), sites)
  }

  ghost function SiteResult(templates: Option<Templates>): Site -> ParseResult
  {
    (site: Site) => LnResult(templates, site)
  }

  ghost function JoinAll(f: Site -> ParseResult, sites: seq<Site>): ParseResult
  {
    if sites == [] then ParseResult([], [], [])
    else Join(JoinAll(f, sites[..|sites| - 1]), f(sites[|sites| - 1]))
  }

  // ----- the logical nodes of a document, in document order -----

  ghost function LnSites(iedName: string, ldInst: string, children: seq<Ln>): seq<Site>
  {
    FlatMap(SiteIfLn(iedName, ldInst), children)
  }

  ghost function SiteIfLn(iedName: string, ldInst: string): Ln -> seq<Site>
  {
    (ln: Ln) => if IsLn(ln) then [Site(iedName, ldInst, ln)] else []
  }

  ghost function DeviceSites(iedName: string, devices: seq<LDevice>): seq<Site>
  {
    FlatMap(SitesOfDevice(iedName), devices)
  }

  ghost function SitesOfDevice(iedName: string): LDevice -> seq<Site>
  {
    (d: LDevice) => LnSites(iedName, OrElse(d.inst, "UnknownLDevice"), d.children)
  }

  ghost function PointSites(iedName: string, points: seq<AccessPoint>): seq<Site>
  {
    FlatMap(SitesOfPoint(iedName), points)
  }

  ghost function SitesOfPoint(iedName: string): AccessPoint -> seq<Site>
  {
    (p: AccessPoint) => if p.server.Some? then DeviceSites(iedName, p.server.value) else []
  }

  ghost function IedSites(ieds: seq<Ied>): seq<Site>
  {
    FlatMap(SitesOfIed(), ieds)
  }

  ghost function SitesOfIed(): Ied -> seq<Site>
  {
    (ied: Ied) => PointSites(OrElse(ied.name, "UnknownIED"), ied.accessPoints)
  }

  /** The logical nodes of a document; there are none when it does not load. */
  ghost function Sites(doc: Document): seq<Site>
  {
    if doc.Loaded? then IedSites(doc.scl.ieds) else []
  }

  ghost function TemplatesOf(doc: Document): Option<Templates>
  {
    if doc.Loaded? then doc.scl.templates else None
  }

  ghost function DocumentResult(doc: Document): ParseResult
  {
    match doc
    case LoadFailed | NoSclRoot => ParseResult([], [], [])
    case Loaded(scl) => SitesResult(scl.templates, IedSites(scl.ieds))
  }
}
