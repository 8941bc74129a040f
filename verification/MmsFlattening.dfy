/** Flattening a structured MMS value into log lines, with a depth limit instead of trust in
    the shape of the value. */
module MmsFlattening {
  import opened Wrappers
  import opened IndexPaths

  type Ref = nat

  /** A value as the library reports it. Unsigned carries what reading it as int64 gives. */
  datatype Value =
    | Boolean(b: bool)
    | Integer(i: int)
    | Unsigned(i: int)
    | Float(r: real)
    | Text(s: Option<string>)
    | BitString(bits: seq<bool>)
    | UtcTime
    | Structure(elements: seq<Option<Ref>>)
    | Other

  /** All values there are; element references may point anywhere, also back. */
  type Heap = Ref -> Value

  datatype Shown =
    | ShownBool(b: bool)
    | ShownInt(i: int)
    | ShownReal(r: real)
    | ShownText(s: string)
    | ShownBits(s: string)
    | ShownUtcOf(read: Ref)
    | ShownUnsupported

  /** One reported event and the index path it is about. */
  datatype Entry =
    | Leaf(at: IndexPath, shown: Shown)
    | StructureAt(at: IndexPath)
    | Missing(at: IndexPath)
    | TooDeep(at: IndexPath)
    | Invalid(at: IndexPath)

  const MAX_INDENT: nat := 10

  /** Levels of elements still to be visited below a structure at this indent. */
  function Levels(indent: nat): nat
  {
    if indent > MAX_INDENT then 0 else MAX_INDENT + 1 - indent
  }

  function BitText(bits: seq<bool>): string
  {
    seq(|bits|, i requires 0 <= i < |bits| => if bits[i] then '1' else '0')
  }

  /** What is logged for an element that is no structure. The time branch reads the enclosing
      structure `parent`, not the element. */
  function Show(h: Heap, parent: Ref, r: Ref): Shown
    requires !h(r).Structure?
  {
    match h(r)
    case Boolean(b) => ShownBool(b)
    case Integer(i) => ShownInt(i)
    case Unsigned(i) => ShownInt(i % 0x1_0000_0000_0000_0000)
    case Float(x) => ShownReal(x)
    case Text(s) => ShownText(if s.Some? then s.value else "empty string")
    case BitString(bits) => ShownBits(BitText(bits))
    case UtcTime => ShownUtcOf(parent)
    case Other => ShownUnsupported
  }

  /** The events of a walk over `r`, which sits at index path `at`. */
  ghost function Walk(h: Heap, r: Ref, at: IndexPath, indent: nat): seq<Entry>
    decreases Levels(indent), 0, 1
  {
    if !h(r).Structure? then [Invalid(at)]
    else if indent > MAX_INDENT then [TooDeep(at)]
    else WalkElements(h, r, |h(r).elements|, at, indent)
  }

  ghost function WalkElements(h: Heap, r: Ref, n: nat, at: IndexPath, indent: nat): seq<Entry>
    requires h(r).Structure? && n <= |h(r).elements| && indent <= MAX_INDENT
    decreases Levels(indent), 0, 0, n
  {
    if n == 0 then []
    else WalkElements(h, r, n - 1, at, indent) + WalkElement(h, r, n - 1, at, indent)
  }

  ghost function WalkElement(h: Heap, r: Ref, i: nat, at: IndexPath, indent: nat): seq<Entry>
    requires h(r).Structure? && i < |h(r).elements| && indent <= MAX_INDENT
    decreases Levels(indent), 0, 0, i
  {
    match h(r).elements[i]
    case None => [Missing(at + [i])]
    case Some(c) =>
      if h(c).Structure? then [StructureAt(at + [i])] + Walk(h, c, at + [i], indent + 1)
      else [Leaf(at + [i], Show(h, r, c))]
  }

  // ----- which leaves are reported -----

  /** Following `path` from the structure `r` ends in an element that is no structure. */
  ghost predicate LeafAt(h: Heap, r: Ref, path: IndexPath, shown: Shown)
    decreases |path|
  {
    && path != [] && h(r).Structure? && path[0] < |h(r).elements| && h(r).elements[path[0]].Some?
    && var c := h(r).elements[path[0]].value;
       if |path| == 1 then !h(c).Structure? && shown == Show(h, r, c)
       else LeafAt(h, c, path[1..], shown)
  }

  /** A leaf line appears for exactly the leaves whose index path, relative to the walked
      structure, is at most as long as the levels left -- eleven from the top. */
  lemma {:induction false} LeavesReported(h: Heap, r: Ref, at: IndexPath, indent: nat, path: IndexPath, shown: Shown)
    ensures Leaf(at + path, shown) in Walk(h, r, at, indent)
            <==> LeafAt(h, r, path, shown) && |path| <= Levels(indent)
    decreases Levels(indent), 1
  {
    if h(r).Structure? && indent <= MAX_INDENT {
      ElementsReported(h, r, |h(r).elements|, at, indent, path, shown);
    }
  }

  lemma {:induction false} ElementsReported(h: Heap, r: Ref, n: nat, at: IndexPath, indent: nat,
                                            path: IndexPath, shown: Shown)
    requires h(r).Structure? && n <= |h(r).elements| && indent <= MAX_INDENT
    ensures Leaf(at + path, shown) in WalkElements(h, r, n, at, indent)
            <==> LeafAt(h, r, path, shown) && |path| <= Levels(indent) && path[0] < n
    decreases Levels(indent), 0, n
  {
    if n > 0 {
      ElementsReported(h, r, n - 1, at, indent, path, shown);
      ElementReported(h, r, n - 1, at, indent, path, shown);
    }
  }

  lemma {:induction false} ElementReported(h: Heap, r: Ref, i: nat, at: IndexPath, indent: nat,
                                           path: IndexPath, shown: Shown)
    requires h(r).Structure? && i < |h(r).elements| && indent <= MAX_INDENT
    ensures Leaf(at + path, shown) in WalkElement(h, r, i, at, indent)
            <==> LeafAt(h, r, path, shown) && |path| <= Levels(indent) && path[0] == i
    decreases Levels(indent), 0, i
  {
    EntriesBelow(h, r, i, at, indent);
    if Leaf(at + path, shown) in WalkElement(h, r, i, at, indent) {
      assert at + [i] <= at + path;
      assert (at + path)[|at|] == i && path[0] == i;
    }
    if path != [] && path[0] == i && h(r).elements[i].Some? {
      var c := h(r).elements[i].value;
      if h(c).Structure? {
        LeavesReported(h, c, at + [i], indent + 1, path[1..], shown);
        assert at + [i] + path[1..] == at + path;
      } else {
        assert at + path == at + [i] <==> |path| == 1;
      }
    }
  }

  /** Every event of an element's walk lies at or below that element. */
  lemma {:induction false} EntriesBelow(h: Heap, r: Ref, i: nat, at: IndexPath, indent: nat)
    requires h(r).Structure? && i < |h(r).elements| && indent <= MAX_INDENT
    ensures forall e :: e in WalkElement(h, r, i, at, indent) ==> at + [i] <= e.at
    decreases Levels(indent), 0
  {
    if h(r).elements[i].Some? && h(h(r).elements[i].value).Structure? {
      WalkBelow(h, h(r).elements[i].value, at + [i], indent + 1);
    }
  }

  lemma {:induction false} WalkBelow(h: Heap, r: Ref, at: IndexPath, indent: nat)
    ensures forall e :: e in Walk(h, r, at, indent) ==> at <= e.at
    decreases Levels(indent), 2
  {
    if h(r).Structure? && indent <= MAX_INDENT {
      ElementsBelow(h, r, |h(r).elements|, at, indent);
    }
  }

  lemma {:induction false} ElementsBelow(h: Heap, r: Ref, n: nat, at: IndexPath, indent: nat)
    requires h(r).Structure? && n <= |h(r).elements| && indent <= MAX_INDENT
    ensures forall e :: e in WalkElements(h, r, n, at, indent) ==>
      at <= e.at && |at| < |e.at| && e.at[|at|] < n
    decreases Levels(indent), 1, n
  {
    if n > 0 {
      ElementsBelow(h, r, n - 1, at, indent);
      EntriesBelow(h, r, n - 1, at, indent);
      forall e | e in WalkElement(h, r, n - 1, at, indent) ensures e.at[|at|] == n - 1 && at <= e.at {
        assert (at + [n - 1])[|at|] == n - 1;
      }
    }
  }

  // ----- no leaf is reported twice -----

  ghost predicate LeavesDistinct(entries: seq<Entry>)
  {
    forall i, j :: 0 <= i < j < |entries| && entries[i].Leaf? && entries[j].Leaf? ==> entries[i].at != entries[j].at
  }

  lemma {:induction false} LeavesReportedOnce(h: Heap, r: Ref, at: IndexPath, indent: nat)
    ensures LeavesDistinct(Walk(h, r, at, indent))
    decreases Levels(indent), 1
  {
    if h(r).Structure? && indent <= MAX_INDENT {
      ElementsOnce(h, r, |h(r).elements|, at, indent);
    }
  }

  lemma {:induction false} ElementsOnce(h: Heap, r: Ref, n: nat, at: IndexPath, indent: nat)
    requires h(r).Structure? && n <= |h(r).elements| && indent <= MAX_INDENT
    ensures LeavesDistinct(WalkElements(h, r, n, at, indent))
    decreases Levels(indent), 0, n
  {
    if n > 0 {
      var before, here := WalkElements(h, r, n - 1, at, indent), WalkElement(h, r, n - 1, at, indent);
      ElementsOnce(h, r, n - 1, at, indent);
      ElementOnce(h, r, n - 1, at, indent);
      ElementsBelow(h, r, n - 1, at, indent);
      EntriesBelow(h, r, n - 1, at, indent);
      forall i, j | 0 <= i < |before| && 0 <= j < |here| ensures before[i].at != here[j].at {
        assert before[i] in before && here[j] in here;
        assert (at + [n - 1])[|at|] == n - 1;
      }
      DistinctAppend(before, here);
    }
  }

  lemma {:induction false} ElementOnce(h: Heap, r: Ref, i: nat, at: IndexPath, indent: nat)
    requires h(r).Structure? && i < |h(r).elements| && indent <= MAX_INDENT
    ensures LeavesDistinct(WalkElement(h, r, i, at, indent))
    decreases Levels(indent), 0, i
  {
    if h(r).elements[i].Some? && h(h(r).elements[i].value).Structure? {
      LeavesReportedOnce(h, h(r).elements[i].value, at + [i], indent + 1);
    }
  }

  lemma DistinctAppend(a: seq<Entry>, b: seq<Entry>)
    requires LeavesDistinct(a) && LeavesDistinct(b)
    requires forall i, j :: 0 <= i < |a| && 0 <= j < |b| ==> a[i].at != b[j].at
    ensures LeavesDistinct(a + b)
  {
  }

  // ----- how much is visited -----

  /** Element visits of a walk. */
  ghost function Visits(h: Heap, r: Ref, indent: nat): nat
    decreases Levels(indent), 0, 1
  {
    if !h(r).Structure? || indent > MAX_INDENT then 0
    else VisitsOf(h, r, |h(r).elements|, indent)
  }

  ghost function VisitsOf(h: Heap, r: Ref, n: nat, indent: nat): nat
    requires h(r).Structure? && n <= |h(r).elements| && indent <= MAX_INDENT
    decreases Levels(indent), 0, 0, n
  {
    if n == 0 then 0
    else VisitsOf(h, r, n - 1, indent) + 1 + VisitsBelow(h, h(r).elements[n - 1], indent)
  }

  ghost function VisitsBelow(h: Heap, element: Option<Ref>, indent: nat): nat
    requires indent <= MAX_INDENT
    decreases Levels(indent), 0, 0, 0
  {
    if element.Some? && h(element.value).Structure? then Visits(h, element.value, indent + 1) else 0
  }

  ghost function Power(b: nat, k: nat): nat
  {
    if k == 0 then 1 else b * Power(b, k - 1)
  }

  /** b + b^2 + ... + b^n. */
  ghost function Powers(b: nat, n: nat): nat
  {
    if n == 0 then 0 else Powers(b, n - 1) + Power(b, n)
  }

  lemma {:induction false} PowersStep(b: nat, n: nat)
    ensures Powers(b, n + 1) == b * (1 + Powers(b, n))
  {
    if n == 0 {
      assert Power(b, 1) == b * Power(b, 0) == b;
    } else {
      PowersStep(b, n - 1);
      Distribute(b, Powers(b, n - 1), Power(b, n));
      assert Power(b, n + 1) == b * Power(b, n);
    }
  }

  lemma Distribute(b: nat, x: nat, y: nat)
    ensures b * (1 + x) + b * y == b * (1 + (x + y))
  {
  }

  lemma TimesMonotone(x: nat, y: nat, factor: nat)
    requires x <= y
    ensures x * factor <= y * factor
  {
    assert y * factor == x * factor + (y - x) * factor;
  }

  ghost predicate Width(h: Heap, b: nat)
  {
    forall r :: h(r).Structure? ==> |h(r).elements| <= b
  }

  /** On any value graph, cyclic or not, whose structures have at most `b` elements, a walk
      from the top makes at most b + b^2 + ... + b^11 visits. */
  lemma {:induction false} VisitsBounded(h: Heap, r: Ref, indent: nat, b: nat)
    requires Width(h, b)
    ensures Visits(h, r, indent) <= Powers(b, Levels(indent))
    decreases Levels(indent), 1
  {
    if h(r).Structure? && indent <= MAX_INDENT {
      ElementVisitsBounded(h, r, |h(r).elements|, indent, b);
      PowersStep(b, Levels(indent) - 1);
      TimesMonotone(|h(r).elements|, b, 1 + Powers(b, Levels(indent) - 1));
    }
  }

  lemma {:induction false} ElementVisitsBounded(h: Heap, r: Ref, n: nat, indent: nat, b: nat)
    requires Width(h, b) && h(r).Structure? && n <= |h(r).elements| && indent <= MAX_INDENT
    ensures VisitsOf(h, r, n, indent) <= n * (1 + Powers(b, Levels(indent) - 1))
    decreases Levels(indent), 0, n
  {
    if n > 0 {
      ElementVisitsBounded(h, r, n - 1, indent, b);
      var element, below := h(r).elements[n - 1], Powers(b, Levels(indent) - 1);
      if element.Some? {
        VisitsBounded(h, element.value, indent + 1, b);
      }
      assert n * (1 + below) == (n - 1) * (1 + below) + 1 + below;
    }
  }

  /** A structure all of whose `b` elements are itself. */
  function Loop(b: nat): Heap
  {
    (r: Ref) => Structure(seq(b, i => Some(0)))
  }

  /** The bound is met: a self-containing structure is visited that often, and no more. */
  lemma {:induction false} BoundIsAttained(b: nat, indent: nat)
    ensures Visits(Loop(b), 0, indent) == Powers(b, Levels(indent))
    decreases Levels(indent), 1
  {
    if indent <= MAX_INDENT {
      LoopVisits(b, b, indent);
      PowersStep(b, Levels(indent) - 1);
    }
  }

  lemma {:induction false} LoopVisits(b: nat, n: nat, indent: nat)
    requires n <= b && indent <= MAX_INDENT
    ensures VisitsOf(Loop(b), 0, n, indent) == n * (1 + Powers(b, Levels(indent) - 1))
    decreases Levels(indent), 0, n
  {
    if n > 0 {
      LoopVisits(b, n - 1, indent);
      BoundIsAttained(b, indent + 1);
      var below := Powers(b, Levels(indent) - 1);
      assert n * (1 + below) == (n - 1) * (1 + below) + 1 + below;
    }
  }

  // ----- the code -----

  /** A log line: the same events with the printed path. */
  datatype Line =
    | LeafLine(path: string, shown: Shown)
    | StructureLine(path: string)
    | MissingLine(path: string)
    | TooDeepLine(path: string)
    | InvalidLine(path: string)

  ghost function LineOf(root: string, e: Entry): Line
  {
    var path := root + Render(e.at);
    match e
    case Leaf(_, shown) => LeafLine(path, shown)
    case StructureAt(_) => StructureLine(path)
    case Missing(_) => MissingLine(path)
    case TooDeep(_) => TooDeepLine(path)
    case Invalid(_) => InvalidLine(path)
  }

  ghost function LinesOf(root: string, entries: seq<Entry>): seq<Line>
  {
    seq(|entries|, i requires 0 <= i < |entries| => LineOf(root, entries[i]))
  }

  lemma LinesAppend(root: string, a: seq<Entry>, b: seq<Entry>)
    ensures LinesOf(root, a + b) == LinesOf(root, a) + LinesOf(root, b)
  {
  }

  /** Grows the bit text one character at a time. */
  method RenderBits(bits: seq<bool>) returns (text: string)
    ensures text == BitText(bits)
  {
    text := "";
    for j := 0 to |bits|
      invariant |text| == j && forall k :: 0 <= k < j ==> text[k] == if bits[k] then '1' else '0'
    {
      text := text + [if bits[j] then '1' else '0'];
    }
  }

  method ShowElement(h: Heap, parent: Ref, r: Ref) returns (shown: Shown)
    requires !h(r).Structure?
    ensures shown == Show(h, parent, r)
  {
    if h(r).BitString? {
      var text := RenderBits(h(r).bits);
      shown := ShownBits(text);
    } else {
      shown := Show(h, parent, r);
    }
  }

  /** The element walk of `parseStructure`. It terminates on every value graph, because a
      recursive call uses up a level; `at` is the index path that `nodePath` prints. */
  method ParseStructure(h: Heap, value: Option<Ref>, nodePath: string, indent: nat,
                        ghost root: string, ghost at: IndexPath) returns (log: seq<Line>, visits: nat)
    requires nodePath == root + Render(at)
    ensures value.None? ==> log == [InvalidLine(nodePath)] && visits == 0
    ensures value.Some? ==> log == LinesOf(root, Walk(h, value.value, at, indent))
    ensures value.Some? ==> visits == Visits(h, value.value, indent)
    decreases Levels(indent), 0
  {
    log, visits := [], 0;
    if value.None? || !h(value.value).Structure? {
      log := [InvalidLine(nodePath)];
      return;
    }
    if indent > MAX_INDENT {
      log := [TooDeepLine(nodePath)];
      return;
    }
    var r := value.value;
    var n := |h(r).elements|;
    for i := 0 to n
      invariant log == LinesOf(root, WalkElements(h, r, i, at, indent))
      invariant visits == VisitsOf(h, r, i, indent)
    {
      var more, below := ParseElement(h, r, i, nodePath, indent, root, at);
      LinesAppend(root, WalkElements(h, r, i, at, indent), WalkElement(h, r, i, at, indent));
      log, visits := log + more, visits + 1 + below;
    }
  }

  /** One turn of the element loop. */
  method ParseElement(h: Heap, r: Ref, i: nat, nodePath: string, indent: nat, ghost root: string, ghost at: IndexPath)
    returns (log: seq<Line>, below: nat)
    requires h(r).Structure? && i < |h(r).elements| && indent <= MAX_INDENT
    requires nodePath == root + Render(at)
    ensures log == LinesOf(root, WalkElement(h, r, i, at, indent))
    ensures below == VisitsBelow(h, h(r).elements[i], indent)
    decreases Levels(indent), 0, i
  {
    var subPath := nodePath + "[" + Decimal(i) + "]";
    RenderSnoc(at, i);
    assert subPath == root + Render(at + [i]);
    below := 0;
    match h(r).elements[i] {
      case None =>
        log := [MissingLine(subPath)];
      case Some(c) =>
        if h(c).Structure? {
          log, below := ParseStructure(h, Some(c), subPath, indent + 1, root, at + [i]);
          LinesAppend(root, [StructureAt(at + [i])], Walk(h, c, at + [i], indent + 1));
          log := [StructureLine(subPath)] + log;
        } else {
          var shown := ShowElement(h, r, c);
          log := [LeafLine(subPath, shown)];
        }
    }
  }

  /** Every leaf line in the log of a whole value, the last and the only one too, extends the
      root's name by a path that can be read back, has at most eleven indices and leads to a
      leaf with the value shown. */
  lemma LeafLineNamesLeaf(h: Heap, r: Ref, root: string, i: nat)
    requires i < |Walk(h, r, [], 0)| && Walk(h, r, [], 0)[i].Leaf?
    ensures var line, at := LinesOf(root, Walk(h, r, [], 0))[i], Walk(h, r, [], 0)[i].at;
      && line.path == root + line.path[|root|..]
      && Decode(line.path[|root|..]) == Some(at)
      && |at| <= 11
      && LeafAt(h, r, at, line.shown)
  {
    var entries := Walk(h, r, [], 0);
    var at := entries[i].at;
    assert [] + at == at && entries[i] in entries;
    LeavesReported(h, r, [], 0, at, entries[i].shown);
    PathRoundTrip(at);
    assert (root + Render(at))[|root|..] == Render(at);
  }

  /** And no two leaf lines have the same path. */
  lemma LogNamesLeavesOnce(h: Heap, r: Ref, root: string, i: nat, j: nat)
    requires i < |Walk(h, r, [], 0)| && j < |Walk(h, r, [], 0)| && i != j
    requires Walk(h, r, [], 0)[i].Leaf? && Walk(h, r, [], 0)[j].Leaf?
    ensures var log := LinesOf(root, Walk(h, r, [], 0)); log[i].path != log[j].path
  {
    var entries := Walk(h, r, [], 0);
    LeavesReportedOnce(h, r, [], 0);
    if root + Render(entries[i].at) == root + Render(entries[j].at) {
      PathsDistinct(root, entries[i].at, entries[j].at);
    }
  }

  /** Conversely, each leaf at an index path of at most eleven indices has a line. */
  lemma LeafHasLine(h: Heap, r: Ref, root: string, at: IndexPath, shown: Shown)
    requires LeafAt(h, r, at, shown) && |at| <= 11
    ensures LeafLine(root + Render(at), shown) in LinesOf(root, Walk(h, r, [], 0))
  {
    var entries := Walk(h, r, [], 0);
    assert [] + at == at;
    LeavesReported(h, r, [], 0, at, shown);
    var i :| 0 <= i < |entries| && entries[i] == Leaf(at, shown);
    assert LinesOf(root, entries)[i] == LeafLine(root + Render(at), shown);
  }
}
