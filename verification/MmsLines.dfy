/** The log of a structured value told from the value graph: which line stands for what, what a
    leaf's line says about its value, and in which order the lines come. */
module MmsLines {
  import opened Wrappers
  import opened IndexPaths
  import opened MmsFlattening

  const UINT64_SPAN: int := 0x1_0000_0000_0000_0000

  /** The element that a path of indices leads to. */
  ghost function ElementAt(h: Heap, r: Ref, path: IndexPath): Option<Ref>
    decreases |path|
  {
    if path == [] then Some(r)
    else if h(r).Structure? && path[0] < |h(r).elements| && h(r).elements[path[0]].Some?
    then ElementAt(h, h(r).elements[path[0]].value, path[1..])
    else None
  }

  /** The path leads to a place in a structure where the library has no element. */
  ghost predicate NothingAt(h: Heap, r: Ref, path: IndexPath)
    decreases |path|
  {
    && path != [] && h(r).Structure? && path[0] < |h(r).elements|
    && if |path| == 1 then h(r).elements[path[0]] == None
       else h(r).elements[path[0]].Some? && NothingAt(h, h(r).elements[path[0]].value, path[1..])
  }

  // ----- what a leaf's line says -----

  /** The line shows this value: a signed number as it is, an unsigned one as the 64-bit
      number congruent to what was read, a bit string bit by bit. Of a time only the kind of
      line is claimed here; `TimeShowsParent` says what it shows. */
  ghost predicate Tells(shown: Shown, v: Value)
  {
    match v
    case Boolean(b) => shown == ShownBool(b)
    case Integer(i) => shown == ShownInt(i)
    case Unsigned(i) => shown.ShownInt? && 0 <= shown.i < UINT64_SPAN && exists k: int :: shown.i == i + k * UINT64_SPAN
    case Float(x) => shown == ShownReal(x)
    case Text(Some(s)) => shown == ShownText(s)
    case Text(None) => shown == ShownText("empty string")
    case BitString(bits) =>
      shown.ShownBits? && |shown.s| == |bits|
      && forall i :: 0 <= i < |bits| ==> shown.s[i] == (if bits[i] then '1' else '0')
    case UtcTime => shown.ShownUtcOf?
    case Structure(_) => false
    case Other => shown == ShownUnsupported
  }

  lemma ShownTells(h: Heap, parent: Ref, r: Ref)
    requires !h(r).Structure?
    ensures Tells(Show(h, parent, r), h(r))
  {
    if h(r).Unsigned? {
      var i := h(r).i;
      assert i % UINT64_SPAN == i + (-(i / UINT64_SPAN)) * UINT64_SPAN;
    }
  }

  /** A leaf's line, in terms of the element alone. */
  lemma {:induction false} LeafAtIsElement(h: Heap, r: Ref, path: IndexPath, shown: Shown)
    requires LeafAt(h, r, path, shown)
    ensures var c := ElementAt(h, r, path); c.Some? && !h(c.value).Structure? && Tells(shown, h(c.value))
    decreases |path|
  {
    var c := h(r).elements[path[0]].value;
    if |path| == 1 {
      ShownTells(h, r, c);
      assert path[1..] == [];
    } else {
      LeafAtIsElement(h, c, path[1..], shown);
    }
  }

  ghost predicate IsTime(h: Heap, element: Option<Ref>)
  {
    element.Some? && h(element.value).UtcTime?
  }

  /** A time's line is made from the structure around it, not from the time. */
  lemma {:induction false} TimeShowsParent(h: Heap, r: Ref, path: IndexPath, shown: Shown)
    requires LeafAt(h, r, path, shown) && IsTime(h, ElementAt(h, r, path))
    ensures ElementAt(h, r, path[..|path| - 1]).Some?
    ensures shown == ShownUtcOf(ElementAt(h, r, path[..|path| - 1]).value)
    decreases |path|
  {
    var c := h(r).elements[path[0]].value;
    if |path| == 1 {
      assert path[1..] == [] && path[..|path| - 1] == [];
      assert ElementAt(h, r, path) == Some(c);
    } else {
      TimeShowsParent(h, c, path[1..], shown);
      assert path[..|path| - 1][1..] == path[1..][..|path| - 2];
    }
  }

  lemma {:induction false} ElementHasLeaf(h: Heap, r: Ref, path: IndexPath) returns (shown: Shown)
    requires path != [] && ElementAt(h, r, path).Some? && !h(ElementAt(h, r, path).value).Structure?
    ensures LeafAt(h, r, path, shown)
    decreases |path|
  {
    var c := h(r).elements[path[0]].value;
    if |path| == 1 {
      assert path[1..] == [];
      shown := Show(h, r, c);
    } else {
      assert path[1..] != [];
      shown := ElementHasLeaf(h, c, path[1..]);
    }
  }

  /** Every element within reach that is no structure has a line, under its printed path, that
      tells its value; no other leaf line has that path. */
  lemma ElementIsLogged(h: Heap, r: Ref, root: string, path: IndexPath) returns (i: nat)
    requires path != [] && |path| <= 11
    requires ElementAt(h, r, path).Some? && !h(ElementAt(h, r, path).value).Structure?
    ensures var log := LinesOf(root, Walk(h, r, [], 0));
      && i < |log| && log[i].LeafLine? && log[i].path == root + Render(path)
      && Tells(log[i].shown, h(ElementAt(h, r, path).value))
      && forall j :: 0 <= j < |log| && log[j].LeafLine? && log[j].path == log[i].path ==> j == i
  {
    var entries := Walk(h, r, [], 0);
    var shown := ElementHasLeaf(h, r, path);
    LeafAtIsElement(h, r, path, shown);
    assert [] + path == path;
    LeavesReported(h, r, [], 0, path, shown);
    i :| 0 <= i < |entries| && entries[i] == Leaf(path, shown);
    var log := LinesOf(root, entries);
    forall j | 0 <= j < |log| && log[j].LeafLine? && log[j].path == log[i].path ensures j == i {
      if j != i {
        LogNamesLeavesOnce(h, r, root, i, j);
      }
    }
  }

  /** Conversely, a leaf line stands for such an element and tells its value. */
  lemma LineIsOfElement(h: Heap, r: Ref, root: string, i: nat) returns (path: IndexPath)
    requires i < |Walk(h, r, [], 0)| && LinesOf(root, Walk(h, r, [], 0))[i].LeafLine?
    ensures var line := LinesOf(root, Walk(h, r, [], 0))[i];
      && line.path == root + Render(path) && 0 < |path| <= 11
      && ElementAt(h, r, path).Some? && !h(ElementAt(h, r, path).value).Structure?
      && Tells(line.shown, h(ElementAt(h, r, path).value))
  {
    path := Walk(h, r, [], 0)[i].at;
    LeafLineNamesLeaf(h, r, root, i);
    LeafAtIsElement(h, r, path, LinesOf(root, Walk(h, r, [], 0))[i].shown);
  }

  // ----- the other lines -----

  /** The events that a path, relative to a structure walked at this indent, gives rise to. */
  ghost predicate EventAt(h: Heap, r: Ref, path: IndexPath, indent: nat, e: Entry)
    decreases |path|
  {
    if path == [] then
      if h(r).Structure? then e.TooDeep? && indent > MAX_INDENT else e.Invalid?
    else
      && h(r).Structure? && indent <= MAX_INDENT && path[0] < |h(r).elements|
      && match h(r).elements[path[0]]
         case None => |path| == 1 && e.Missing?
         case Some(c) =>
           if h(c).Structure? then (|path| == 1 && e.StructureAt?) || EventAt(h, c, path[1..], indent + 1, e)
           else |path| == 1 && e.Leaf? && e.shown == Show(h, r, c)
  }

  lemma {:induction false} EventsReported(h: Heap, r: Ref, at: IndexPath, indent: nat, path: IndexPath, e: Entry)
    requires e.at == at + path
    ensures e in Walk(h, r, at, indent) <==> EventAt(h, r, path, indent, e)
    decreases Levels(indent), 1
  {
    if !h(r).Structure? || indent > MAX_INDENT {
      assert e.at == at <==> path == [];
    } else {
      ElementEvents(h, r, |h(r).elements|, at, indent, path, e);
    }
  }

  lemma {:induction false} ElementEvents(h: Heap, r: Ref, n: nat, at: IndexPath, indent: nat,
                                         path: IndexPath, e: Entry)
    requires h(r).Structure? && n <= |h(r).elements| && indent <= MAX_INDENT && e.at == at + path
    ensures e in WalkElements(h, r, n, at, indent)
            <==> EventAt(h, r, path, indent, e) && path != [] && path[0] < n
    decreases Levels(indent), 0, n
  {
    if n > 0 {
      ElementEvents(h, r, n - 1, at, indent, path, e);
      ElementEvent(h, r, n - 1, at, indent, path, e);
    }
  }

  lemma {:induction false} ElementEvent(h: Heap, r: Ref, i: nat, at: IndexPath, indent: nat,
                                        path: IndexPath, e: Entry)
    requires h(r).Structure? && i < |h(r).elements| && indent <= MAX_INDENT && e.at == at + path
    ensures e in WalkElement(h, r, i, at, indent)
            <==> EventAt(h, r, path, indent, e) && path != [] && path[0] == i
    decreases Levels(indent), 0, i
  {
    EntriesBelow(h, r, i, at, indent);
    if e in WalkElement(h, r, i, at, indent) {
      assert at + [i] <= at + path;
      assert (at + path)[|at|] == i && path[0] == i;
    }
    if path != [] && path[0] == i {
      assert at + path == at + [i] <==> |path| == 1;
      if h(r).elements[i].Some? && h(h(r).elements[i].value).Structure? {
        assert at + [i] + path[1..] == at + path;
        EventsReported(h, h(r).elements[i].value, at + [i], indent + 1, path[1..], e);
      }
    }
  }

  ghost predicate StructureIsAt(h: Heap, r: Ref, path: IndexPath)
  {
    ElementAt(h, r, path).Some? && h(ElementAt(h, r, path).value).Structure?
  }

  lemma {:induction false} EventsAre(h: Heap, r: Ref, path: IndexPath, indent: nat, at: IndexPath)
    requires h(r).Structure? && indent <= MAX_INDENT
    ensures EventAt(h, r, path, indent, Missing(at)) <==> NothingAt(h, r, path) && |path| <= Levels(indent)
    ensures EventAt(h, r, path, indent, StructureAt(at))
            <==> path != [] && StructureIsAt(h, r, path) && |path| <= Levels(indent)
    ensures EventAt(h, r, path, indent, TooDeep(at)) <==> StructureIsAt(h, r, path) && |path| == Levels(indent)
    ensures !EventAt(h, r, path, indent, Invalid(at))
    decreases |path|
  {
    if path != [] && path[0] < |h(r).elements| && h(r).elements[path[0]].Some? {
      var c, rest := h(r).elements[path[0]].value, path[1..];
      assert ElementAt(h, r, path) == ElementAt(h, c, rest) && |path| == |rest| + 1;
      if h(c).Structure? && indent < MAX_INDENT {
        EventsAre(h, c, rest, indent + 1, at);
      } else if rest != [] {
        assert !h(c).Structure? ==> ElementAt(h, c, rest) == None;
      }
    }
  }

  lemma LineInLog(root: string, entries: seq<Entry>, e: Entry)
    ensures LineOf(root, e) in LinesOf(root, entries) <==> e in entries
  {
    if LineOf(root, e) in LinesOf(root, entries) {
      var i :| 0 <= i < |entries| && LinesOf(root, entries)[i] == LineOf(root, e);
      PathsDistinct(root, e.at, entries[i].at);
    }
    if e in entries {
      var i :| 0 <= i < |entries| && entries[i] == e;
      assert LinesOf(root, entries)[i] == LineOf(root, e);
    }
  }

  /** In the log of a whole structure: exactly the places without an element have a missing
      line, exactly the structures within eleven indices a structure line, and exactly those at
      eleven indices a line that the limit is reached. */
  lemma OtherLines(h: Heap, r: Ref, root: string, path: IndexPath)
    requires h(r).Structure?
    ensures var log := LinesOf(root, Walk(h, r, [], 0));
      && (MissingLine(root + Render(path)) in log <==> NothingAt(h, r, path) && |path| <= 11)
      && (StructureLine(root + Render(path)) in log <==> StructureIsAt(h, r, path) && 0 < |path| <= 11)
      && (TooDeepLine(root + Render(path)) in log <==> StructureIsAt(h, r, path) && |path| == 11)
      && InvalidLine(root + Render(path)) !in log
  {
    assert [] + path == path;
    EventsAre(h, r, path, 0, path);
    EventLogged(h, r, root, path, Missing(path));
    EventLogged(h, r, root, path, StructureAt(path));
    EventLogged(h, r, root, path, TooDeep(path));
    EventLogged(h, r, root, path, Invalid(path));
  }

  lemma EventLogged(h: Heap, r: Ref, root: string, path: IndexPath, e: Entry)
    requires e.at == path
    ensures LineOf(root, e) in LinesOf(root, Walk(h, r, [], 0)) <==> EventAt(h, r, path, 0, e)
  {
    assert [] + path == path;
    EventsReported(h, r, [], 0, path, e);
    LineInLog(root, Walk(h, r, [], 0), e);
  }

  // ----- the order of the lines -----

  /** `p` is a prefix of `q`, or has the smaller index where they first differ. */
  ghost predicate NotAfter(p: IndexPath, q: IndexPath)
    decreases |p|
  {
    p == [] || (q != [] && (p[0] < q[0] || (p[0] == q[0] && NotAfter(p[1..], q[1..]))))
  }

  ghost predicate InOrder(entries: seq<Entry>)
  {
    forall i, j :: 0 <= i < j < |entries| ==> NotAfter(entries[i].at, entries[j].at)
  }

  lemma {:induction false} PrefixNotAfter(at: IndexPath, p: IndexPath, q: IndexPath)
    requires at <= p && at <= q && (|p| == |at| || (|q| > |at| && |p| > |at| && p[|at|] < q[|at|]))
    ensures NotAfter(p, q)
    decreases |at|
  {
    if at != [] {
      assert at[1..] <= p[1..] && at[1..] <= q[1..];
      PrefixNotAfter(at[1..], p[1..], q[1..]);
    }
  }

  /** The lines come in the order of the elements: a structure before what is in it, and
      everything of one element before everything of the next. */
  lemma {:induction false} WalkInOrder(h: Heap, r: Ref, at: IndexPath, indent: nat)
    ensures InOrder(Walk(h, r, at, indent))
    decreases Levels(indent), 1
  {
    if h(r).Structure? && indent <= MAX_INDENT {
      ElementsInOrder(h, r, |h(r).elements|, at, indent);
    }
  }

  lemma {:induction false} ElementsInOrder(h: Heap, r: Ref, n: nat, at: IndexPath, indent: nat)
    requires h(r).Structure? && n <= |h(r).elements| && indent <= MAX_INDENT
    ensures InOrder(WalkElements(h, r, n, at, indent))
    decreases Levels(indent), 0, n
  {
    if n > 0 {
      var before, here := WalkElements(h, r, n - 1, at, indent), WalkElement(h, r, n - 1, at, indent);
      ElementsInOrder(h, r, n - 1, at, indent);
      ElementInOrder(h, r, n - 1, at, indent);
      ElementsBelow(h, r, n - 1, at, indent);
      EntriesBelow(h, r, n - 1, at, indent);
      forall i, j | 0 <= i < |before| && 0 <= j < |here| ensures NotAfter(before[i].at, here[j].at) {
        assert before[i] in before && here[j] in here;
        assert (at + [n - 1])[|at|] == n - 1 && at <= at + [n - 1];
        PrefixNotAfter(at, before[i].at, here[j].at);
      }
      InOrderAppend(before, here);
    }
  }

  lemma {:induction false} ElementInOrder(h: Heap, r: Ref, i: nat, at: IndexPath, indent: nat)
    requires h(r).Structure? && i < |h(r).elements| && indent <= MAX_INDENT
    ensures InOrder(WalkElement(h, r, i, at, indent))
    decreases Levels(indent), 0, i
  {
    if h(r).elements[i].Some? && h(h(r).elements[i].value).Structure? {
      var c, here := h(r).elements[i].value, at + [i];
      var below := Walk(h, c, here, indent + 1);
      WalkInOrder(h, c, here, indent + 1);
      WalkBelow(h, c, here, indent + 1);
      forall j | 0 <= j < |below| ensures NotAfter(here, below[j].at) {
        assert below[j] in below;
        PrefixNotAfter(here, here, below[j].at);
      }
      InOrderAppend([StructureAt(here)], below);
    }
  }

  lemma InOrderAppend(a: seq<Entry>, b: seq<Entry>)
    requires InOrder(a) && InOrder(b)
    requires forall i, j :: 0 <= i < |a| && 0 <= j < |b| ==> NotAfter(a[i].at, b[j].at)
    ensures InOrder(a + b)
  {
  }
}
