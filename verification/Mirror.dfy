/** Mirroring one directory tree onto another: content first, then modes and times. */
module Mirror {
  import opened Counting

  /** A directory or a regular file; times and modes as plain numbers. */
  datatype Node = File(content: seq<char>, mode: int, mtime: int)
                | Dir(entries: map<string, Node>, mode: int, mtime: int)

  datatype Option<+T> = None | Some(value: T)

  type Path = seq<string>

  /** A line of output, by its tag. */
  datatype Line = Plus(path: Path) | Over(path: Path) | Minus(path: Path) | Perm(path: Path) | Time(path: Path)

  function Entry(dst: Option<Node>, name: string): Option<Node> {
    if dst.Some? && dst.value.Dir? && name in dst.value.entries then Some(dst.value.entries[name]) else None
  }

  function Names(dst: Option<Node>): set<string> {
    if dst.Some? && dst.value.Dir? then dst.value.entries.Keys else {}
  }

  // ------------------------------------------------------------ what can be asked of two trees

  /** Names present on both sides are of one kind. */
  ghost predicate Compatible(src: Node, dst: Node)
    decreases src
  {
    match src
    case File(_, _, _) => dst.File?
    case Dir(entries, _, _) =>
      dst.Dir? && forall n :: n in entries && n in dst.entries ==> Compatible(entries[n], dst.entries[n])
  }

  ghost predicate CompatibleOpt(src: Node, dst: Option<Node>) {
    dst.Some? ==> Compatible(src, dst.value)
  }

  /** The test by which a file counts as up to date. */
  predicate QuickEqual(src: Node, dst: Node) {
    src.File? && dst.File? && src.mtime == dst.mtime && |src.content| == |dst.content|
  }

  /** No file passes the quick test with different content. */
  ghost predicate NoStale(src: Node, dst: Node)
    decreases src
  {
    match src
    case File(content, _, _) => QuickEqual(src, dst) ==> content == dst.content
    case Dir(entries, _, _) =>
      dst.Dir? ==> forall n :: n in entries && n in dst.entries ==> NoStale(entries[n], dst.entries[n])
  }

  ghost predicate NoStaleOpt(src: Node, dst: Option<Node>) {
    dst.Some? ==> NoStale(src, dst.value)
  }

  /** Same names, kinds, sizes, modes and times; contents may differ. */
  ghost predicate Agrees(src: Node, dst: Node)
    decreases src
  {
    && src.mode == dst.mode && src.mtime == dst.mtime
    && match src
       case File(content, _, _) => dst.File? && |content| == |dst.content|
       case Dir(entries, _, _) =>
         dst.Dir? && dst.entries.Keys == entries.Keys
         && forall n :: n in entries ==> Agrees(entries[n], dst.entries[n])
  }

  // ------------------------------------------------------------ specification of the two passes

  /**
   What the content pass may leave behind. New entries get whatever mode and time the system gives; an
   overwritten file keeps its mode, and a directory its mode, and its time too while its names stay.
   */
  ghost predicate Synced(src: Node, dst: Option<Node>, out: Node)
    decreases src
  {
    match src
    case File(content, _, _) =>
      out.File?
      && (if dst.Some? && QuickEqual(src, dst.value) then out == dst.value
          else out.content == content && (dst.Some? ==> out.mode == dst.value.mode))
    case Dir(entries, _, _) =>
      && out.Dir? && out.entries.Keys == entries.Keys
      && (dst.Some? ==> out.mode == dst.value.mode)
      && (dst.Some? && Names(dst) == entries.Keys ==> out.mtime == dst.value.mtime)
      && forall n :: n in entries ==> Synced(entries[n], Entry(dst, n), out.entries[n])
  }

  /** Modes and times of src put onto mid. */
  ghost function Stamp(src: Node, mid: Node): Node
    decreases src
  {
    match src
    case File(_, mode, mtime) => if mid.File? then File(mid.content, mode, mtime) else mid
    case Dir(entries, mode, mtime) =>
      if mid.File? then mid
      else Dir(map n | n in mid.entries :: if n in entries then Stamp(entries[n], mid.entries[n]) else mid.entries[n],
               mode, mtime)
  }

  // ------------------------------------------------------------ the laws of the two passes together

  /** The result has every name, kind, size, mode and time of the source. */
  lemma {:induction false} StampedAgrees(src: Node, dst: Option<Node>, mid: Node)
    requires Synced(src, dst, mid)
    ensures Agrees(src, Stamp(src, mid))
    decreases src
  {
    if src.Dir? {
      forall n | n in src.entries
        ensures Agrees(src.entries[n], Stamp(src.entries[n], mid.entries[n]))
      {
        StampedAgrees(src.entries[n], Entry(dst, n), mid.entries[n]);
      }
    }
  }

  /** The destination becomes equal to the source exactly when no stale file passed the quick test. */
  lemma {:induction false} StampedEqualsSource(src: Node, dst: Option<Node>, mid: Node)
    requires CompatibleOpt(src, dst) && Synced(src, dst, mid)
    ensures Stamp(src, mid) == src <==> NoStaleOpt(src, dst)
    decreases src
  {
    if src.Dir? {
      forall n | n in src.entries
        ensures Stamp(src.entries[n], mid.entries[n]) == src.entries[n] <==> NoStaleOpt(src.entries[n], Entry(dst, n))
      {
        StampedEqualsSource(src.entries[n], Entry(dst, n), mid.entries[n]);
      }
      var out := Stamp(src, mid);
      assert out.entries.Keys == src.entries.Keys;
      assert out == src <==> forall n :: n in src.entries ==> out.entries[n] == src.entries[n];
    }
  }

  /** The content pass leaves a tree that already agrees as it is. */
  lemma {:induction false} AgreeingIsLeftAlone(src: Node, dst: Node, mid: Node)
    requires Agrees(src, dst) && Synced(src, Some(dst), mid)
    ensures mid == dst
    decreases src
  {
    if src.Dir? {
      forall n | n in src.entries
        ensures mid.entries[n] == dst.entries[n]
      {
        AgreeingIsLeftAlone(src.entries[n], dst.entries[n], mid.entries[n]);
      }
      assert mid.entries == dst.entries;
    }
  }

  /** Stamping a tree that already agrees changes nothing. */
  lemma {:induction false} StampOfAgreeing(src: Node, dst: Node)
    requires Agrees(src, dst)
    ensures Stamp(src, dst) == dst
    decreases src
  {
    if src.Dir? {
      forall n | n in src.entries
        ensures Stamp(src.entries[n], dst.entries[n]) == dst.entries[n]
      {
        StampOfAgreeing(src.entries[n], dst.entries[n]);
      }
      assert Stamp(src, dst).entries == dst.entries;
    }
  }

  lemma {:induction false} AgreeingIsCompatible(src: Node, dst: Node)
    requires Agrees(src, dst)
    ensures Compatible(src, dst)
    decreases src
  {
    if src.Dir? {
      forall n | n in src.entries
        ensures Compatible(src.entries[n], dst.entries[n])
      {
        AgreeingIsCompatible(src.entries[n], dst.entries[n]);
      }
    }
  }

  // ------------------------------------------------------------ the lines printed

  /** Exactly these lines, each once, in whatever order the directories were listed. */
  ghost predicate Prints(log: seq<Line>, lines: set<Line>) {
    (forall l :: l in log <==> l in lines) && Distinct(log)
  }

  lemma PrintsBoth(a: seq<Line>, b: seq<Line>, p: set<Line>, q: set<Line>)
    requires Prints(a, p) && Prints(b, q) && p !! q
    ensures Prints(a + b, p + q)
  {
    forall i, j | 0 <= i < j < |a + b|
      ensures (a + b)[i] != (a + b)[j]
    {
      if i < |a| <= j {
        assert a[i] in p && b[j - |a|] in q;
      }
    }
  }

  /** The lines that deleting a tree prints: one for each regular file. */
  ghost function FilesUnder(node: Node, path: Path): set<Line>
    decreases node, 1
  {
    if node.File? then {Minus(path)} else FilesOf(node, node.entries.Keys, path)
  }

  /** Those of some names of a directory. */
  ghost function FilesOf(node: Node, names: set<string>, path: Path): set<Line>
    requires node.Dir?
    decreases node, 0
  {
    set n, l | n in names && n in node.entries && l in FilesUnder(node.entries[n], path + [n]) :: l
  }

  /** The lines of the content pass: new files, overwritten files, and the files under every extra name. */
  ghost function Changes(src: Node, dst: Option<Node>, path: Path): set<Line>
    decreases src, 1
  {
    if src.File? then
      if dst.None? then {Plus(path)} else if QuickEqual(src, dst.value) then {} else {Over(path)}
    else
      ChangesOf(src, dst, src.entries.Keys, path) + Extras(src, dst, path)
  }

  ghost function ChangesOf(src: Node, dst: Option<Node>, names: set<string>, path: Path): set<Line>
    requires src.Dir?
    decreases src, 0
  {
    set n, l | n in names && n in src.entries && l in Changes(src.entries[n], Entry(dst, n), path + [n]) :: l
  }

  ghost function Extras(src: Node, dst: Option<Node>, path: Path): set<Line>
    requires src.Dir?
  {
    if dst.Some? && dst.value.Dir? then FilesOf(dst.value, dst.value.entries.Keys - src.entries.Keys, path) else {}
  }

  /** The lines of the metadata pass: one for every mode and every time that differs. */
  ghost function Touches(src: Node, mid: Node, path: Path): set<Line>
    decreases src, 1
  {
    TouchesHere(src, mid, path)
    + if src.Dir? && mid.Dir? then TouchesOf(src, mid, src.entries.Keys, path) else {}
  }

  ghost function TouchesHere(src: Node, mid: Node, path: Path): set<Line> {
    (if src.mode != mid.mode then {Perm(path)} else {}) + (if src.mtime != mid.mtime then {Time(path)} else {})
  }

  ghost function TouchesOf(src: Node, mid: Node, names: set<string>, path: Path): set<Line>
    requires src.Dir? && mid.Dir?
    decreases src, 0
  {
    set n, l | n in names && n in src.entries && n in mid.entries
               && l in Touches(src.entries[n], mid.entries[n], path + [n]) :: l
  }

  /** One file: overwritten, and one line printed, exactly when its time or its size differs. */
  lemma FileIsCopiedOrKept(src: Node, d: Node, out: Node, path: Path)
    requires src.File? && d.File? && Synced(src, Some(d), out)
    ensures src.mtime != d.mtime || |src.content| != |d.content| ==>
              out.content == src.content && out.mode == d.mode && Changes(src, Some(d), path) == {Over(path)}
    ensures src.mtime == d.mtime && |src.content| == |d.content| ==>
              out == d && Changes(src, Some(d), path) == {}
  {
  }

  // ------------------------------------------------------------ lines of different entries are different

  /** Every line is about something at or under this path. */
  ghost predicate Below(lines: set<Line>, path: Path) {
    forall l :: l in lines ==> path <= l.path
  }

  lemma DeeperIsBelow(lines: set<Line>, path: Path, n: string)
    requires Below(lines, path + [n])
    ensures Below(lines, path)
    ensures forall l :: l in lines ==> |l.path| > |path| && l.path[|path|] == n
  {
    forall l | l in lines
      ensures path <= l.path && |l.path| > |path| && l.path[|path|] == n
    {
      assert l.path[..|path|] == (path + [n])[..|path|] == path;
      assert l.path[|path|] == (path + [n])[|path|];
    }
  }

  /** Every line is about one of these entries. */
  ghost predicate Among(lines: set<Line>, path: Path, names: set<string>) {
    forall l :: l in lines ==> path <= l.path && |l.path| > |path| && l.path[|path|] in names
  }

  lemma AmongOthers(p: set<Line>, q: set<Line>, path: Path, m: set<string>, n: set<string>)
    requires Among(p, path, m) && Among(q, path, n) && m !! n
    ensures p !! q
  {
  }

  lemma {:induction false} FilesAreBelow(node: Node, path: Path)
    ensures Below(FilesUnder(node, path), path)
    decreases node, 1
  {
    if node.Dir? {
      FilesAreAmong(node, node.entries.Keys, path);
    }
  }

  lemma {:induction false} FilesAreAmong(node: Node, names: set<string>, path: Path)
    requires node.Dir?
    ensures Among(FilesOf(node, names, path), path, names)
    decreases node, 0
  {
    forall n | n in node.entries
      ensures Among(FilesUnder(node.entries[n], path + [n]), path, {n})
    {
      FilesAreBelow(node.entries[n], path + [n]);
      DeeperIsBelow(FilesUnder(node.entries[n], path + [n]), path, n);
    }
  }

  lemma {:induction false} ChangesAreBelow(src: Node, dst: Option<Node>, path: Path)
    ensures Below(Changes(src, dst, path), path)
    decreases src, 1
  {
    if src.Dir? {
      ChangesAreAmong(src, dst, src.entries.Keys, path);
      ExtrasAreAmong(src, dst, path);
    }
  }

  lemma {:induction false} ChangesAreAmong(src: Node, dst: Option<Node>, names: set<string>, path: Path)
    requires src.Dir?
    ensures Among(ChangesOf(src, dst, names, path), path, names)
    decreases src, 0
  {
    forall n | n in src.entries
      ensures Among(Changes(src.entries[n], Entry(dst, n), path + [n]), path, {n})
    {
      ChangesAreBelow(src.entries[n], Entry(dst, n), path + [n]);
      DeeperIsBelow(Changes(src.entries[n], Entry(dst, n), path + [n]), path, n);
    }
  }

  lemma ExtrasAreAmong(src: Node, dst: Option<Node>, path: Path)
    requires src.Dir?
    ensures Among(Extras(src, dst, path), path, Names(dst) - src.entries.Keys)
  {
    if dst.Some? && dst.value.Dir? {
      FilesAreAmong(dst.value, dst.value.entries.Keys - src.entries.Keys, path);
    }
  }

  lemma {:induction false} TouchesAreBelow(src: Node, mid: Node, path: Path)
    ensures Below(Touches(src, mid, path), path)
    decreases src, 1
  {
    if src.Dir? && mid.Dir? {
      TouchesAreAmong(src, mid, src.entries.Keys, path);
    }
  }

  lemma {:induction false} TouchesAreAmong(src: Node, mid: Node, names: set<string>, path: Path)
    requires src.Dir? && mid.Dir?
    ensures Among(TouchesOf(src, mid, names, path), path, names)
    decreases src, 0
  {
    forall n | n in src.entries && n in mid.entries
      ensures Among(Touches(src.entries[n], mid.entries[n], path + [n]), path, {n})
    {
      TouchesAreBelow(src.entries[n], mid.entries[n], path + [n]);
      DeeperIsBelow(Touches(src.entries[n], mid.entries[n], path + [n]), path, n);
    }
  }

  // ------------------------------------------------------------ one more entry

  lemma OneMoreDeleted(node: Node, names: set<string>, n: string, path: Path, log: seq<Line>, deeper: seq<Line>)
    requires node.Dir? && n in node.entries && n !in names
    requires Prints(log, FilesOf(node, names, path))
    requires Prints(deeper, FilesUnder(node.entries[n], path + [n]))
    ensures Prints(log + deeper, FilesOf(node, names + {n}, path))
  {
    var p, q := FilesOf(node, names, path), FilesUnder(node.entries[n], path + [n]);
    FilesAreAmong(node, names, path);
    FilesAreBelow(node.entries[n], path + [n]);
    DeeperIsBelow(q, path, n);
    AmongOthers(p, q, path, names, {n});
    PrintsBoth(log, deeper, p, q);
    assert FilesOf(node, names + {n}, path) == p + q;
  }

  lemma OneMoreSynced(src: Node, dst: Option<Node>, names: set<string>, n: string, path: Path,
                      log: seq<Line>, deeper: seq<Line>)
    requires src.Dir? && n in src.entries && n !in names
    requires Prints(log, ChangesOf(src, dst, names, path))
    requires Prints(deeper, Changes(src.entries[n], Entry(dst, n), path + [n]))
    ensures Prints(log + deeper, ChangesOf(src, dst, names + {n}, path))
  {
    var p, q := ChangesOf(src, dst, names, path), Changes(src.entries[n], Entry(dst, n), path + [n]);
    ChangesAreAmong(src, dst, names, path);
    ChangesAreBelow(src.entries[n], Entry(dst, n), path + [n]);
    DeeperIsBelow(q, path, n);
    AmongOthers(p, q, path, names, {n});
    PrintsBoth(log, deeper, p, q);
    assert ChangesOf(src, dst, names + {n}, path) == p + q;
  }

  lemma OneMoreTouched(src: Node, mid: Node, names: set<string>, n: string, path: Path,
                       log: seq<Line>, deeper: seq<Line>)
    requires src.Dir? && mid.Dir? && n in src.entries && n in mid.entries && n !in names
    requires Prints(log, TouchesOf(src, mid, names, path))
    requires Prints(deeper, Touches(src.entries[n], mid.entries[n], path + [n]))
    ensures Prints(log + deeper, TouchesOf(src, mid, names + {n}, path))
  {
    var p, q := TouchesOf(src, mid, names, path), Touches(src.entries[n], mid.entries[n], path + [n]);
    TouchesAreAmong(src, mid, names, path);
    TouchesAreBelow(src.entries[n], mid.entries[n], path + [n]);
    DeeperIsBelow(q, path, n);
    AmongOthers(p, q, path, names, {n});
    PrintsBoth(log, deeper, p, q);
    assert TouchesOf(src, mid, names + {n}, path) == p + q;
  }

  /** Changes and extras are about different names. */
  lemma ChangesAndExtras(src: Node, dst: Option<Node>, path: Path, log: seq<Line>, deeper: seq<Line>)
    requires src.Dir?
    requires Prints(log, ChangesOf(src, dst, src.entries.Keys, path)) && Prints(deeper, Extras(src, dst, path))
    ensures Prints(log + deeper, Changes(src, dst, path))
  {
    ChangesAreAmong(src, dst, src.entries.Keys, path);
    ExtrasAreAmong(src, dst, path);
    AmongOthers(ChangesOf(src, dst, src.entries.Keys, path), Extras(src, dst, path), path,
                src.entries.Keys, Names(dst) - src.entries.Keys);
    PrintsBoth(log, deeper, ChangesOf(src, dst, src.entries.Keys, path), Extras(src, dst, path));
  }

  lemma HereAndDeeper(src: Node, mid: Node, path: Path, log: seq<Line>, deeper: seq<Line>)
    requires src.Dir? && mid.Dir?
    requires Prints(log, TouchesHere(src, mid, path))
    requires Prints(deeper, TouchesOf(src, mid, src.entries.Keys, path))
    ensures Prints(log + deeper, Touches(src, mid, path))
  {
    TouchesAreAmong(src, mid, src.entries.Keys, path);
    PrintsBoth(log, deeper, TouchesHere(src, mid, path), TouchesOf(src, mid, src.entries.Keys, path));
  }

  // ------------------------------------------------------------ deleting

  method DeletePath(node: Node, path: Path) returns (log: seq<Line>)
    ensures Prints(log, FilesUnder(node, path))
    decreases node
  {
    log := [];
    match node
    case File(_, _, _) =>
      log := [Minus(path)];
    case Dir(entries, _, _) =>
      var todo := entries.Keys;
      while todo != {}
        invariant todo <= entries.Keys
        invariant Prints(log, FilesOf(node, entries.Keys - todo, path))
        decreases todo
      {
        var name :| name in todo;
        var deeper := DeletePath(entries[name], path + [name]);
        OneMoreDeleted(node, entries.Keys - todo, name, path, log, deeper);
        assert entries.Keys - todo + {name} == entries.Keys - (todo - {name});
        log := log + deeper;
        todo := todo - {name};
      }
      assert entries.Keys - todo == entries.Keys;
  }

  // ------------------------------------------------------------ the content pass

  method SyncFile(src: Node, dst: Option<Node>, path: Path) returns (out: Node, log: seq<Line>)
    requires src.File? && CompatibleOpt(src, dst)
    ensures Synced(src, dst, out)
    ensures Prints(log, Changes(src, dst, path))
    ensures dst.None? ==> out.File? && out.content == src.content && log == [Plus(path)]
    ensures dst.Some? && (src.mtime != dst.value.mtime || |src.content| != |dst.value.content|) ==>
              out.File? && out.content == src.content && out.mode == dst.value.mode && log == [Over(path)]
    ensures dst.Some? && src.mtime == dst.value.mtime && |src.content| == |dst.value.content| ==>
              out == dst.value && log == []
  {
    var mtime: int := *;
    match dst
    case None =>
      var mode: int := *;
      return File(src.content, mode, mtime), [Plus(path)];
    case Some(d) =>
      if src.mtime == d.mtime && |src.content| == |d.content| {
        return d, [];
      }
      return File(src.content, d.mode, mtime), [Over(path)];
  }

  method SyncDirectory(src: Node, dst: Option<Node>, path: Path) returns (out: Node, log: seq<Line>)
    requires src.Dir? && CompatibleOpt(src, dst)
    ensures Synced(src, dst, out)
    ensures Prints(log, Changes(src, dst, path))
    decreases src, 1
  {
    var now, mode: int := *, *;
    var start := if dst.None? then Dir(map[], mode, now) else dst.value;
    var merged: Node;
    merged, log := SyncEntries(src, dst, start, path);
    var left, mtime, extra := DropExtra(src, merged, path);
    ExtrasAreOfDst(src, dst, start, merged, path);
    ChangesAndExtras(src, dst, path, log, extra);
    log := log + extra;
    out := Dir(left, start.mode, mtime);
  }

  /** Between the two loops: the source's names are synced, the others as they were. */
  ghost predicate Merged(src: Node, dst: Option<Node>, start: Node, merged: Node)
    requires src.Dir? && start.Dir?
  {
    && merged.Dir? && merged.entries.Keys == start.entries.Keys + src.entries.Keys && merged.mode == start.mode
    && (forall n :: n in src.entries ==> Synced(src.entries[n], Entry(dst, n), merged.entries[n]))
    && (forall n :: n in start.entries && n !in src.entries ==> merged.entries[n] == start.entries[n])
    && (src.entries.Keys <= start.entries.Keys ==> merged.mtime == start.mtime)
  }

  /** The first loop: every entry of the source is synced into start, the destination as it is or as it was made. */
  method SyncEntries(src: Node, dst: Option<Node>, start: Node, path: Path) returns (merged: Node, log: seq<Line>)
    requires src.Dir? && CompatibleOpt(src, dst) && start.Dir?
    requires if dst.None? then start.entries == map[] else start == dst.value
    ensures Merged(src, dst, start, merged)
    ensures Prints(log, ChangesOf(src, dst, src.entries.Keys, path))
    decreases src, 0
  {
    log := [];
    var entries, mtime := start.entries, start.mtime;
    var todo := src.entries.Keys;
    while todo != {}
      invariant todo <= src.entries.Keys
      invariant entries.Keys == start.entries.Keys + (src.entries.Keys - todo)
      invariant forall n :: n in src.entries && n !in todo ==> Synced(src.entries[n], Entry(dst, n), entries[n])
      invariant forall n :: n in start.entries && (n in todo || n !in src.entries) ==> entries[n] == start.entries[n]
      invariant src.entries.Keys <= start.entries.Keys ==> mtime == start.mtime
      invariant Prints(log, ChangesOf(src, dst, src.entries.Keys - todo, path))
      decreases todo
    {
      var name :| name in todo;
      var child := src.entries[name];
      var was := if name in entries then Some(entries[name]) else None;
      assert was == Entry(dst, name);
      var updated, deeper;
      if child.Dir? {
        updated, deeper := SyncDirectory(child, was, path + [name]);
      } else {
        updated, deeper := SyncFile(child, was, path + [name]);
      }
      if was.None? {
        mtime := *;
      }
      OneMoreSynced(src, dst, src.entries.Keys - todo, name, path, log, deeper);
      assert src.entries.Keys - todo + {name} == src.entries.Keys - (todo - {name});
      entries := entries[name := updated];
      log := log + deeper;
      todo := todo - {name};
    }
    assert src.entries.Keys - todo == src.entries.Keys;
    merged := Dir(entries, start.mode, mtime);
  }

  lemma ExtrasAreOfDst(src: Node, dst: Option<Node>, start: Node, merged: Node, path: Path)
    requires src.Dir? && CompatibleOpt(src, dst) && start.Dir? && Merged(src, dst, start, merged)
    requires if dst.None? then start.entries == map[] else start == dst.value
    ensures FilesOf(merged, merged.entries.Keys - src.entries.Keys, path) == Extras(src, dst, path)
  {
    var names := merged.entries.Keys - src.entries.Keys;
    assert names == start.entries.Keys - src.entries.Keys;
    assert FilesOf(merged, names, path) == FilesOf(start, names, path) by {
      assert forall n :: n in names ==> merged.entries[n] == start.entries[n];
    }
  }

  /** The second loop: names unknown to the source are deleted. */
  method DropExtra(src: Node, merged: Node, path: Path)
    returns (left: map<string, Node>, mtime: int, log: seq<Line>)
    requires src.Dir? && merged.Dir? && src.entries.Keys <= merged.entries.Keys
    ensures left.Keys == src.entries.Keys && forall n :: n in left ==> left[n] == merged.entries[n]
    ensures merged.entries.Keys == src.entries.Keys ==> mtime == merged.mtime
    ensures Prints(log, FilesOf(merged, merged.entries.Keys - src.entries.Keys, path))
  {
    left, mtime, log := merged.entries, merged.mtime, [];
    var todo := merged.entries.Keys;
    ghost var gone := {};
    while todo != {}
      invariant todo <= merged.entries.Keys && src.entries.Keys <= left.Keys
      invariant gone == merged.entries.Keys - todo - src.entries.Keys
      invariant forall n :: n in left <==> n in merged.entries && n !in gone
      invariant forall n :: n in left ==> left[n] == merged.entries[n]
      invariant gone == {} ==> mtime == merged.mtime
      invariant Prints(log, FilesOf(merged, gone, path))
      decreases todo
    {
      var name :| name in todo;
      todo := todo - {name};
      if name !in src.entries {
        var deeper := DeletePath(merged.entries[name], path + [name]);
        OneMoreDeleted(merged, gone, name, path, log, deeper);
        gone := gone + {name};
        log := log + deeper;
        left := left - {name};
        mtime := *;
      }
    }
    assert gone == merged.entries.Keys - src.entries.Keys;
  }

  // ------------------------------------------------------------ the metadata pass

  method SyncPermissionsAndTimestamps(src: Node, mid: Node, path: Path) returns (out: Node, log: seq<Line>)
    requires Compatible(src, mid)
    ensures out == Stamp(src, mid)
    ensures Prints(log, Touches(src, mid, path))
    decreases src, 1
  {
    log := [];
    var mode, mtime := mid.mode, mid.mtime;
    if src.mode != mode {
      log := log + [Perm(path)];
      mode := src.mode;
    }
    if src.mtime != mtime {
      log := log + [Time(path)];
      mtime := src.mtime;
    }
    if src.File? {
      out := File(mid.content, mode, mtime);
    } else {
      var entries, deeper := StampEntries(src, mid, path);
      HereAndDeeper(src, mid, path, log, deeper);
      log := log + deeper;
      out := Dir(entries, mode, mtime);
    }
  }

  method StampEntries(src: Node, mid: Node, path: Path) returns (entries: map<string, Node>, log: seq<Line>)
    requires src.Dir? && mid.Dir? && Compatible(src, mid)
    ensures entries == Stamp(src, mid).entries
    ensures Prints(log, TouchesOf(src, mid, src.entries.Keys, path))
    decreases src, 0
  {
    entries, log := mid.entries, [];
    var todo := src.entries.Keys;
    while todo != {}
      invariant todo <= src.entries.Keys && entries.Keys == mid.entries.Keys
      invariant forall n :: n in entries ==>
        entries[n] == if n in src.entries && n !in todo then Stamp(src.entries[n], mid.entries[n]) else mid.entries[n]
      invariant Prints(log, TouchesOf(src, mid, src.entries.Keys - todo, path))
      decreases todo
    {
      var name :| name in todo;
      ghost var done := src.entries.Keys - todo;
      assert done + {name} == src.entries.Keys - (todo - {name});
      if name in entries {
        var updated, deeper := SyncPermissionsAndTimestamps(src.entries[name], mid.entries[name], path + [name]);
        OneMoreTouched(src, mid, done, name, path, log, deeper);
        entries := entries[name := updated];
        log := log + deeper;
      } else {
        assert TouchesOf(src, mid, done + {name}, path) == TouchesOf(src, mid, done, path);
      }
      todo := todo - {name};
    }
    assert src.entries.Keys - todo == src.entries.Keys;
  }

  // ------------------------------------------------------------ the whole program

  /** What the content pass leaves can be walked together with the source. */
  lemma {:induction false} SyncedIsCompatible(src: Node, dst: Option<Node>, mid: Node)
    requires Synced(src, dst, mid)
    ensures Compatible(src, mid)
    decreases src
  {
    if src.Dir? {
      forall n | n in src.entries
        ensures Compatible(src.entries[n], mid.entries[n])
      {
        SyncedIsCompatible(src.entries[n], Entry(dst, n), mid.entries[n]);
      }
    }
  }

  /** Nothing is printed about a tree that agrees. */
  lemma {:induction false} AgreeingPrintsNothing(src: Node, dst: Node, path: Path)
    requires Agrees(src, dst)
    ensures Changes(src, Some(dst), path) == {} && Touches(src, dst, path) == {}
    decreases src
  {
    if src.Dir? {
      forall n | n in src.entries
        ensures Changes(src.entries[n], Entry(Some(dst), n), path + [n]) == {}
        ensures Touches(src.entries[n], dst.entries[n], path + [n]) == {}
      {
        AgreeingPrintsNothing(src.entries[n], dst.entries[n], path + [n]);
      }
      assert dst.entries.Keys - src.entries.Keys == {};
    }
  }

  /**
   Idempotence: whatever the first run did, a second one finds nothing to change and nothing to print,
   stale files or not.
   */
  lemma SecondRunIsIdle(src: Node, dst: Option<Node>, mid: Node, mid2: Node, path: Path)
    requires Synced(src, dst, mid) && Synced(src, Some(Stamp(src, mid)), mid2)
    ensures Compatible(src, Stamp(src, mid))
    ensures mid2 == Stamp(src, mid) == Stamp(src, mid2)
    ensures Changes(src, Some(Stamp(src, mid)), path) + Touches(src, mid2, path) == {}
  {
    var out := Stamp(src, mid);
    StampedAgrees(src, dst, mid);
    AgreeingIsCompatible(src, out);
    AgreeingIsLeftAlone(src, out, mid2);
    StampOfAgreeing(src, out);
    AgreeingPrintsNothing(src, out, path);
  }

  /** First the lines of one set, then those of the other. */
  ghost predicate PrintsInTurn(log: seq<Line>, first: set<Line>, second: set<Line>) {
    exists k :: 0 <= k <= |log| && Prints(log[..k], first) && Prints(log[k..], second)
  }

  lemma PrintsOneAfterTheOther(a: seq<Line>, b: seq<Line>, p: set<Line>, q: set<Line>)
    requires Prints(a, p) && Prints(b, q)
    ensures PrintsInTurn(a + b, p, q)
  {
    assert (a + b)[..|a|] == a && (a + b)[|a|..] == b;
  }

  /** Both passes over an existing source; `mid` is what the content pass left. */
  method BothPasses(src: Node, dst: Option<Node>) returns (out: Node, log: seq<Line>, ghost mid: Node)
    requires src.Dir? && CompatibleOpt(src, dst)
    ensures Synced(src, dst, mid) && out == Stamp(src, mid)
    ensures Agrees(src, out) && (out == src <==> NoStaleOpt(src, dst))
    ensures PrintsInTurn(log, Changes(src, dst, []), Touches(src, mid, []))
  {
    var left, lines := SyncDirectory(src, dst, []);
    SyncedIsCompatible(src, dst, left);
    StampedAgrees(src, dst, left);
    StampedEqualsSource(src, dst, left);
    var more;
    out, more := SyncPermissionsAndTimestamps(src, left, []);
    PrintsOneAfterTheOther(lines, more, Changes(src, dst, []), Touches(src, left, []));
    log, mid := lines + more, left;
  }

  /** The destination on disk and the output so far. */
  class Destination {
    var tree: Option<Node>
    var log: seq<Line>

    constructor (tree: Option<Node>)
      ensures this.tree == tree && log == []
    {
      this.tree, log := tree, [];
    }

    /** One run of the program; no source means nothing may remain. */
    method Run(src: Option<Node>) returns (lines: seq<Line>, ghost mid: Node)
      requires src.Some? ==> src.value.Dir? && CompatibleOpt(src.value, tree)
      modifies this
      ensures log == old(log) + lines
      ensures src.None? ==>
        tree == None && Prints(lines, if old(tree).None? then {} else FilesUnder(old(tree).value, []))
      ensures src.Some? ==>
        && Synced(src.value, old(tree), mid) && tree == Some(Stamp(src.value, mid))
        && Agrees(src.value, tree.value) && (tree == src <==> NoStaleOpt(src.value, old(tree)))
        && PrintsInTurn(lines, Changes(src.value, old(tree), []), Touches(src.value, mid, []))
    {
      lines, mid := [], Dir(map[], 0, 0);
      match src {
        case None =>
          if tree.Some? {
            lines := DeletePath(tree.value, []);
            tree := None;
          }
        case Some(root) =>
          var out;
          out, lines, mid := BothPasses(root, tree);
          tree := Some(out);
      }
      log := log + lines;
    }
  }
}
