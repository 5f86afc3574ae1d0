/**
 What a run of the mirror does, path by path: which file ends up with whose content, and which lines
 are printed. Nothing here refers to the way in which the two passes walk the trees.
 */
module MirrorPaths {
  import opened Mirror

  /** The node at a path below this one. */
  function Find(node: Node, p: Path): Option<Node>
    decreases |p|
  {
    if p == [] then Some(node)
    else if node.Dir? && p[0] in node.entries then Find(node.entries[p[0]], p[1..])
    else None
  }

  function FindIn(dst: Option<Node>, p: Path): Option<Node> {
    if dst.None? then None else Find(dst.value, p)
  }

  predicate IsFile(found: Option<Node>) {
    found.Some? && found.value.File?
  }

  /** The destination's file is kept: its time and its size are the source's. */
  predicate Kept(src: Option<Node>, dst: Option<Node>) {
    IsFile(src) && IsFile(dst) && src.value.mtime == dst.value.mtime && |src.value.content| == |dst.value.content|
  }

  lemma FindInEntry(dst: Option<Node>, p: Path)
    requires p != []
    ensures FindIn(dst, p) == FindIn(Entry(dst, p[0]), p[1..])
  {
  }

  // ------------------------------------------------------------ content

  /** After the content pass exactly the source's paths are there, and a file is the kept or the source's. */
  lemma {:induction false} ContentByPath(src: Node, dst: Option<Node>, mid: Node, p: Path)
    requires Synced(src, dst, mid)
    ensures Find(mid, p).Some? <==> Find(src, p).Some?
    ensures IsFile(Find(mid, p)) <==> IsFile(Find(src, p))
    ensures Kept(Find(src, p), FindIn(dst, p)) ==> Find(mid, p) == FindIn(dst, p)
    ensures IsFile(Find(src, p)) && !Kept(Find(src, p), FindIn(dst, p)) ==>
              Find(mid, p).value.content == Find(src, p).value.content
    decreases |p|
  {
    if p != [] && src.Dir? && p[0] in src.entries {
      FindInEntry(dst, p);
      ContentByPath(src.entries[p[0]], Entry(dst, p[0]), mid.entries[p[0]], p[1..]);
    }
  }

  lemma {:induction false} StampByPath(src: Node, mid: Node, p: Path)
    requires Compatible(src, mid)
    ensures Find(Stamp(src, mid), p).Some? <==> Find(mid, p).Some?
    ensures Find(src, p).Some? && Find(mid, p).Some? ==>
              var out := Find(Stamp(src, mid), p).value;
              && out.mode == Find(src, p).value.mode && out.mtime == Find(src, p).value.mtime
              && (out.File? <==> Find(mid, p).value.File?)
              && (out.File? ==> out.content == Find(mid, p).value.content)
    decreases |p|
  {
    if p != [] && mid.Dir? && p[0] in mid.entries && p[0] in src.entries {
      StampByPath(src.entries[p[0]], mid.entries[p[0]], p[1..]);
    }
  }

  /** Both passes: the source's paths, kinds, modes and times, and its content except in files that were kept. */
  lemma ResultByPath(src: Node, dst: Option<Node>, mid: Node, p: Path)
    requires Synced(src, dst, mid)
    ensures var found, out := Find(src, p), Find(Stamp(src, mid), p);
            && (out.Some? <==> found.Some?) && (IsFile(out) <==> IsFile(found))
            && (found.Some? ==> out.value.mode == found.value.mode && out.value.mtime == found.value.mtime)
            && (IsFile(found) ==>
                  out.value.content ==
                    if Kept(found, FindIn(dst, p)) then FindIn(dst, p).value.content else found.value.content)
  {
    SyncedIsCompatible(src, dst, mid);
    ContentByPath(src, dst, mid, p);
    StampByPath(src, mid, p);
  }

  /** A file that is kept has the source's content. */
  ghost predicate FreshAt(src: Node, dst: Option<Node>, p: Path) {
    Kept(Find(src, p), FindIn(dst, p)) ==> FindIn(dst, p).value.content == Find(src, p).value.content
  }

  lemma {:induction false} NothingStale(src: Node, dst: Option<Node>)
    requires CompatibleOpt(src, dst) && forall p :: FreshAt(src, dst, p)
    ensures NoStaleOpt(src, dst)
    decreases src
  {
    assert FreshAt(src, dst, []);
    if src.Dir? && dst.Some? {
      forall n | n in src.entries && n in dst.value.entries
        ensures NoStaleOpt(src.entries[n], Entry(dst, n))
      {
        forall p
          ensures FreshAt(src.entries[n], Entry(dst, n), p)
        {
          assert ([n] + p)[1..] == p;
          assert FreshAt(src, dst, [n] + p);
        }
        NothingStale(src.entries[n], Entry(dst, n));
      }
    }
  }

  /** The result equals the source exactly when every file of equal time and size had equal content. */
  lemma EqualsSourceByPath(src: Node, dst: Option<Node>, mid: Node)
    requires CompatibleOpt(src, dst) && Synced(src, dst, mid)
    ensures Stamp(src, mid) == src <==> forall p :: FreshAt(src, dst, p)
  {
    StampedEqualsSource(src, dst, mid);
    if forall p :: FreshAt(src, dst, p) {
      NothingStale(src, dst);
    }
    forall p
      ensures Stamp(src, mid) == src ==> FreshAt(src, dst, p)
    {
      ResultByPath(src, dst, mid, p);
    }
  }

  // ------------------------------------------------------------ lines

  lemma Split(base: Path, p: Path)
    ensures p == [] ==> base + p == base
    ensures p != [] ==> base + p == base + [p[0]] + p[1..]
    ensures p != [] ==> base <= base + p && |base + p| > |base| && (base + p)[|base|] == p[0]
  {
  }

  /** A line about something under an entry is printed for that entry or not at all. */
  lemma OnlyThatEntry(lines: set<Line>, base: Path, n: string, p: Path, l: Line)
    requires Below(lines, base + [n]) && p != [] && l.path == base + p && l in lines
    ensures n == p[0]
  {
    DeeperIsBelow(lines, base, n);
    Split(base, p);
  }

  /** Deleting prints a line for exactly the files. */
  lemma {:induction false} DeletedByPath(node: Node, base: Path, p: Path, l: Line)
    requires l.path == base + p
    ensures l in FilesUnder(node, base) <==> l.Minus? && IsFile(Find(node, p))
    decreases |p|
  {
    Split(base, p);
    if node.Dir? {
      if p == [] {
        FilesAreAmong(node, node.entries.Keys, base);
      } else {
        DeletedFromEntry(node, node.entries.Keys, base, p, l);
        if p[0] in node.entries {
          DeletedByPath(node.entries[p[0]], base + [p[0]], p[1..], l);
        }
      }
    }
  }

  lemma DeletedFromEntry(node: Node, names: set<string>, base: Path, p: Path, l: Line)
    requires node.Dir? && p != [] && l.path == base + p
    ensures l in FilesOf(node, names, base) <==>
              p[0] in names && p[0] in node.entries && l in FilesUnder(node.entries[p[0]], base + [p[0]])
  {
    forall n | n in node.entries && l in FilesUnder(node.entries[n], base + [n])
      ensures n == p[0]
    {
      FilesAreBelow(node.entries[n], base + [n]);
      OnlyThatEntry(FilesUnder(node.entries[n], base + [n]), base, n, p, l);
    }
  }

  lemma ChangedInEntry(src: Node, dst: Option<Node>, base: Path, p: Path, l: Line)
    requires src.Dir? && p != [] && l.path == base + p
    ensures l in ChangesOf(src, dst, src.entries.Keys, base) <==>
              p[0] in src.entries && l in Changes(src.entries[p[0]], Entry(dst, p[0]), base + [p[0]])
  {
    forall n | n in src.entries && l in Changes(src.entries[n], Entry(dst, n), base + [n])
      ensures n == p[0]
    {
      ChangesAreBelow(src.entries[n], Entry(dst, n), base + [n]);
      OnlyThatEntry(Changes(src.entries[n], Entry(dst, n), base + [n]), base, n, p, l);
    }
  }

  /** The lines of the content pass: + for a new file, o for one that differs in time or size, - for an extra one. */
  ghost predicate IsChange(src: Option<Node>, dst: Option<Node>, l: Line) {
    match l
    case Plus(_) => IsFile(src) && dst.None?
    case Over(_) => IsFile(src) && dst.Some? && !Kept(src, dst)
    case Minus(_) => src.None? && IsFile(dst)
    case Perm(_) => false
    case Time(_) => false
  }

  lemma {:induction false} ChangesByPath(src: Node, dst: Option<Node>, base: Path, p: Path, l: Line)
    requires CompatibleOpt(src, dst) && l.path == base + p
    ensures l in Changes(src, dst, base) <==> IsChange(Find(src, p), FindIn(dst, p), l)
    decreases |p|
  {
    Split(base, p);
    if src.Dir? {
      if p == [] {
        ChangesAreAmong(src, dst, src.entries.Keys, base);
        ExtrasAreAmong(src, dst, base);
      } else {
        ChangedInEntry(src, dst, base, p, l);
        FindInEntry(dst, p);
        if p[0] in src.entries {
          ExtrasAreAmong(src, dst, base);
          ChangesByPath(src.entries[p[0]], Entry(dst, p[0]), base + [p[0]], p[1..], l);
        } else if dst.Some? {
          DeletedFromEntry(dst.value, dst.value.entries.Keys - src.entries.Keys, base, p, l);
          if p[0] in dst.value.entries {
            DeletedByPath(dst.value.entries[p[0]], base + [p[0]], p[1..], l);
          }
        }
      }
    }
  }

  /** The lines of the metadata pass: p where the mode differs from the source's, t where the time does. */
  ghost predicate IsTouch(src: Option<Node>, mid: Option<Node>, l: Line) {
    && src.Some? && mid.Some?
    && ((l.Perm? && src.value.mode != mid.value.mode) || (l.Time? && src.value.mtime != mid.value.mtime))
  }

  lemma TouchedInEntry(src: Node, mid: Node, base: Path, p: Path, l: Line)
    requires src.Dir? && mid.Dir? && p != [] && l.path == base + p
    ensures l in TouchesOf(src, mid, src.entries.Keys, base) <==>
              && p[0] in src.entries && p[0] in mid.entries
              && l in Touches(src.entries[p[0]], mid.entries[p[0]], base + [p[0]])
  {
    forall n | n in src.entries && n in mid.entries && l in Touches(src.entries[n], mid.entries[n], base + [n])
      ensures n == p[0]
    {
      TouchesAreBelow(src.entries[n], mid.entries[n], base + [n]);
      OnlyThatEntry(Touches(src.entries[n], mid.entries[n], base + [n]), base, n, p, l);
    }
  }

  lemma {:induction false} TouchesByPath(src: Node, mid: Node, base: Path, p: Path, l: Line)
    requires Compatible(src, mid) && l.path == base + p
    ensures l in Touches(src, mid, base) <==> IsTouch(Find(src, p), Find(mid, p), l)
    decreases |p|
  {
    Split(base, p);
    if src.Dir? {
      if p == [] {
        TouchesAreAmong(src, mid, src.entries.Keys, base);
      } else {
        TouchedInEntry(src, mid, base, p, l);
        if p[0] in src.entries && p[0] in mid.entries {
          TouchesByPath(src.entries[p[0]], mid.entries[p[0]], base + [p[0]], p[1..], l);
        }
      }
    }
  }

  lemma OneOrTheOther(lines: seq<Line>, first: set<Line>, second: set<Line>, l: Line)
    requires PrintsInTurn(lines, first, second)
    ensures l in lines <==> l in first || l in second
  {
    var k :| 0 <= k <= |lines| && Prints(lines[..k], first) && Prints(lines[k..], second);
    assert lines == lines[..k] + lines[k..];
  }

  /** A whole run prints exactly these lines, each pass each of its lines once. */
  lemma LinesByPath(src: Node, dst: Option<Node>, mid: Node, lines: seq<Line>, l: Line)
    requires CompatibleOpt(src, dst) && Synced(src, dst, mid)
    requires PrintsInTurn(lines, Changes(src, dst, []), Touches(src, mid, []))
    ensures l in lines <==> IsChange(Find(src, l.path), FindIn(dst, l.path), l)
                            || IsTouch(Find(src, l.path), Find(mid, l.path), l)
  {
    SyncedIsCompatible(src, dst, mid);
    assert [] + l.path == l.path;
    ChangesByPath(src, dst, [], l.path, l);
    TouchesByPath(src, mid, [], l.path, l);
    OneOrTheOther(lines, Changes(src, dst, []), Touches(src, mid, []), l);
  }
}
