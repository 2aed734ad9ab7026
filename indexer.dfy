/** The repository walker and index builder of src/indexer.ts: the extension
    allowlist, the case-insensitive extension test, the recursive walk that
    skips ignored and non-regular entries, and the persisted index. */
module Indexer {
  import opened Types
  import opened Text
  import opened Seqs
  import opened Paths

  const DefaultCodeExtensions: seq<string> := [
    ".ts", ".tsx", ".js", ".jsx", ".mjs", ".cjs", ".json", ".py", ".go", ".rs",
    ".java", ".cs", ".php", ".rb", ".c", ".h", ".cpp", ".hpp", ".swift", ".kt", ".kts"
  ]

  const DefaultIgnoreDirs: set<string> := {
    "node_modules", ".git", ".idea", ".vscode", "dist", "build", "out", ".next",
    ".turbo", ".venv", "venv", ".tox", "__pycache__"
  }

  /** A directory tree as `readdirSync(dir, { withFileTypes: true })` sees it.
      Unlistable: a directory whose listing throws.
      File: a regular file; `size` is None when `statSync` throws.
      Special: anything that is neither a directory nor a regular file
      (a symbolic link, a socket, a device). */
  datatype Node =
    | Dir(name: string, children: seq<Node>)
    | Unlistable(name: string)
    | File(name: string, size: Option<nat>)
    | Special(name: string)

  datatype IndexOptions = IndexOptions(
    rootDir: string,
    outputPath: Option<string>,
    extraExtensions: Option<seq<string>>)

  /** `Array.from(new Set([...extras, ...DEFAULT_CODE_EXTENSIONS]))`. The
      extras are taken as given: they are not lower-cased. */
  function Allowlist(extras: seq<string>): seq<string> {
    Dedup(extras + DefaultCodeExtensions)
  }

  lemma AllowlistShape(extras: seq<string>)
    ensures NoDuplicates(Allowlist(extras))
    ensures forall i :: 0 <= i < |extras| ==> extras[i] in Allowlist(extras)
    ensures forall i :: 0 <= i < |DefaultCodeExtensions| ==> DefaultCodeExtensions[i] in Allowlist(extras)
    ensures forall e :: e in Allowlist(extras) ==> e in extras || e in DefaultCodeExtensions
    ensures Dedup(extras) <= Allowlist(extras)
  {
    var all := extras + DefaultCodeExtensions;
    DedupPrefix(extras, DefaultCodeExtensions);
    assert forall i :: 0 <= i < |extras| ==> extras[i] == all[i];
    assert forall i :: 0 <= i < |DefaultCodeExtensions| ==> DefaultCodeExtensions[i] == all[|extras| + i];
  }

  /** isCodeFile: the lower-cased extension of the path is in the list. */
  predicate IsCodeFile(filePath: string, exts: seq<string>) {
    Lower(Extname(filePath)) in exts
  }

  /** The test does not depend on the case of the path. */
  lemma IsCodeFileIgnoresCase(filePath: string, exts: seq<string>)
    ensures IsCodeFile(Lower(filePath), exts) == IsCodeFile(filePath, exts)
  {
    ExtnameLower(filePath);
    LowerIsLower(Extname(filePath));
    LowerOfLower(Lower(Extname(filePath)));
  }

  /** An allowlisted extension with an upper-case letter (possible only for
      an extra, since those are not lower-cased) admits no file at all. */
  lemma UpperCaseExtensionAdmitsNothing(filePath: string, exts: seq<string>, e: string)
    requires !IsLower(e)
    ensures IsCodeFile(filePath, exts) == IsCodeFile(filePath, RemoveAll(exts, e))
  {
    LowerIsLower(Extname(filePath));
  }

  function RemoveAll(exts: seq<string>, e: string): (r: seq<string>)
    ensures forall x :: x in r <==> x in exts && x != e
  {
    if |exts| == 0 then []
    else (if exts[0] == e then [] else [exts[0]]) + RemoveAll(exts[1..], e)
  }

  /** The path of a file relative to the root: `path.relative(rootDir,
      fullPath)`, with the directory segments below the root and the name. */
  function RelPath(dir: seq<string>, name: string): string {
    Join(dir + [name], "/")
  }

  lemma RelPathShape(dir: seq<string>, name: string)
    ensures dir == [] ==> RelPath(dir, name) == name
    ensures dir != [] ==> RelPath(dir, name) == JoinPath(Join(dir, "/"), name)
  {
    assert (dir + [name])[..|dir + [name]| - 1] == dir;
  }

  // ---------------------------------------------------------------------
  // The walk as a specification: what `walk` appends for a directory listing
  // ---------------------------------------------------------------------

  /** The entries pushed while visiting `nodes`, the listing of the directory
      `current` (absolute) whose segments below the root are `dir`. */
  function WalkNodes(current: string, dir: seq<string>, nodes: seq<Node>, exts: seq<string>): seq<IndexEntry>
    decreases nodes
  {
    if |nodes| == 0 then []
    else WalkNodes(current, dir, nodes[..|nodes| - 1], exts) + WalkNode(current, dir, nodes[|nodes| - 1], exts)
  }

  function WalkNode(current: string, dir: seq<string>, node: Node, exts: seq<string>): seq<IndexEntry>
    decreases node
  {
    match node
    case Dir(name, children) =>
      if name in DefaultIgnoreDirs then []
      else WalkNodes(JoinPath(current, name), dir + [name], children, exts)
    case Unlistable(_) => []
    case Special(_) => []
    case File(name, size) => FileEntries(current, dir, name, size, exts)
  }

  /** What a regular file adds: its entry when it is a code file and can be
      stat-ed, nothing otherwise. */
  function FileEntries(current: string, dir: seq<string>, name: string, size: Option<nat>, exts: seq<string>): seq<IndexEntry> {
    var fullPath := JoinPath(current, name);
    if !IsCodeFile(fullPath, exts) then []
    else match size
      case None => []
      case Some(bytes) => [IndexEntry(RelPath(dir, name), bytes, Lower(Extname(fullPath)))]
  }

  /** Some directory the walk descends into cannot be listed, so the
      exception from `readdirSync` escapes the walk. */
  predicate NodesFail(nodes: seq<Node>)
    decreases nodes
  {
    |nodes| > 0 && (NodesFail(nodes[..|nodes| - 1]) || NodeFails(nodes[|nodes| - 1]))
  }

  predicate NodeFails(node: Node)
    decreases node
  {
    match node
    case Dir(name, children) => name !in DefaultIgnoreDirs && NodesFail(children)
    case Unlistable(name) => name !in DefaultIgnoreDirs
    case File(_, _) => false
    case Special(_) => false
  }

  lemma {:induction false} NodesFailPrefix(nodes: seq<Node>, k: nat)
    requires k <= |nodes| && NodesFail(nodes[..k])
    ensures NodesFail(nodes)
    decreases |nodes|
  {
    if k < |nodes| {
      assert nodes[..|nodes| - 1][..k] == nodes[..k];
      NodesFailPrefix(nodes[..|nodes| - 1], k);
    } else {
      assert nodes[..k] == nodes;
    }
  }

  lemma WalkNodesSnoc(current: string, dir: seq<string>, nodes: seq<Node>, i: nat, exts: seq<string>)
    requires i < |nodes|
    ensures WalkNodes(current, dir, nodes[..i + 1], exts) == WalkNodes(current, dir, nodes[..i], exts) + WalkNode(current, dir, nodes[i], exts)
    ensures NodesFail(nodes[..i + 1]) == (NodesFail(nodes[..i]) || NodeFails(nodes[i]))
  {
    assert nodes[..i + 1][..i] == nodes[..i];
  }

  /** Visiting a listing in two parts visits each part in turn. */
  lemma {:induction false} WalkNodesAppend(current: string, dir: seq<string>, a: seq<Node>, b: seq<Node>, exts: seq<string>)
    ensures WalkNodes(current, dir, a + b, exts) == WalkNodes(current, dir, a, exts) + WalkNodes(current, dir, b, exts)
    ensures NodesFail(a + b) == (NodesFail(a) || NodesFail(b))
    decreases |b|
  {
    if |b| == 0 {
      assert a + b == a;
    } else {
      assert (a + b)[..|a + b| - 1] == a + b[..|b| - 1];
      WalkNodesAppend(current, dir, a, b[..|b| - 1], exts);
      AppendAssoc(WalkNodes(current, dir, a, exts), WalkNodes(current, dir, b[..|b| - 1], exts), WalkNode(current, dir, b[|b| - 1], exts));
    }
  }

  /** A file that cannot be stat-ed, a non-regular entry and a directory with
      an ignored name each contribute nothing and cause no failure: the walk
      carries on with the siblings as if the entry were not listed. */
  lemma DroppedEntryLeavesSiblings(current: string, dir: seq<string>, before: seq<Node>, node: Node, after: seq<Node>, exts: seq<string>)
    requires || (node.File? && node.size.None?)
             || node.Special?
             || ((node.Dir? || node.Unlistable?) && node.name in DefaultIgnoreDirs)
    ensures WalkNodes(current, dir, before + [node] + after, exts) == WalkNodes(current, dir, before + after, exts)
    ensures NodesFail(before + [node] + after) == NodesFail(before + after)
  {
    WalkNodesAppend(current, dir, before + [node], after, exts);
    WalkNodesAppend(current, dir, before, [node], exts);
    WalkNodesAppend(current, dir, before, after, exts);
    assert WalkNodes(current, dir, [node], exts) == [] by {
      assert [node][..0] == [];
    }
    assert !NodesFail([node]) by {
      assert [node][..0] == [];
    }
  }

  /** A listing made only of ignored directories yields no entries. */
  lemma {:induction false} OnlyIgnoredYieldsNothing(current: string, dir: seq<string>, nodes: seq<Node>, exts: seq<string>)
    requires forall i :: 0 <= i < |nodes| ==> (nodes[i].Dir? || nodes[i].Unlistable?) && nodes[i].name in DefaultIgnoreDirs
    ensures WalkNodes(current, dir, nodes, exts) == []
    ensures !NodesFail(nodes)
    decreases |nodes|
  {
    if |nodes| > 0 {
      OnlyIgnoredYieldsNothing(current, dir, nodes[..|nodes| - 1], exts);
    }
  }

  predicate EntryWellFormed(e: IndexEntry, exts: seq<string>) {
    && e.ext in exts
    && e.ext == Lower(Extname(e.path))
    && IsLower(e.ext)
  }

  /** Every entry records its own lower-cased extension, which is on the
      allowlist, and sits below the directory it was found in. */
  lemma {:induction false} WalkNodesWellFormed(current: string, dir: seq<string>, nodes: seq<Node>, exts: seq<string>)
    ensures forall e :: e in WalkNodes(current, dir, nodes, exts) ==> EntryWellFormed(e, exts)
    ensures dir != [] ==> forall e :: e in WalkNodes(current, dir, nodes, exts) ==> Join(dir, "/") + "/" <= e.path
    decreases nodes
  {
    if |nodes| > 0 {
      WalkNodesWellFormed(current, dir, nodes[..|nodes| - 1], exts);
      WalkNodeWellFormed(current, dir, nodes[|nodes| - 1], exts);
    }
  }

  lemma {:induction false} WalkNodeWellFormed(current: string, dir: seq<string>, node: Node, exts: seq<string>)
    ensures forall e :: e in WalkNode(current, dir, node, exts) ==> EntryWellFormed(e, exts)
    ensures dir != [] ==> forall e :: e in WalkNode(current, dir, node, exts) ==> Join(dir, "/") + "/" <= e.path
    decreases node
  {
    match node
    case Dir(name, children) =>
      if name !in DefaultIgnoreDirs {
        WalkNodesWellFormed(JoinPath(current, name), dir + [name], children, exts);
        SubdirWellFormed(current, dir, name, children, exts);
      }
    case Unlistable(_) =>
      assert WalkNode(current, dir, node, exts) == [];
    case Special(_) =>
      assert WalkNode(current, dir, node, exts) == [];
    case File(name, size) =>
      FileNodeWellFormed(current, dir, name, size, exts);
  }

  lemma FileNodeWellFormed(current: string, dir: seq<string>, name: string, size: Option<nat>, exts: seq<string>)
    ensures forall e :: e in WalkNode(current, dir, File(name, size), exts) ==> EntryWellFormed(e, exts)
    ensures dir != [] ==> forall e :: e in WalkNode(current, dir, File(name, size), exts) ==> Join(dir, "/") + "/" <= e.path
  {
    var es := FileEntries(current, dir, name, size, exts);
    assert WalkNode(current, dir, File(name, size), exts) == es;
    if IsCodeFile(JoinPath(current, name), exts) && size.Some? {
      var entry := IndexEntry(RelPath(dir, name), size.value, Lower(Extname(JoinPath(current, name))));
      assert es == [entry];
      FileEntryWellFormed(current, dir, name, size.value, exts);
      forall e | e in es ensures e == entry {
      }
    } else {
      assert es == [];
    }
  }

  lemma SubdirWellFormed(current: string, dir: seq<string>, name: string, children: seq<Node>, exts: seq<string>)
    requires name !in DefaultIgnoreDirs
    requires var sub := WalkNodes(JoinPath(current, name), dir + [name], children, exts);
      && (forall e :: e in sub ==> EntryWellFormed(e, exts))
      && (forall e :: e in sub ==> Join(dir + [name], "/") + "/" <= e.path)
    ensures forall e :: e in WalkNode(current, dir, Dir(name, children), exts) ==> EntryWellFormed(e, exts)
    ensures dir != [] ==> forall e :: e in WalkNode(current, dir, Dir(name, children), exts) ==> Join(dir, "/") + "/" <= e.path
  {
    var sub := WalkNodes(JoinPath(current, name), dir + [name], children, exts);
    assert WalkNode(current, dir, Dir(name, children), exts) == sub;
    forall e | e in sub && dir != [] ensures Join(dir, "/") + "/" <= e.path {
      SubdirPrefix(dir, name, e.path);
    }
  }

  /** A path below the subdirectory `dir + [name]` is also below `dir`. */
  lemma SubdirPrefix(dir: seq<string>, name: string, p: string)
    requires dir != [] && Join(dir + [name], "/") + "/" <= p
    ensures Join(dir, "/") + "/" <= p
  {
    RelPathShape(dir, name);
    assert Join(dir + [name], "/") + "/" == Join(dir, "/") + "/" + name + "/";
  }

  lemma FileEntryWellFormed(current: string, dir: seq<string>, name: string, bytes: nat, exts: seq<string>)
    requires IsCodeFile(JoinPath(current, name), exts)
    ensures var fullPath := JoinPath(current, name);
      EntryWellFormed(IndexEntry(RelPath(dir, name), bytes, Lower(Extname(fullPath))), exts)
    ensures dir != [] ==> Join(dir, "/") + "/" <= RelPath(dir, name)
  {
    var fullPath := JoinPath(current, name);
    RelPathShape(dir, name);
    ExtnameAfterSlash(current, name);
    if dir != [] {
      ExtnameAfterSlash(Join(dir, "/"), name);
    }
    LowerIsLower(Extname(fullPath));
  }

  // ---------------------------------------------------------------------
  // The paths of the walk: relative to the root and unique
  // ---------------------------------------------------------------------

  /** A listing as a file system gives it: every name is non-empty and free
      of '/', no two siblings share a name, and so in every subdirectory. */
  predicate WellNamed(nodes: seq<Node>)
    decreases nodes
  {
    && (forall i, j :: 0 <= i < j < |nodes| ==> nodes[i].name != nodes[j].name)
    && (forall i :: 0 <= i < |nodes| ==> nodes[i].name != "" && '/' !in nodes[i].name)
    && (forall i :: 0 <= i < |nodes| && nodes[i].Dir? ==> WellNamed(nodes[i].children))
  }

  function Names(nodes: seq<Node>): seq<string> {
    seq(|nodes|, i requires 0 <= i < |nodes| => nodes[i].name)
  }

  function PathOf(e: IndexEntry): string {
    e.path
  }

  /** The paths of a list of entries, in order. */
  function EntryPaths(entries: seq<IndexEntry>): seq<string> {
    Map(entries, PathOf)
  }

  /** What the relative path of an entry found below `dir` starts with. */
  function Below(dir: seq<string>): string {
    if dir == [] then "" else Join(dir, "/") + "/"
  }

  /** The text up to the first '/'. */
  function Segment(s: string): string
    decreases |s|
  {
    if |s| == 0 || s[0] == '/' then "" else [s[0]] + Segment(s[1..])
  }

  lemma {:induction false} SegmentOf(name: string, rest: string)
    requires '/' !in name
    requires rest == "" || rest[0] == '/'
    ensures Segment(name + rest) == name
    decreases |name|
  {
    if name == "" {
      assert name + rest == rest;
    } else {
      assert (name + rest)[1..] == name[1..] + rest;
      SegmentOf(name[1..], rest);
    }
  }

  lemma BelowSubdir(dir: seq<string>, name: string)
    ensures Below(dir + [name]) == Below(dir) + name + "/"
    ensures RelPath(dir, name) == Below(dir) + name
  {
    RelPathShape(dir, name);
  }

  /** Below a listing whose names are well formed, every path starts with
      the directory's own prefix followed by the name of one entry of the
      listing, and no path occurs twice. */
  lemma {:induction false} WalkNodesPaths(current: string, dir: seq<string>, nodes: seq<Node>, exts: seq<string>)
    requires WellNamed(nodes)
    ensures forall p :: p in EntryPaths(WalkNodes(current, dir, nodes, exts)) ==>
      Below(dir) <= p && Segment(p[|Below(dir)|..]) in Names(nodes)
    ensures NoDuplicates(EntryPaths(WalkNodes(current, dir, nodes, exts)))
    decreases nodes
  {
    if |nodes| > 0 {
      var init := nodes[..|nodes| - 1];
      var last := nodes[|nodes| - 1];
      assert WellNamed(init) by {
        assert forall i :: 0 <= i < |init| ==> init[i] == nodes[i];
      }
      WalkNodesPaths(current, dir, init, exts);
      WalkNodePaths(current, dir, last, exts);
      var a := EntryPaths(WalkNodes(current, dir, init, exts));
      var b := EntryPaths(WalkNode(current, dir, last, exts));
      MapAppend(WalkNodes(current, dir, init, exts), WalkNode(current, dir, last, exts), PathOf);
      assert EntryPaths(WalkNodes(current, dir, nodes, exts)) == a + b;
      forall p | p in a ensures p !in b {
        var k :| 0 <= k < |init| && Names(init)[k] == Segment(p[|Below(dir)|..]);
        assert init[k].name != last.name;
      }
      NoDuplicatesAppend(a, b);
      forall p | p in a + b ensures Segment(p[|Below(dir)|..]) in Names(nodes) {
        if p in a {
          var k :| 0 <= k < |init| && Names(init)[k] == Segment(p[|Below(dir)|..]);
          assert Names(nodes)[k] == Names(init)[k];
        } else {
          assert Names(nodes)[|nodes| - 1] == last.name;
        }
      }
    }
  }

  lemma {:induction false} WalkNodePaths(current: string, dir: seq<string>, node: Node, exts: seq<string>)
    requires node.name != "" && '/' !in node.name
    requires node.Dir? ==> WellNamed(node.children)
    ensures forall p :: p in EntryPaths(WalkNode(current, dir, node, exts)) ==>
      Below(dir) <= p && Segment(p[|Below(dir)|..]) == node.name
    ensures NoDuplicates(EntryPaths(WalkNode(current, dir, node, exts)))
    decreases node
  {
    match node
    case Dir(name, children) =>
      if name !in DefaultIgnoreDirs {
        WalkNodesPaths(JoinPath(current, name), dir + [name], children, exts);
        SubdirPaths(current, dir, name, children, exts);
      } else {
        assert EntryPaths(WalkNode(current, dir, node, exts)) == [];
      }
    case Unlistable(_) =>
      assert EntryPaths(WalkNode(current, dir, node, exts)) == [];
    case Special(_) =>
      assert EntryPaths(WalkNode(current, dir, node, exts)) == [];
    case File(name, size) =>
      FilePaths(current, dir, name, size, exts);
  }

  lemma SubdirPaths(current: string, dir: seq<string>, name: string, children: seq<Node>, exts: seq<string>)
    requires name !in DefaultIgnoreDirs && '/' !in name
    requires var sub := EntryPaths(WalkNodes(JoinPath(current, name), dir + [name], children, exts));
      && NoDuplicates(sub)
      && forall p :: p in sub ==> Below(dir + [name]) <= p
    ensures forall p :: p in EntryPaths(WalkNode(current, dir, Dir(name, children), exts)) ==>
      Below(dir) <= p && Segment(p[|Below(dir)|..]) == name
    ensures NoDuplicates(EntryPaths(WalkNode(current, dir, Dir(name, children), exts)))
  {
    var sub := EntryPaths(WalkNodes(JoinPath(current, name), dir + [name], children, exts));
    assert EntryPaths(WalkNode(current, dir, Dir(name, children), exts)) == sub;
    forall p | p in sub ensures Below(dir) <= p && Segment(p[|Below(dir)|..]) == name {
      SubdirPath(dir, name, p);
    }
  }

  /** A path below the subdirectory `dir + [name]` continues the prefix of
      `dir` with `name` and a '/'. */
  lemma SubdirPath(dir: seq<string>, name: string, p: string)
    requires '/' !in name && Below(dir + [name]) <= p
    ensures Below(dir) <= p && Segment(p[|Below(dir)|..]) == name
  {
    BelowSubdir(dir, name);
    var n := |Below(dir)|;
    assert p[n..] == name + p[n + |name|..];
    SegmentOf(name, p[n + |name|..]);
  }

  lemma FilePaths(current: string, dir: seq<string>, name: string, size: Option<nat>, exts: seq<string>)
    requires '/' !in name
    ensures forall p :: p in EntryPaths(WalkNode(current, dir, File(name, size), exts)) ==>
      Below(dir) <= p && Segment(p[|Below(dir)|..]) == name
    ensures NoDuplicates(EntryPaths(WalkNode(current, dir, File(name, size), exts)))
  {
    FileEntryPaths(current, dir, name, size, exts);
    var p := RelPath(dir, name);
    BelowSubdir(dir, name);
    assert p[|Below(dir)|..] == name + "";
    SegmentOf(name, "");
  }

  /** A file adds its relative path or nothing. */
  lemma FileEntryPaths(current: string, dir: seq<string>, name: string, size: Option<nat>, exts: seq<string>)
    ensures var ps := EntryPaths(WalkNode(current, dir, File(name, size), exts));
      ps == [] || ps == [RelPath(dir, name)]
  {
    var es := FileEntries(current, dir, name, size, exts);
    assert WalkNode(current, dir, File(name, size), exts) == es;
    if IsCodeFile(JoinPath(current, name), exts) && size.Some? {
      assert es == [IndexEntry(RelPath(dir, name), size.value, Lower(Extname(JoinPath(current, name))))];
      MapAt(es, PathOf);
    } else {
      assert es == [];
    }
  }

  /** The entries of the root's listing have paths that are non-empty, do
      not start with '/', and are pairwise distinct. */
  lemma RootPaths(rootDir: string, nodes: seq<Node>, exts: seq<string>)
    requires WellNamed(nodes)
    ensures NoDuplicates(EntryPaths(WalkNodes(rootDir, [], nodes, exts)))
    ensures forall p :: p in EntryPaths(WalkNodes(rootDir, [], nodes, exts)) ==> p != "" && p[0] != '/'
  {
    WalkNodesPaths(rootDir, [], nodes, exts);
    forall p | p in EntryPaths(WalkNodes(rootDir, [], nodes, exts)) ensures p != "" && p[0] != '/' {
      var k :| 0 <= k < |nodes| && Names(nodes)[k] == Segment(p);
      assert Segment(p) != "";
    }
  }

  // ---------------------------------------------------------------------
  // The walk as the source runs it: a recursive visit pushing onto one list
  // ---------------------------------------------------------------------

  /** The closure of `walkDir`: the allowlist and the shared `entries` array. */
  class Walker {
    const exts: seq<string>
    var entries: seq<IndexEntry>

    constructor (exts: seq<string>)
      ensures this.exts == exts && entries == []
    {
      this.exts := exts;
      entries := [];
    }

    /** `walk(currentDir)` over the listing `dirents` of that directory.
        Returns false when a `readdirSync` below it throws. */
    method Walk(currentDir: string, dir: seq<string>, dirents: seq<Node>) returns (ok: bool)
      modifies this
      ensures ok == !NodesFail(dirents)
      ensures ok ==> entries == old(entries) + WalkNodes(currentDir, dir, dirents, exts)
      decreases dirents
    {
      ghost var start := entries;
      var i := 0;
      while i < |dirents|
        invariant 0 <= i <= |dirents|
        invariant !NodesFail(dirents[..i])
        invariant entries == start + WalkNodes(currentDir, dir, dirents[..i], exts)
        decreases |dirents| - i
      {
        ghost var before := entries;
        WalkNodesSnoc(currentDir, dir, dirents, i, exts);
        var visited := Visit(currentDir, dir, dirents[i]);
        if !visited {
          assert NodesFail(dirents[..i + 1]);
          NodesFailPrefix(dirents, i + 1);
          return false;
        }
        assert entries == before + WalkNode(currentDir, dir, dirents[i], exts);
        AppendAssoc(start, WalkNodes(currentDir, dir, dirents[..i], exts), WalkNode(currentDir, dir, dirents[i], exts));
        i := i + 1;
      }
      assert dirents[..i] == dirents;
      return true;
    }

    /** One iteration of the loop in `walk`: one directory entry. */
    method Visit(currentDir: string, dir: seq<string>, dirent: Node) returns (ok: bool)
      modifies this
      ensures ok == !NodeFails(dirent)
      ensures ok ==> entries == old(entries) + WalkNode(currentDir, dir, dirent, exts)
      decreases dirent
    {
      var fullPath := JoinPath(currentDir, dirent.name);
      match dirent {
        case Dir(name, children) =>
          if name in DefaultIgnoreDirs {
            return true;
          }
          ok := Walk(fullPath, dir + [name], children);
        case Unlistable(name) =>
          return name in DefaultIgnoreDirs;
        case Special(_) =>
          return true;
        case File(name, size) =>
          if IsCodeFile(fullPath, exts) {
            match size {
              case Some(bytes) =>
                entries := entries + [IndexEntry(RelPath(dir, name), bytes, Lower(Extname(fullPath)))];
              case None =>
            }
          }
          return true;
      }
    }
  }

  /** `walkDir(rootDir, exts)`: the walk of the root's listing; None when a
      listing throws (the root itself included: a root that is not a
      listable directory fails). The root's own name is never checked
      against the ignore set. */
  method WalkDir(rootDir: string, root: Node, exts: seq<string>) returns (r: Option<seq<IndexEntry>>)
    ensures r.Some? <==> root.Dir? && !NodesFail(root.children)
    ensures r.Some? ==> r.value == WalkNodes(rootDir, [], root.children, exts)
  {
    if !root.Dir? {
      return None;
    }
    var walker := new Walker(exts);
    var ok := walker.Walk(rootDir, [], root.children);
    if !ok {
      return None;
    }
    return Some(walker.entries);
  }

  /** `buildRepoIndex`: the allowlist, the walk, and the write of the index
      file, which fails with the output path. `rootDir` is taken as already
      resolved; `generatedAt` is the clock reading. */
  method BuildRepoIndex(options: IndexOptions, root: Node, generatedAt: string, canWrite: string -> bool)
    returns (r: Result<RepoIndex>)
    ensures var exts := Allowlist(options.extraExtensions.GetOr([]));
      var outputPath := options.outputPath.GetOr(JoinPath(options.rootDir, IndexFileName));
      && (r.Ok? <==> root.Dir? && !NodesFail(root.children) && canWrite(outputPath))
      && (r.Ok? ==> r.value == RepoIndex(options.rootDir, generatedAt, WalkNodes(options.rootDir, [], root.children, exts)))
      && (!(root.Dir? && !NodesFail(root.children)) ==> r == Err(DirectoryUnreadable))
      && (root.Dir? && !NodesFail(root.children) && !canWrite(outputPath) ==> r == Err(IndexWriteFailed(outputPath)))
    ensures r.Ok? && WellNamed(root.children) ==>
      && NoDuplicates(EntryPaths(r.value.entries))
      && forall p :: p in EntryPaths(r.value.entries) ==> p != "" && p[0] != '/'
  {
    var rootDir := options.rootDir;
    var exts := Allowlist(options.extraExtensions.GetOr([]));
    var entries := WalkDir(rootDir, root, exts);
    if entries.None? {
      return Err(DirectoryUnreadable);
    }
    var index := RepoIndex(rootDir, generatedAt, entries.value);
    var outputPath := options.outputPath.GetOr(JoinPath(rootDir, IndexFileName));
    if !canWrite(outputPath) {
      return Err(IndexWriteFailed(outputPath));
    }
    if WellNamed(root.children) {
      RootPaths(rootDir, root.children, exts);
    }
    return Ok(index);
  }
}
