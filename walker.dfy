/** The tree walker: what `scan_directory_worker` gathers from one root,
    directory by directory in the top-down order of `os.walk`, with the
    visited set it shares with the other workers. */
module Walker {
  import opened FsTree
  import opened Classifier
  import opened ManifestReaders
  import opened StoreScanner

  /** Children of a path with more parts than this are not entered. */
  const MaxParts: nat := 10

  const ManifestFile: string := "package.json"

  /** What a walk has gathered so far: the installed packages, the
      dependency references and the visited directories. */
  datatype WalkState = WalkState(
    installed: map<string, InstalledRecord>,
    deps: map<string, DepRecord>,
    visited: set<Path>)

  predicate KeysAreTargets(targets: set<string>, st: WalkState) {
    st.installed.Keys <= targets && st.deps.Keys <= targets
  }

  /** The walk of the directory `node` at `path`, whose parent directory's
      `package.json` reads as `parentManifest`, from state `st`:
      - a skipped directory is neither processed nor entered;
      - an already visited directory is not processed, but its children
        are still walked;
      - a package store is scanned and not entered;
      - otherwise its `package.json` is read, and its children are walked
        unless its path has more than `MaxParts` parts. */
  function WalkNode(targets: set<string>, path: Path, node: Node, parentManifest: Option<Manifest>, st: WalkState)
    : (r: WalkState)
    ensures st.visited <= r.visited
    ensures !ShouldSkipDirectory(Name(path), node.readable) ==> path in r.visited
    ensures KeysAreTargets(targets, st) ==> KeysAreTargets(targets, r)
    decreases node, 1
  {
    var name := Name(path);
    if ShouldSkipDirectory(name, node.readable) then st
    else if path in st.visited then WalkChildren(targets, path, node, 0, st)
    else
      var seen := st.(visited := st.visited + {path});
      if name == StoreName then
        seen.(installed := seen.installed + StoreScan(targets, path, node, parentManifest))
      else
        var read :=
          if ManifestFile in node.files then
            seen.(deps := seen.deps + DependencyRefs(targets, node.manifest, path + [ManifestFile]))
          else seen;
        if |path| > MaxParts then read else WalkChildren(targets, path, node, 0, read)
  }

  /** The walks of the children of `node` from the `i`-th on, in listing
      order, each starting from the state the previous one left. */
  function WalkChildren(targets: set<string>, path: Path, node: Node, i: nat, st: WalkState): (r: WalkState)
    requires i <= |node.children|
    ensures st.visited <= r.visited
    ensures KeysAreTargets(targets, st) ==> KeysAreTargets(targets, r)
    decreases node, 0, |node.children| - i
  {
    if i == |node.children| then st
    else
      var c := node.children[i];
      WalkChildren(targets, path, node, i + 1, WalkNode(targets, path + [c.name], c, node.manifest, st))
  }

  /** A skipped directory changes nothing: it is not processed, not marked
      visited, and nothing below it is entered. */
  lemma WalkSkipped(targets: set<string>, path: Path, node: Node, parentManifest: Option<Manifest>, st: WalkState)
    requires ShouldSkipDirectory(Name(path), node.readable)
    ensures WalkNode(targets, path, node, parentManifest, st) == st
  {
  }

  /** An already visited directory is not processed again, yet its children
      are walked: the pruning of package stores and deep paths does not
      apply to it. */
  lemma WalkRevisit(targets: set<string>, path: Path, node: Node, parentManifest: Option<Manifest>, st: WalkState)
    requires !ShouldSkipDirectory(Name(path), node.readable)
    requires path in st.visited
    ensures WalkNode(targets, path, node, parentManifest, st) == WalkChildren(targets, path, node, 0, st)
  {
  }

  /** A package store met for the first time is scanned, marked visited and
      not entered: no path below it becomes visited. */
  lemma WalkStore(targets: set<string>, path: Path, node: Node, parentManifest: Option<Manifest>, st: WalkState)
    requires !ShouldSkipDirectory(Name(path), node.readable)
    requires path !in st.visited && Name(path) == StoreName
    ensures var r := WalkNode(targets, path, node, parentManifest, st);
            && r.visited == st.visited + {path}
            && r.installed == st.installed + StoreScan(targets, path, node, parentManifest)
            && r.deps == st.deps
  {
  }

  /** A directory whose path has more than `MaxParts` parts is still
      processed, but none of its children is entered. */
  lemma WalkDeep(targets: set<string>, path: Path, node: Node, parentManifest: Option<Manifest>, st: WalkState)
    requires !ShouldSkipDirectory(Name(path), node.readable)
    requires path !in st.visited && Name(path) != StoreName
    requires |path| > MaxParts
    ensures var r := WalkNode(targets, path, node, parentManifest, st);
            && r.visited == st.visited + {path}
            && r.installed == st.installed
            && r.deps == st.deps + (if ManifestFile in node.files
                                    then DependencyRefs(targets, node.manifest, path + [ManifestFile])
                                    else map[])
  {
  }

  /** A record path `p` belongs to a store in `dirs`. */
  predicate FromStore(p: Path, dirs: set<Path>) {
    (|p| >= 1 && p[..|p| - 1] in dirs) || (|p| >= 2 && p[..|p| - 2] in dirs)
  }

  /** A reference path `p` is the manifest of a directory in `dirs`. */
  predicate FromManifest(p: Path, dirs: set<Path>) {
    |p| >= 1 && p[..|p| - 1] in dirs && p[|p| - 1] == ManifestFile
  }

  /** From `st` to `r`, a walk of `root` only adds directories below `root`,
      and every record it adds or replaces comes from a store or a manifest
      of a directory it newly visited. */
  predicate Extends(st: WalkState, r: WalkState, root: Path) {
    && st.visited <= r.visited
    && (forall p :: p in r.visited && p !in st.visited ==> Below(p, root))
    && (forall k :: k in r.installed ==>
          (k in st.installed && r.installed[k] == st.installed[k]) || FromStore(r.installed[k].path, r.visited - st.visited))
    && (forall k :: k in r.deps ==>
          (k in st.deps && r.deps[k] == st.deps[k]) || FromManifest(r.deps[k].path, r.visited - st.visited))
  }

  lemma ExtendsTrans(a: WalkState, b: WalkState, c: WalkState, root: Path)
    requires Extends(a, b, root) && Extends(b, c, root)
    ensures Extends(a, c, root)
  {
    forall k | k in c.installed
      ensures (k in a.installed && c.installed[k] == a.installed[k]) || FromStore(c.installed[k].path, c.visited - a.visited)
    {
      var p := c.installed[k].path;
      assert FromStore(p, b.visited - a.visited) ==> FromStore(p, c.visited - a.visited);
      assert FromStore(p, c.visited - b.visited) ==> FromStore(p, c.visited - a.visited);
    }
    forall k | k in c.deps
      ensures (k in a.deps && c.deps[k] == a.deps[k]) || FromManifest(c.deps[k].path, c.visited - a.visited)
    {
      var p := c.deps[k].path;
      assert FromManifest(p, b.visited - a.visited) ==> FromManifest(p, c.visited - a.visited);
    }
  }

  /** Processing a store marks it visited and adds records from it. */
  lemma StoreStepExtends(st: WalkState, path: Path, found: map<string, InstalledRecord>)
    requires path !in st.visited
    requires forall k :: k in found ==> InStore(found[k].path, path)
    ensures Extends(st, st.(visited := st.visited + {path}, installed := st.installed + found), path)
  {
    var r := st.(visited := st.visited + {path}, installed := st.installed + found);
    forall k | k in found
      ensures FromStore(found[k].path, r.visited - st.visited)
    {
      var p := found[k].path;
      assert p[..|path|] == path;
    }
  }

  /** Processing a directory with a manifest marks it visited and adds
      references from its manifest. */
  lemma ManifestStepExtends(st: WalkState, path: Path, found: map<string, DepRecord>)
    requires path !in st.visited
    requires forall k :: k in found ==> found[k].path == path + [ManifestFile]
    ensures Extends(st, st.(visited := st.visited + {path}, deps := st.deps + found), path)
  {
    assert (path + [ManifestFile])[..|path|] == path;
  }

  /** Walking one directory only visits paths below it, and every record it
      adds comes from a store or manifest of a directory it newly visited. */
  lemma {:induction false} WalkNodeExtends(targets: set<string>, path: Path, node: Node, parentManifest: Option<Manifest>, st: WalkState)
    ensures Extends(st, WalkNode(targets, path, node, parentManifest, st), path)
    decreases node, 1
  {
    var name := Name(path);
    if ShouldSkipDirectory(name, node.readable) {
    } else if path in st.visited {
      WalkChildrenExtends(targets, path, node, 0, st);
    } else if name == StoreName {
      StoreStepExtends(st, path, StoreScan(targets, path, node, parentManifest));
    } else {
      var found := if ManifestFile in node.files
                   then DependencyRefs(targets, node.manifest, path + [ManifestFile]) else map[];
      var read := st.(visited := st.visited + {path}, deps := st.deps + found);
      ManifestStepExtends(st, path, found);
      assert st.deps + map[] == st.deps;
      assert WalkNode(targets, path, node, parentManifest, st)
          == if |path| > MaxParts then read else WalkChildren(targets, path, node, 0, read);
      if |path| <= MaxParts {
        WalkChildrenExtends(targets, path, node, 0, read);
        ExtendsTrans(st, read, WalkChildren(targets, path, node, 0, read), path);
      }
    }
  }

  lemma {:induction false} WalkChildrenExtends(targets: set<string>, path: Path, node: Node, i: nat, st: WalkState)
    requires i <= |node.children|
    ensures Extends(st, WalkChildren(targets, path, node, i, st), path)
    decreases node, 0, |node.children| - i
  {
    if i < |node.children| {
      var c := node.children[i];
      var mid := WalkNode(targets, path + [c.name], c, node.manifest, st);
      WalkNodeExtends(targets, path + [c.name], c, node.manifest, st);
      forall p | p in mid.visited && p !in st.visited
        ensures Below(p, path)
      {
        assert Below(p, path + [c.name]);
        assert p[..|path|] == (path + [c.name])[..|path|] == path;
      }
      WalkChildrenExtends(targets, path, node, i + 1, mid);
      ExtendsTrans(st, mid, WalkChildren(targets, path, node, i + 1, mid), path);
    }
  }

  /** No directory at or below `root` has been visited yet. */
  predicate NoneVisitedBelow(visited: set<Path>, root: Path) {
    forall p :: p in visited ==> !Below(p, root)
  }

  /** A path lies below at most one child of a directory. */
  lemma BelowOneChild(p: Path, path: Path, a: string, b: string)
    requires Below(p, path + [a]) && Below(p, path + [b])
    ensures a == b
  {
    assert p[|path|] == (path + [a])[|path|] == (path + [b])[|path|];
  }

  /** Walking the `i`-th child visits nothing below its later siblings,
      since sibling names are distinct. */
  lemma SiblingsStayUnvisited(targets: set<string>, path: Path, node: Node, i: nat, st: WalkState)
    requires i < |node.children|
    requires DistinctNames(node)
    requires forall m :: i < m < |node.children| ==> NoneVisitedBelow(st.visited, path + [node.children[m].name])
    ensures var c := node.children[i];
            var mid := WalkNode(targets, path + [c.name], c, node.manifest, st);
            forall m :: i < m < |node.children| ==> NoneVisitedBelow(mid.visited, path + [node.children[m].name])
  {
    var c := node.children[i];
    var mid := WalkNode(targets, path + [c.name], c, node.manifest, st);
    WalkNodeExtends(targets, path + [c.name], c, node.manifest, st);
    forall m | i < m < |node.children|
      ensures NoneVisitedBelow(mid.visited, path + [node.children[m].name])
    {
      forall p | p in mid.visited
        ensures !Below(p, path + [node.children[m].name])
      {
        if p !in st.visited && Below(p, path + [node.children[m].name]) {
          BelowOneChild(p, path, c.name, node.children[m].name);
        }
      }
    }
  }

  /** The depth bound: on a tree whose sibling directories have distinct
      names, and with nothing at or below the root visited before, a walk
      never visits a path with more parts than `bound`, any bound of at
      least the root's parts and at least `MaxParts + 1`. */
  lemma {:induction false} WalkNodeDepth(targets: set<string>, path: Path, node: Node, parentManifest: Option<Manifest>,
                                         st: WalkState, bound: nat)
    requires DistinctNames(node)
    requires NoneVisitedBelow(st.visited, path)
    requires |path| <= bound && MaxParts + 1 <= bound
    ensures forall p :: p in WalkNode(targets, path, node, parentManifest, st).visited && p !in st.visited ==> |p| <= bound
    decreases node, 1
  {
    var name := Name(path);
    assert path !in st.visited by {
      assert Below(path, path);
    }
    if !ShouldSkipDirectory(name, node.readable) && name != StoreName && |path| <= MaxParts {
      var found := if ManifestFile in node.files
                   then DependencyRefs(targets, node.manifest, path + [ManifestFile]) else map[];
      var read := st.(visited := st.visited + {path}, deps := st.deps + found);
      assert st.deps + map[] == st.deps;
      assert WalkNode(targets, path, node, parentManifest, st) == WalkChildren(targets, path, node, 0, read);
      forall j | 0 <= j < |node.children|
        ensures NoneVisitedBelow(read.visited, path + [node.children[j].name])
      {
        forall p | p in read.visited
          ensures !Below(p, path + [node.children[j].name])
        {
          assert (path + [node.children[j].name])[..|path|] == path;
        }
      }
      WalkChildrenDepth(targets, path, node, 0, read, bound);
    }
  }

  lemma {:induction false} WalkChildrenDepth(targets: set<string>, path: Path, node: Node, i: nat, st: WalkState, bound: nat)
    requires i <= |node.children|
    requires DistinctNames(node)
    requires forall j :: i <= j < |node.children| ==> NoneVisitedBelow(st.visited, path + [node.children[j].name])
    requires |path| + 1 <= bound && MaxParts + 1 <= bound
    ensures forall p :: p in WalkChildren(targets, path, node, i, st).visited && p !in st.visited ==> |p| <= bound
    decreases node, 0, |node.children| - i
  {
    if i < |node.children| {
      var c := node.children[i];
      var child := path + [c.name];
      var mid := WalkNode(targets, child, c, node.manifest, st);
      WalkNodeDepth(targets, child, c, node.manifest, st, bound);
      SiblingsStayUnvisited(targets, path, node, i, st);
      WalkChildrenDepth(targets, path, node, i + 1, mid, bound);
    }
  }

  /** A fresh worker on a tree with distinct sibling names, none of it
      visited before: every package it reports lies below the root, in a
      store at most `bound` parts deep, so at most `bound + 2` parts deep,
      and every reference comes from a manifest at most `bound + 1` parts
      deep. With a root of at most 11 parts, `bound` is 11: a package more
      than 13 parts deep is never found. */
  lemma FreshWalkDepth(targets: set<string>, root: Path, node: Node, parentManifest: Option<Manifest>,
                       visited: set<Path>, bound: nat)
    requires DistinctNames(node)
    requires NoneVisitedBelow(visited, root)
    requires |root| <= bound && MaxParts + 1 <= bound
    ensures var r := WalkNode(targets, root, node, parentManifest, WalkState(map[], map[], visited));
            && (forall k :: k in r.installed ==> |r.installed[k].path| <= bound + 2 && Below(r.installed[k].path, root))
            && (forall k :: k in r.deps ==> |r.deps[k].path| <= bound + 1 && Below(r.deps[k].path, root))
  {
    var st := WalkState(map[], map[], visited);
    var r := WalkNode(targets, root, node, parentManifest, st);
    WalkNodeExtends(targets, root, node, parentManifest, st);
    WalkNodeDepth(targets, root, node, parentManifest, st, bound);
    RecordsWithinDepth(st, r, root, bound);
  }

  /** From empty maps, records added only from directories newly visited
      below `root` and at most `bound` parts deep lie below `root`, at most
      `bound + 2` parts deep for packages and `bound + 1` for references. */
  lemma RecordsWithinDepth(st: WalkState, r: WalkState, root: Path, bound: nat)
    requires st.installed == map[] && st.deps == map[]
    requires Extends(st, r, root)
    requires forall p :: p in r.visited && p !in st.visited ==> |p| <= bound
    ensures forall k :: k in r.installed ==> |r.installed[k].path| <= bound + 2 && Below(r.installed[k].path, root)
    ensures forall k :: k in r.deps ==> |r.deps[k].path| <= bound + 1 && Below(r.deps[k].path, root)
  {
    forall k | k in r.installed
      ensures |r.installed[k].path| <= bound + 2 && Below(r.installed[k].path, root)
    {
      var p := r.installed[k].path;
      var d := if |p| >= 1 && p[..|p| - 1] in r.visited - st.visited then p[..|p| - 1] else p[..|p| - 2];
      assert d in r.visited - st.visited && d <= p;
    }
    forall k | k in r.deps
      ensures |r.deps[k].path| <= bound + 1 && Below(r.deps[k].path, root)
    {
      var p := r.deps[k].path;
      assert p[..|p| - 1] <= p;
    }
  }

  /** A walk never loses a key: what was installed or referenced before
      stays so, though a later record may replace it. */
  lemma {:induction false} WalkNodeKeysGrow(targets: set<string>, path: Path, node: Node, parentManifest: Option<Manifest>,
                                            st: WalkState)
    ensures var r := WalkNode(targets, path, node, parentManifest, st);
            st.installed.Keys <= r.installed.Keys && st.deps.Keys <= r.deps.Keys
    decreases node, 1
  {
    var name := Name(path);
    if ShouldSkipDirectory(name, node.readable) {
    } else if path in st.visited {
      WalkChildrenKeysGrow(targets, path, node, 0, st);
    } else if name != StoreName {
      var found := if ManifestFile in node.files
                   then DependencyRefs(targets, node.manifest, path + [ManifestFile]) else map[];
      var read := st.(visited := st.visited + {path}, deps := st.deps + found);
      assert st.deps + map[] == st.deps;
      if |path| <= MaxParts {
        WalkChildrenKeysGrow(targets, path, node, 0, read);
      }
    }
  }

  lemma {:induction false} WalkChildrenKeysGrow(targets: set<string>, path: Path, node: Node, i: nat, st: WalkState)
    requires i <= |node.children|
    ensures var r := WalkChildren(targets, path, node, i, st);
            st.installed.Keys <= r.installed.Keys && st.deps.Keys <= r.deps.Keys
    decreases node, 0, |node.children| - i
  {
    if i < |node.children| {
      var c := node.children[i];
      var mid := WalkNode(targets, path + [c.name], c, node.manifest, st);
      WalkNodeKeysGrow(targets, path + [c.name], c, node.manifest, st);
      WalkChildrenKeysGrow(targets, path, node, i + 1, mid);
    }
  }

  /** A directory the walk processes and enters: not skipped, not a
      package store, and with at least one and at most `MaxParts` parts. */
  predicate Entered(path: Path, node: Node) {
    && !ShouldSkipDirectory(Name(path), node.readable) && Name(path) != StoreName
    && 1 <= |path| <= MaxParts
  }

  /** A fresh directory that is entered is marked visited, its manifest is
      read, and then its children are walked from a state `read` in which
      nothing below any child is visited. */
  lemma EnteredFresh(targets: set<string>, path: Path, node: Node, parentManifest: Option<Manifest>, st: WalkState)
    returns (read: WalkState)
    requires NoneVisitedBelow(st.visited, path)
    requires Entered(path, node)
    ensures read == st.(visited := st.visited + {path},
                        deps := st.deps + (if ManifestFile in node.files
                                           then DependencyRefs(targets, node.manifest, path + [ManifestFile])
                                           else map[]))
    ensures WalkNode(targets, path, node, parentManifest, st) == WalkChildren(targets, path, node, 0, read)
    ensures forall m :: 0 <= m < |node.children| ==> NoneVisitedBelow(read.visited, path + [node.children[m].name])
  {
    assert path !in st.visited by {
      assert Below(path, path);
    }
    var found := if ManifestFile in node.files
                 then DependencyRefs(targets, node.manifest, path + [ManifestFile]) else map[];
    read := st.(visited := st.visited + {path}, deps := st.deps + found);
    assert st.deps + map[] == st.deps;
    forall m | 0 <= m < |node.children|
      ensures NoneVisitedBelow(read.visited, path + [node.children[m].name])
    {
      forall p | p in read.visited
        ensures !Below(p, path + [node.children[m].name])
      {
        assert (path + [node.children[m].name])[..|path|] == path;
      }
    }
  }

  /** The walks of the children from the `k`-th on reach the `i`-th child
      in a state `pre` in which nothing below it is visited yet, and keep
      every key its walk reports. */
  lemma {:induction false} ReachChild(targets: set<string>, path: Path, node: Node, k: nat, st: WalkState, i: nat)
    returns (pre: WalkState)
    requires k <= i < |node.children|
    requires DistinctNames(node)
    requires forall m :: k <= m < |node.children| ==> NoneVisitedBelow(st.visited, path + [node.children[m].name])
    ensures NoneVisitedBelow(pre.visited, path + [node.children[i].name])
    ensures var c := node.children[i];
            var w := WalkNode(targets, path + [c.name], c, node.manifest, pre);
            var r := WalkChildren(targets, path, node, k, st);
            w.installed.Keys <= r.installed.Keys && w.deps.Keys <= r.deps.Keys
    decreases |node.children| - k
  {
    var c := node.children[k];
    var mid := WalkNode(targets, path + [c.name], c, node.manifest, st);
    assert WalkChildren(targets, path, node, k, st) == WalkChildren(targets, path, node, k + 1, mid);
    if k == i {
      pre := st;
      WalkChildrenKeysGrow(targets, path, node, k + 1, mid);
    } else {
      SiblingsStayUnvisited(targets, path, node, k, st);
      pre := ReachChild(targets, path, node, k + 1, mid, i);
    }
  }

  /** A readable `node_modules` directory not visited before is scanned,
      and the walk reports every target it holds. */
  lemma FreshStoreScanned(targets: set<string>, path: Path, store: Node, parentManifest: Option<Manifest>, st: WalkState)
    requires |path| >= 1 && store.name == StoreName && store.readable
    requires path + [StoreName] !in st.visited
    ensures StoreScan(targets, path + [StoreName], store, parentManifest).Keys
            <= WalkNode(targets, path + [StoreName], store, parentManifest, st).installed.Keys
  {
    var storePath := path + [StoreName];
    assert Name(storePath) == StoreName;
    assert !IsHidden(StoreName) by { assert StoreName[0] != '.'; }
    PlainDirectoriesEntered(StoreName);
    WalkStore(targets, storePath, store, parentManifest, st);
  }

  /** On a tree with distinct sibling names, none of it visited before, a
      readable `node_modules` directly inside the walk's root, when the
      root is entered, is scanned and every target it holds is reported. */
  lemma FreshStoreFound(targets: set<string>, path: Path, node: Node, parentManifest: Option<Manifest>,
                        st: WalkState, j: nat)
    requires DistinctNames(node)
    requires NoneVisitedBelow(st.visited, path)
    requires Entered(path, node)
    requires j < |node.children| && node.children[j].name == StoreName && node.children[j].readable
    ensures StoreScan(targets, path + [StoreName], node.children[j], node.manifest).Keys
            <= WalkNode(targets, path, node, parentManifest, st).installed.Keys
  {
    var read := EnteredFresh(targets, path, node, parentManifest, st);
    var pre := ReachChild(targets, path, node, 0, read, j);
    assert Below(path + [StoreName], path + [StoreName]);
    FreshStoreScanned(targets, path, node.children[j], node.manifest, pre);
  }

  /** On a fresh walk, the `package.json` of an entered root is read and
      every target it lists is referenced afterwards. */
  lemma FreshManifestFound(targets: set<string>, path: Path, node: Node, parentManifest: Option<Manifest>, st: WalkState)
    requires NoneVisitedBelow(st.visited, path)
    requires Entered(path, node) && ManifestFile in node.files
    ensures DependencyRefs(targets, node.manifest, path + [ManifestFile]).Keys
            <= WalkNode(targets, path, node, parentManifest, st).deps.Keys
  {
    var read := EnteredFresh(targets, path, node, parentManifest, st);
    WalkChildrenKeysGrow(targets, path, node, 0, read);
  }

  /** Following the child indices of `chain` down from `node` at `path`
      leads to `last` at `end`, and every directory on the way, `node` and
      `last` included, is entered by the walk. */
  predicate EnteredChain(path: Path, node: Node, chain: seq<nat>, end: Path, last: Node)
    decreases |chain|
  {
    && Entered(path, node)
    && if chain == [] then end == path && last == node
       else
         && chain[0] < |node.children|
         && EnteredChain(path + [node.children[chain[0]].name], node.children[chain[0]], chain[1..], end, last)
  }

  /** The other half of the depth bound: on a tree with distinct sibling
      names, none of it visited before, a readable `node_modules` anywhere
      below the root is scanned, and every target it holds is reported,
      when every directory above it down from the root is entered, that
      is, has at most `MaxParts` parts and is neither skipped nor a store. */
  lemma {:induction false} StoreFoundBelow(targets: set<string>, path: Path, node: Node, parentManifest: Option<Manifest>,
                                           st: WalkState, chain: seq<nat>, end: Path, last: Node, j: nat)
    requires DistinctNames(node)
    requires NoneVisitedBelow(st.visited, path)
    requires EnteredChain(path, node, chain, end, last)
    requires j < |last.children| && last.children[j].name == StoreName && last.children[j].readable
    ensures StoreScan(targets, end + [StoreName], last.children[j], last.manifest).Keys
            <= WalkNode(targets, path, node, parentManifest, st).installed.Keys
    decreases |chain|
  {
    if chain == [] {
      FreshStoreFound(targets, path, node, parentManifest, st, j);
    } else {
      var c := node.children[chain[0]];
      var read := EnteredFresh(targets, path, node, parentManifest, st);
      var pre := ReachChild(targets, path, node, 0, read, chain[0]);
      StoreFoundBelow(targets, path + [c.name], c, node.manifest, pre, chain[1..], end, last, j);
    }
  }

  /** The same for references: on a fresh walk of a tree with distinct
      sibling names, the `package.json` of a directory at any depth is read
      and every target it lists is referenced, when every directory from
      the root down to it is entered. */
  lemma {:induction false} ManifestFoundBelow(targets: set<string>, path: Path, node: Node, parentManifest: Option<Manifest>,
                                              st: WalkState, chain: seq<nat>, end: Path, last: Node)
    requires DistinctNames(node)
    requires NoneVisitedBelow(st.visited, path)
    requires EnteredChain(path, node, chain, end, last)
    requires ManifestFile in last.files
    ensures DependencyRefs(targets, last.manifest, end + [ManifestFile]).Keys
            <= WalkNode(targets, path, node, parentManifest, st).deps.Keys
    decreases |chain|
  {
    if chain == [] {
      FreshManifestFound(targets, path, node, parentManifest, st);
    } else {
      var c := node.children[chain[0]];
      var read := EnteredFresh(targets, path, node, parentManifest, st);
      var pre := ReachChild(targets, path, node, 0, read, chain[0]);
      ManifestFoundBelow(targets, path + [c.name], c, node.manifest, pre, chain[1..], end, last);
    }
  }
}
