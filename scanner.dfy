/** The scanner object: the target set it was built with and the set of
    directories it has already processed, which every walk shares. Each
    method is proved to compute what the specification functions of the
    other modules describe. */
module Scanner {
  import opened FsTree
  import opened Classifier
  import opened ManifestReaders
  import opened StoreScanner
  import opened Walker
  import opened Coordinator

  class PackageScanner {
    /** The names to look for. */
    const targetPackages: set<string>
    /** The directories already processed, by any walk. */
    var scannedDirs: set<Path>

    constructor (targets: set<string>)
      ensures targetPackages == targets && scannedDirs == {}
    {
      targetPackages := targets;
      scannedDirs := {};
    }

    /** `scan_node_modules`: the target packages of the store `store` at
        `path`, by one pass over its entries, looking one level into every
        `@scope` entry that can be listed. */
    method ScanNodeModules(path: Path, store: Node, parentManifest: Option<Manifest>)
      returns (found: map<string, InstalledRecord>)
      ensures found == StoreScan(targetPackages, path, store, parentManifest)
    {
      found := map[];
      if !store.readable {
        return;
      }
      var project := StoreOwner(path, parentManifest);
      var es := store.children;
      var i := 0;
      while i < |es|
        invariant 0 <= i <= |es|
        invariant found == StoreEntries(targetPackages, path, es[..i], project)
      {
        StoreEntriesSnoc(targetPackages, path, es, project, i);
        found := ScanEntry(path, es[i], project, found);
        i := i + 1;
      }
      assert es[..i] == es;
    }

    /** One entry of a store, as the loop of `scan_node_modules` treats it:
        a scope is looked into when it can be listed, any other entry is
        matched by its own name; each match is written over `base`. */
    method ScanEntry(path: Path, item: Node, project: string, base: map<string, InstalledRecord>)
      returns (found: map<string, InstalledRecord>)
      ensures found == base + EntryMatches(targetPackages, path, item, project)
    {
      found := base;
      if IsScope(item.name) {
        if item.readable {
          found := ScanScope(path + [item.name], item.name, item.children, project, found);
        } else {
          assert base + map[] == base;
        }
      } else if item.name in targetPackages {
        var rec := InstalledRecord(GetPackageVersion(item.manifest), path + [item.name], project);
        UpdateAsUnion(found, item.name, rec);
        found := found[item.name := rec];
      } else {
        assert base + map[] == base;
      }
    }

    /** The packages of one `@scope` entry of a store, each target among
        them written over `base`. */
    method ScanScope(scopePath: Path, scope: string, gs: seq<Node>, project: string,
                     base: map<string, InstalledRecord>)
      returns (found: map<string, InstalledRecord>)
      ensures found == base + ScopeEntries(targetPackages, scopePath, scope, gs, project)
    {
      found := base;
      var j := 0;
      while j < |gs|
        invariant 0 <= j <= |gs|
        invariant found == base + ScopeEntries(targetPackages, scopePath, scope, gs[..j], project)
      {
        var g := gs[j];
        var key := ScopedKey(scope, g.name);
        ScopeEntriesSnoc(targetPackages, scopePath, scope, gs, project, j);
        if key in targetPackages {
          UpdateOverUnion(base, ScopeEntries(targetPackages, scopePath, scope, gs[..j], project),
                          key, InstalledRecord(GetPackageVersion(g.manifest), scopePath + [g.name], project));
          found := found[key := InstalledRecord(GetPackageVersion(g.manifest), scopePath + [g.name], project)];
        }
        j := j + 1;
      }
      assert gs[..j] == gs;
    }

    /** `scan_package_json`: the target references of a manifest, by reading
        its sections in order and each section's entries one by one. */
    method ScanPackageJson(manifest: Option<Manifest>, file: Path) returns (found: map<string, DepRecord>)
      ensures found == DependencyRefs(targetPackages, manifest, file)
    {
      found := map[];
      if manifest.None? {
        return;
      }
      var m := manifest.value;
      var n := 0;
      while n < |SectionOrder|
        invariant 0 <= n <= |SectionOrder|
        invariant found == SectionsRead(targetPackages, m, file, n)
      {
        found := ScanSection(m, SectionOrder[n], file, found);
        n := n + 1;
      }
    }

    /** One section of `scan_package_json`: its entries, one by one, each
        target among them written over `base`. */
    method ScanSection(m: Manifest, c: DepClass, file: Path, base: map<string, DepRecord>)
      returns (found: map<string, DepRecord>)
      ensures found == base + SectionRefs(targetPackages, m, c, file)
    {
      found := base;
      if c !in m.sections {
        return;
      }
      var sec := m.sections[c];
      var project := ProjectName(m);
      var keys := sec.Keys;
      while keys != {}
        invariant keys <= sec.Keys
        invariant found == base + SectionPart(targetPackages, sec, sec.Keys - keys, c, project, file)
        decreases keys
      {
        var k :| k in keys;
        SectionPartGrows(targetPackages, sec, sec.Keys - keys, k, c, project, file);
        assert sec.Keys - (keys - {k}) == (sec.Keys - keys) + {k};
        if k in targetPackages {
          UpdateOverUnion(base, SectionPart(targetPackages, sec, sec.Keys - keys, c, project, file),
                          k, DepRecord(sec[k], c, project, file));
          found := found[k := DepRecord(sec[k], c, project, file)];
        }
        keys := keys - {k};
      }
      assert sec.Keys - keys == sec.Keys;
    }

    /** The walk below one directory, as `os.walk` visits it top-down with
        the pruning `scan_directory_worker` applies: returns the gathered
        maps and leaves the shared visited set updated. */
    method WalkDirectory(path: Path, node: Node, parentManifest: Option<Manifest>,
                         installed: map<string, InstalledRecord>, deps: map<string, DepRecord>)
      returns (installed': map<string, InstalledRecord>, deps': map<string, DepRecord>)
      modifies this
      ensures WalkState(installed', deps', scannedDirs)
              == WalkNode(targetPackages, path, node, parentManifest, WalkState(installed, deps, old(scannedDirs)))
      decreases node, 1
    {
      installed', deps' := installed, deps;
      var name := Name(path);
      if ShouldSkipDirectory(name, node.readable) {
        return;
      }
      var enter := true;
      if path !in scannedDirs {
        scannedDirs := scannedDirs + {path};
        if name == StoreName {
          var found := ScanNodeModules(path, node, parentManifest);
          installed' := installed' + found;
          return;
        }
        if ManifestFile in node.files {
          var found := ScanPackageJson(node.manifest, path + [ManifestFile]);
          deps' := deps' + found;
        }
        enter := |path| <= MaxParts;
      }
      if enter {
        installed', deps' := WalkChildDirectories(path, node, installed', deps');
      }
    }

    /** The walks of the sub-directories of `node`, in listing order. */
    method WalkChildDirectories(path: Path, node: Node,
                                installed: map<string, InstalledRecord>, deps: map<string, DepRecord>)
      returns (installed': map<string, InstalledRecord>, deps': map<string, DepRecord>)
      modifies this
      ensures WalkState(installed', deps', scannedDirs)
              == WalkChildren(targetPackages, path, node, 0, WalkState(installed, deps, old(scannedDirs)))
      decreases node, 0
    {
      installed', deps' := installed, deps;
      var i := 0;
      while i < |node.children|
        invariant 0 <= i <= |node.children|
        invariant WalkChildren(targetPackages, path, node, i, WalkState(installed', deps', scannedDirs))
                  == WalkChildren(targetPackages, path, node, 0, WalkState(installed, deps, old(scannedDirs)))
      {
        var c := node.children[i];
        installed', deps' := WalkDirectory(path + [c.name], c, node.manifest, installed', deps');
        i := i + 1;
      }
    }

    /** `scan_directory_worker`: what one worker gathers from its root,
        starting from empty maps. */
    method ScanDirectoryWorker(root: SearchRoot)
      returns (installed: map<string, InstalledRecord>, deps: map<string, DepRecord>)
      modifies this
      ensures WalkState(installed, deps, scannedDirs) == RunWorker(targetPackages, root, old(scannedDirs))
    {
      installed, deps := WalkDirectory(root.path, root.node, root.parentManifest, map[], map[]);
    }

    /** `scan_computer` over search roots listed in the order the workers
        complete: each worker's maps are merged into the results in turn,
        then the summary is computed. */
    method ScanComputer(roots: seq<SearchRoot>) returns (results: ScanResults)
      modifies this
      ensures results == ScanOutcome(targetPackages, roots, old(scannedDirs))
      ensures scannedDirs == VisitedAfter(Workers(targetPackages, roots, old(scannedDirs)), old(scannedDirs))
    {
      var installed: map<string, InstalledRecord> := map[];
      var deps: map<string, DepRecord> := map[];
      var i := 0;
      while i < |roots|
        invariant 0 <= i <= |roots|
        invariant var ws := Workers(targetPackages, roots[..i], old(scannedDirs));
                  && installed == Merge(InstalledOf(ws))
                  && deps == Merge(DepsOf(ws))
                  && scannedDirs == VisitedAfter(ws, old(scannedDirs))
      {
        ghost var ws := Workers(targetPackages, roots[..i], old(scannedDirs));
        var inst, dps := ScanDirectoryWorker(roots[i]);
        WorkersSnoc(targetPackages, roots, old(scannedDirs), i);
        ProjectionsSnoc(ws, WalkState(inst, dps, scannedDirs));
        MergeSnoc(InstalledOf(ws), inst);
        MergeSnoc(DepsOf(ws), dps);
        installed := installed + inst;
        deps := deps + dps;
        i := i + 1;
      }
      assert roots[..i] == roots;
      results := ScanResults(installed, deps, Summarize(targetPackages, installed, deps));
    }
  }

  /** The references of class `c` for the target entries of section `sec`
      among the keys `done`. */
  function SectionPart(targets: set<string>, sec: map<string, string>, done: set<string>,
                       c: DepClass, project: string, file: Path): map<string, DepRecord>
  {
    map k | k in done && k in sec && k in targets :: DepRecord(sec[k], c, project, file)
  }

  lemma SectionPartGrows(targets: set<string>, sec: map<string, string>, done: set<string>, k: string,
                         c: DepClass, project: string, file: Path)
    requires k in sec
    ensures SectionPart(targets, sec, done + {k}, c, project, file)
            == if k in targets then SectionPart(targets, sec, done, c, project, file)[k := DepRecord(sec[k], c, project, file)]
               else SectionPart(targets, sec, done, c, project, file)
  {
  }

  lemma UpdateOverUnion<V>(a: map<string, V>, b: map<string, V>, k: string, v: V)
    ensures (a + b)[k := v] == a + b[k := v]
  {
  }

  lemma UpdateAsUnion<V>(a: map<string, V>, k: string, v: V)
    ensures a[k := v] == a + map[k := v]
  {
  }
}
