/** Concrete scans over small trees. */
module Scenarios {
  import opened FsTree
  import opened Classifier
  import opened ManifestReaders
  import opened StoreScanner
  import opened Walker
  import opened Coordinator

  function Leaf(name: string, manifest: Option<Manifest>): Node {
    Node(name, true, if manifest.Some? then {ManifestFile} else {}, [], manifest)
  }

  function VersionOnly(v: string): Option<Manifest> {
    Some(Manifest(None, Some(v), map[]))
  }

  /** A project `app` whose manifest declares `left-pad` and whose store
      holds `left-pad` 1.3.0. */
  function LeftPadProject(): Node {
    Node("app", true, {ManifestFile},
         [Node(StoreName, true, {}, [Leaf("left-pad", VersionOnly("1.3.0"))], None)],
         Some(Manifest(Some("app"), None, map[Dependencies := map["left-pad" := "^1.0.0"]])))
  }

  /** One installed record with the store's version and one reference with
      the declared range, tagged `dependencies`. */
  lemma LeftPadScenario()
    ensures var r := RunWorker({"left-pad"}, SearchRoot(["/", "app"], LeftPadProject(), None), {});
            && r.installed == map["left-pad" := InstalledRecord("1.3.0", ["/", "app", StoreName, "left-pad"], "app")]
            && r.deps == map["left-pad" := DepRecord("^1.0.0", Dependencies, "app", ["/", "app", ManifestFile])]
            && r.visited == {["/", "app"], ["/", "app", StoreName]}
  {
    LeftPadRoot();
    LeftPadStore();
  }

  /** The `app` directory is processed: its manifest is read, then its one
      child is walked. */
  lemma LeftPadRoot()
    ensures WalkNode({"left-pad"}, ["/", "app"], LeftPadProject(), None, WalkState(map[], map[], {}))
            == WalkChildren({"left-pad"}, ["/", "app"], LeftPadProject(), 0,
                            WalkState(map[], map["left-pad" := DepRecord("^1.0.0", Dependencies, "app", ["/", "app", ManifestFile])],
                                      {["/", "app"]}))
  {
    var refs := LeftPadReferences();
    assert !IsHidden("app") by { assert "app"[0] != '.'; }
    PlainDirectoriesEntered("app");
    assert map[] + refs == refs;
  }

  /** The store below `app` is met for the first time: it is scanned and
      not entered. */
  lemma LeftPadStore()
    ensures var refs := map["left-pad" := DepRecord("^1.0.0", Dependencies, "app", ["/", "app", ManifestFile])];
            WalkChildren({"left-pad"}, ["/", "app"], LeftPadProject(), 0, WalkState(map[], refs, {["/", "app"]}))
            == WalkState(map["left-pad" := InstalledRecord("1.3.0", ["/", "app", StoreName, "left-pad"], "app")],
                         refs, {["/", "app"], ["/", "app", StoreName]})
  {
    var targets := {"left-pad"};
    var root := ["/", "app"];
    var app := LeftPadProject();
    var store := app.children[0];
    var storePath := root + [StoreName];
    var refs := map["left-pad" := DepRecord("^1.0.0", Dependencies, "app", ["/", "app", ManifestFile])];
    var read := WalkState(map[], refs, {root});
    var found := LeftPadInstalled();
    assert !IsHidden("app") by { assert "app"[0] != '.'; }
    PlainDirectoriesEntered("app");
    assert storePath == ["/", "app", StoreName];
    assert Name(storePath) == StoreName && storePath !in read.visited;
    WalkStore(targets, storePath, store, app.manifest, read);
    assert map[] + found == found;
  }

  /** The references the `app` manifest yields. */
  lemma LeftPadReferences() returns (refs: map<string, DepRecord>)
    ensures refs == DependencyRefs({"left-pad"}, LeftPadProject().manifest, ["/", "app"] + [ManifestFile])
    ensures refs == map["left-pad" := DepRecord("^1.0.0", Dependencies, "app", ["/", "app", ManifestFile])]
  {
    var targets := {"left-pad"};
    var root := ["/", "app"];
    var app := LeftPadProject();
    refs := DependencyRefs(targets, app.manifest, root + [ManifestFile]);
    DependencyRefsSpec(targets, app.manifest.value, root + [ManifestFile], "left-pad");
    assert Lists(app.manifest.value, Dependencies, "left-pad");
    assert refs.Keys == {"left-pad"};
    assert refs["left-pad"].dependencyType == Dependencies;
    assert refs["left-pad"].version == "^1.0.0";
    assert root + [ManifestFile] == ["/", "app", ManifestFile];
  }

  /** What the scan of the `app` store finds. */
  lemma LeftPadInstalled() returns (found: map<string, InstalledRecord>)
    ensures var app := LeftPadProject();
            found == StoreScan({"left-pad"}, ["/", "app"] + [StoreName], app.children[0], app.manifest)
    ensures found == map["left-pad" := InstalledRecord("1.3.0", ["/", "app", StoreName, "left-pad"], "app")]
  {
    var targets := {"left-pad"};
    var app := LeftPadProject();
    var store := app.children[0];
    var storePath := ["/", "app"] + [StoreName];
    found := StoreScan(targets, storePath, store, app.manifest);
    StoreScanKeys(targets, storePath, store, app.manifest);
    assert |store.children| == 1 && store.children[0].name == "left-pad";
    assert !IsScope("left-pad") by { assert "left-pad"[0] != '@'; }
    assert PlainNames(store.children) == {"left-pad"};
    assert ScopedNames(store.children) == {};
    PlainRecord(targets, storePath, store.children, StoreOwner(storePath, app.manifest), 0);
    assert StoreOwner(storePath, app.manifest) == "app";
    assert storePath + ["left-pad"] == ["/", "app", StoreName, "left-pad"];
    assert found.Keys == {"left-pad"};
  }

  /** A target listed in all four sections yields a single reference,
      tagged with the last of them. */
  lemma FourSectionsOneReference()
    ensures var m := Manifest(Some("app"), None,
                              map[Dependencies := map["x" := "1"], DevDependencies := map["x" := "2"],
                                  PeerDependencies := map["x" := "3"], OptionalDependencies := map["x" := "4"]]);
            DependencyRefs({"x"}, Some(m), ["/", ManifestFile])
            == map["x" := DepRecord("4", OptionalDependencies, "app", ["/", ManifestFile])]
  {
    var m := Manifest(Some("app"), None,
                      map[Dependencies := map["x" := "1"], DevDependencies := map["x" := "2"],
                          PeerDependencies := map["x" := "3"], OptionalDependencies := map["x" := "4"]]);
    var r := DependencyRefs({"x"}, Some(m), ["/", ManifestFile]);
    DependencyRefsSpec({"x"}, m, ["/", ManifestFile], "x");
    assert Lists(m, OptionalDependencies, "x");
    assert r["x"].dependencyType == OptionalDependencies;
  }

  /** A scoped package matches only under its `@scope/name` key, never
      under the scope or the package name alone. */
  lemma ScopedMatchedOnlyByFullKey()
    ensures var store := Node(StoreName, true, {}, [Node("@acme", true, {}, [Leaf("core", None)], None)], None);
            StoreScan({"@acme", "core", "@acme/core"}, ["/", StoreName], store, None).Keys == {"@acme/core"}
  {
    var store := Node(StoreName, true, {}, [Node("@acme", true, {}, [Leaf("core", None)], None)], None);
    StoreScanKeys({"@acme", "core", "@acme/core"}, ["/", StoreName], store, None);
    assert IsScope("@acme") by { assert "@acme"[..1] == "@"; }
    assert PlainNames(store.children) == {};
    assert store.children[0].children[0].name == "core";
    assert ScopedNames(store.children) == {ScopedKey("@acme", "core")};
    assert ScopedKey("@acme", "core") == "@acme/core";
  }

  /** A store met again by a later walk is entered: the manifest of a
      package inside it is read as a project manifest. */
  lemma RevisitedStoreIsEntered()
    ensures var pkg := Node("pkg", true, {ManifestFile}, [],
                            Some(Manifest(Some("pkg"), None, map[Dependencies := map["x" := "1"]])));
            var store := Node(StoreName, true, {}, [pkg], None);
            var path := ["/", StoreName];
            var r := WalkNode({"x"}, path, store, None, WalkState(map[], map[], {path}));
            r.deps == map["x" := DepRecord("1", Dependencies, "pkg", ["/", StoreName, "pkg", ManifestFile])]
  {
    var m := Manifest(Some("pkg"), None, map[Dependencies := map["x" := "1"]]);
    var file := ["/", StoreName, "pkg", ManifestFile];
    DependencyRefsSpec({"x"}, m, file, "x");
    assert Lists(m, Dependencies, "x");
    var refs := DependencyRefs({"x"}, Some(m), file);
    assert refs.Keys == {"x"} && refs["x"].dependencyType == Dependencies;
    assert refs == map["x" := DepRecord("1", Dependencies, "pkg", file)];
    var pkg := Node("pkg", true, {ManifestFile}, [], Some(m));
    var store := Node(StoreName, true, {}, [pkg], None);
    var path := ["/", StoreName];
    var st := WalkState(map[], map[], {path});
    assert !IsHidden("pkg") by { assert "pkg"[0] != '.'; }
    PlainDirectoriesEntered("pkg");
    var child := path + ["pkg"];
    assert child == ["/", StoreName, "pkg"] && Name(child) == "pkg" && child != path;
    assert child + [ManifestFile] == file;
    assert map[] + refs == refs;
    assert WalkNode({"x"}, child, pkg, None, st) == WalkState(map[], refs, {path, child});
    WalkRevisit({"x"}, path, store, None, st);
  }
}
