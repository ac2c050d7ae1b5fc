/** The store scanner: which target packages one `node_modules` directory
    holds, looking one level into `@scope` directories. */
module StoreScanner {
  import opened Text
  import opened FsTree
  import opened ManifestReaders

  /** One installed package: its version, its directory and the project
      that owns the store it sits in. */
  datatype InstalledRecord = InstalledRecord(version: string, path: Path, parentProject: string)

  predicate IsScope(name: string) {
    StartsWith(name, "@")
  }

  /** The key of a scoped package; it keeps the `@` of the scope. */
  function ScopedKey(scope: string, pkg: string): (key: string)
    ensures StartsWith(key, scope + "/") && key[|scope| + 1..] == pkg
    ensures IsScope(scope) ==> IsScope(key)
  {
    scope + "/" + pkg
  }

  /** `p` is a package directory of the store at `storePath`: one of its
      entries, or one level inside one of its entries. */
  predicate InStore(p: Path, storePath: Path) {
    storePath <= p && |storePath| < |p| <= |storePath| + 2
  }

  /** The matches among the first `|gs|` packages of a scope directory, in
      listing order, a later entry overwriting an earlier one. */
  function ScopeEntries(targets: set<string>, scopePath: Path, scope: string, gs: seq<Node>, project: string)
    : (r: map<string, InstalledRecord>)
    ensures r.Keys <= targets
    ensures forall k :: k in r ==> r[k].parentProject == project
    ensures forall k :: k in r ==> |r[k].path| == |scopePath| + 1 && scopePath <= r[k].path
    decreases |gs|
  {
    if |gs| == 0 then map[]
    else
      var prev := ScopeEntries(targets, scopePath, scope, gs[..|gs| - 1], project);
      var g := gs[|gs| - 1];
      var key := ScopedKey(scope, g.name);
      if key in targets then prev[key := InstalledRecord(GetPackageVersion(g.manifest), scopePath + [g.name], project)]
      else prev
  }

  /** What one entry of a store contributes. A scope directory is never
      itself matched; a scope that cannot be listed contributes nothing. */
  function EntryMatches(targets: set<string>, storePath: Path, item: Node, project: string)
    : (r: map<string, InstalledRecord>)
    ensures r.Keys <= targets
    ensures forall k :: k in r ==> r[k].parentProject == project
    ensures forall k :: k in r ==> InStore(r[k].path, storePath)
  {
    if IsScope(item.name) then
      if item.readable then ScopeEntries(targets, storePath + [item.name], item.name, item.children, project)
      else map[]
    else if item.name in targets then
      map[item.name := InstalledRecord(GetPackageVersion(item.manifest), storePath + [item.name], project)]
    else map[]
  }

  /** The matches among the first `|es|` entries of a store, in listing order. */
  function StoreEntries(targets: set<string>, storePath: Path, es: seq<Node>, project: string)
    : (r: map<string, InstalledRecord>)
    ensures r.Keys <= targets
    ensures forall k :: k in r ==> r[k].parentProject == project
    ensures forall k :: k in r ==> InStore(r[k].path, storePath)
    decreases |es|
  {
    if |es| == 0 then map[]
    else StoreEntries(targets, storePath, es[..|es| - 1], project) + EntryMatches(targets, storePath, es[|es| - 1], project)
  }

  lemma ScopeEntriesSnoc(targets: set<string>, scopePath: Path, scope: string, gs: seq<Node>, project: string, j: nat)
    requires j < |gs|
    ensures var prev := ScopeEntries(targets, scopePath, scope, gs[..j], project);
            var key := ScopedKey(scope, gs[j].name);
            ScopeEntries(targets, scopePath, scope, gs[..j + 1], project)
            == if key in targets
               then prev[key := InstalledRecord(GetPackageVersion(gs[j].manifest), scopePath + [gs[j].name], project)]
               else prev
  {
    assert gs[..j + 1][..j] == gs[..j];
  }

  lemma StoreEntriesSnoc(targets: set<string>, storePath: Path, es: seq<Node>, project: string, i: nat)
    requires i < |es|
    ensures StoreEntries(targets, storePath, es[..i + 1], project)
            == StoreEntries(targets, storePath, es[..i], project) + EntryMatches(targets, storePath, es[i], project)
  {
    assert es[..i + 1][..i] == es[..i];
  }

  /** The owner of the store at `storePath`, read from its parent directory. */
  function StoreOwner(storePath: Path, parentManifest: Option<Manifest>): (owner: string)
    ensures parentManifest.Some? && parentManifest.value.name.Some? ==> owner == parentManifest.value.name.value
    ensures parentManifest.None? || parentManifest.value.name.None? ==> owner == Name(Parent(storePath))
  {
    FindParentProject(Name(Parent(storePath)), parentManifest)
  }

  /** What `scan_node_modules` returns for the store `store` at `storePath`
      whose parent directory's `package.json` reads as `parentManifest`. */
  function StoreScan(targets: set<string>, storePath: Path, store: Node, parentManifest: Option<Manifest>)
    : (r: map<string, InstalledRecord>)
    ensures r.Keys <= targets
    ensures forall k :: k in r ==> r[k].parentProject == StoreOwner(storePath, parentManifest)
    ensures forall k :: k in r ==> InStore(r[k].path, storePath)
    ensures !store.readable ==> r == map[]
  {
    if store.readable then StoreEntries(targets, storePath, store.children, StoreOwner(storePath, parentManifest))
    else map[]
  }

  /** The names of the unscoped entries of a store. */
  function PlainNames(es: seq<Node>): set<string> {
    set i | 0 <= i < |es| && !IsScope(es[i].name) :: es[i].name
  }

  /** The `@scope/name` keys of the packages inside the listable scopes. */
  function ScopedNames(es: seq<Node>): set<string> {
    set i, j | 0 <= i < |es| && IsScope(es[i].name) && es[i].readable && 0 <= j < |es[i].children|
      :: ScopedKey(es[i].name, es[i].children[j].name)
  }

  lemma {:induction false} ScopeEntriesKeys(targets: set<string>, scopePath: Path, scope: string, gs: seq<Node>, project: string)
    ensures ScopeEntries(targets, scopePath, scope, gs, project).Keys
            == (set j | 0 <= j < |gs| :: ScopedKey(scope, gs[j].name)) * targets
    decreases |gs|
  {
    if |gs| > 0 {
      var n := |gs| - 1;
      ScopeEntriesKeys(targets, scopePath, scope, gs[..n], project);
      assert (set j | 0 <= j < |gs| :: ScopedKey(scope, gs[j].name))
          == (set j | 0 <= j < n :: ScopedKey(scope, gs[..n][j].name)) + {ScopedKey(scope, gs[n].name)};
    }
  }

  lemma PlainNamesSnoc(es: seq<Node>)
    requires |es| > 0
    ensures var item := es[|es| - 1];
            PlainNames(es) == PlainNames(es[..|es| - 1]) + (if IsScope(item.name) then {} else {item.name})
  {
    var n := |es| - 1;
    assert forall i :: 0 <= i < n ==> es[..n][i] == es[i];
  }

  lemma ScopedNamesSnoc(es: seq<Node>)
    requires |es| > 0
    ensures var item := es[|es| - 1];
            ScopedNames(es)
            == ScopedNames(es[..|es| - 1])
               + (if IsScope(item.name) && item.readable
                  then set j | 0 <= j < |item.children| :: ScopedKey(item.name, item.children[j].name)
                  else {})
  {
    var n := |es| - 1;
    assert forall i :: 0 <= i < n ==> es[..n][i] == es[i];
  }

  lemma {:induction false} StoreEntriesKeys(targets: set<string>, storePath: Path, es: seq<Node>, project: string)
    ensures StoreEntries(targets, storePath, es, project).Keys == (PlainNames(es) + ScopedNames(es)) * targets
    decreases |es|
  {
    if |es| > 0 {
      var n := |es| - 1;
      var item := es[n];
      StoreEntriesKeys(targets, storePath, es[..n], project);
      PlainNamesSnoc(es);
      ScopedNamesSnoc(es);
      if IsScope(item.name) && item.readable {
        ScopeEntriesKeys(targets, storePath + [item.name], item.name, item.children, project);
      }
    }
  }

  /** `scan_node_modules` finds exactly the targets among the names of the
      store's unscoped entries and the `@scope/name` keys of the packages in
      its listable scopes: a scope name itself is never tested, an unlistable
      scope is skipped on its own, and an unreadable store yields nothing. */
  lemma StoreScanKeys(targets: set<string>, storePath: Path, store: Node, parentManifest: Option<Manifest>)
    ensures StoreScan(targets, storePath, store, parentManifest).Keys
            == if store.readable then (PlainNames(store.children) + ScopedNames(store.children)) * targets else {}
  {
    if store.readable {
      StoreEntriesKeys(targets, storePath, store.children, StoreOwner(storePath, parentManifest));
    }
  }

  /** No two entries share a name, and no name holds a `/`, as on a real
      file system. */
  predicate ProperEntries(es: seq<Node>) {
    && (forall a, b :: 0 <= a < b < |es| ==> es[a].name != es[b].name)
    && (forall a :: 0 <= a < |es| ==> '/' !in es[a].name)
  }

  /** A scoped key determines its scope and its package. */
  lemma ScopedKeyInjective(s1: string, g1: string, s2: string, g2: string)
    requires '/' !in s1 && '/' !in s2
    requires ScopedKey(s1, g1) == ScopedKey(s2, g2)
    ensures s1 == s2 && g1 == g2
  {
    var k := ScopedKey(s1, g1);
    assert k[|s1|] == '/' && k[|s2|] == '/';
    assert s1 == k[..|s1|] == s2;
    assert g1 == k[|s1| + 1..] == g2;
  }

  /** Every key a scope yields starts with `@`. */
  lemma ScopeKeysScoped(targets: set<string>, scopePath: Path, scope: string, gs: seq<Node>, project: string, k: string)
    requires IsScope(scope)
    requires k in ScopeEntries(targets, scopePath, scope, gs, project)
    ensures IsScope(k)
    ensures exists j :: 0 <= j < |gs| && k == ScopedKey(scope, gs[j].name)
  {
    ScopeEntriesKeys(targets, scopePath, scope, gs, project);
    var j :| 0 <= j < |gs| && k == ScopedKey(scope, gs[j].name);
    assert k[..1] == scope[..1];
  }

  /** Inside one scope, a target package's record holds its version and
      its directory. */
  lemma {:induction false} ScopeRecord(targets: set<string>, scopePath: Path, scope: string, gs: seq<Node>, project: string, j: nat)
    requires j < |gs| && ScopedKey(scope, gs[j].name) in targets
    requires forall a, b :: 0 <= a < b < |gs| ==> gs[a].name != gs[b].name
    ensures var r := ScopeEntries(targets, scopePath, scope, gs, project);
            && ScopedKey(scope, gs[j].name) in r
            && r[ScopedKey(scope, gs[j].name)]
               == InstalledRecord(GetPackageVersion(gs[j].manifest), scopePath + [gs[j].name], project)
    decreases |gs|
  {
    var n := |gs| - 1;
    if j < n {
      ScopeRecord(targets, scopePath, scope, gs[..n], project, j);
      assert ScopedKey(scope, gs[n].name)[|scope| + 1..] == gs[n].name;
      assert ScopedKey(scope, gs[j].name)[|scope| + 1..] == gs[j].name;
    }
  }

  /** A target package stored under its own name: its record holds the
      version from its `package.json`, its directory and the store's owner. */
  lemma {:induction false} PlainRecord(targets: set<string>, storePath: Path, es: seq<Node>, project: string, i: nat)
    requires i < |es| && !IsScope(es[i].name) && es[i].name in targets
    requires ProperEntries(es)
    ensures var r := StoreEntries(targets, storePath, es, project);
            && es[i].name in r
            && r[es[i].name] == InstalledRecord(GetPackageVersion(es[i].manifest), storePath + [es[i].name], project)
    decreases |es|
  {
    var n := |es| - 1;
    if i < n {
      assert ProperEntries(es[..n]) && es[..n][i] == es[i];
      PlainRecord(targets, storePath, es[..n], project, i);
      var item := es[n];
      assert item.name != es[i].name;
      if IsScope(item.name) && item.readable && es[i].name in EntryMatches(targets, storePath, item, project) {
        ScopeKeysScoped(targets, storePath + [item.name], item.name, item.children, project, es[i].name);
      }
    }
  }

  /** A target package inside a listable scope: its record holds the
      version from its `package.json`, its directory and the store's owner. */
  lemma {:induction false} ScopedRecord(targets: set<string>, storePath: Path, es: seq<Node>, project: string, i: nat, j: nat)
    requires i < |es| && IsScope(es[i].name) && es[i].readable
    requires j < |es[i].children| && ScopedKey(es[i].name, es[i].children[j].name) in targets
    requires ProperEntries(es)
    requires forall a, b :: 0 <= a < b < |es[i].children| ==> es[i].children[a].name != es[i].children[b].name
    ensures var r := StoreEntries(targets, storePath, es, project);
            var g := es[i].children[j];
            && ScopedKey(es[i].name, g.name) in r
            && r[ScopedKey(es[i].name, g.name)]
               == InstalledRecord(GetPackageVersion(g.manifest), storePath + [es[i].name, g.name], project)
    decreases |es|
  {
    var n := |es| - 1;
    var g := es[i].children[j];
    var key := ScopedKey(es[i].name, g.name);
    assert storePath + [es[i].name] + [g.name] == storePath + [es[i].name, g.name];
    if i == n {
      ScopeRecord(targets, storePath + [es[i].name], es[i].name, es[i].children, project, j);
    } else {
      ScopedRecord(targets, storePath, es[..n], project, i, j);
      var item := es[n];
      if key in EntryMatches(targets, storePath, item, project) {
        if IsScope(item.name) {
          ScopeKeysScoped(targets, storePath + [item.name], item.name, item.children, project, key);
          var j' :| 0 <= j' < |item.children| && key == ScopedKey(item.name, item.children[j'].name);
          ScopedKeyInjective(item.name, item.children[j'].name, es[i].name, g.name);
        }
      }
    }
  }
}
