/** The scan coordinator: one walk per search root, sharing the visited
    set, their results merged one after another into the final maps, and
    the summary counts. */
module Coordinator {
  import opened FsTree
  import opened ManifestReaders
  import opened StoreScanner
  import opened Walker

  /** The key-wise union of the results in order, a later result's record
      overwriting an earlier one (`dict.update`). */
  function Merge<V>(rs: seq<map<string, V>>): (r: map<string, V>)
    ensures forall k :: k in r <==> exists i :: 0 <= i < |rs| && k in rs[i]
    decreases |rs|
  {
    if |rs| == 0 then map[]
    else
      var prev := Merge(rs[..|rs| - 1]);
      assert forall i :: 0 <= i < |rs| - 1 ==> rs[..|rs| - 1][i] == rs[i];
      prev + rs[|rs| - 1]
  }

  /** Last writer wins: a key ends up with the record of the last result
      that holds it. */
  lemma {:induction false} MergeLastWins<V>(rs: seq<map<string, V>>, j: nat, k: string)
    requires j < |rs| && k in rs[j]
    requires forall i :: j < i < |rs| ==> k !in rs[i]
    ensures k in Merge(rs) && Merge(rs)[k] == rs[j][k]
    decreases |rs|
  {
    if j < |rs| - 1 {
      MergeLastWins(rs[..|rs| - 1], j, k);
    }
  }

  predicate PairwiseDisjoint<V>(rs: seq<map<string, V>>) {
    forall i, j :: 0 <= i < j < |rs| ==> rs[i].Keys !! rs[j].Keys
  }

  /** Without shared keys, every record survives the merge unchanged. */
  lemma MergeDisjointKeeps<V>(rs: seq<map<string, V>>, j: nat, k: string)
    requires PairwiseDisjoint(rs)
    requires j < |rs| && k in rs[j]
    ensures k in Merge(rs) && Merge(rs)[k] == rs[j][k]
  {
    forall i | j < i < |rs|
      ensures k !in rs[i]
    {
      assert rs[j].Keys !! rs[i].Keys;
    }
    MergeLastWins(rs, j, k);
  }

  /** Merging results without shared keys does not depend on the order in
      which the workers complete. */
  lemma MergeDisjointOrderFree<V>(rs: seq<map<string, V>>, ps: seq<map<string, V>>)
    requires multiset(rs) == multiset(ps)
    requires PairwiseDisjoint(rs) && PairwiseDisjoint(ps)
    ensures Merge(rs) == Merge(ps)
  {
    forall k | k in Merge(rs)
      ensures k in Merge(ps) && Merge(ps)[k] == Merge(rs)[k]
    {
      var j :| 0 <= j < |rs| && k in rs[j];
      assert rs[j] in multiset(ps);
      var j' :| 0 <= j' < |ps| && ps[j'] == rs[j];
      MergeDisjointKeeps(rs, j, k);
      MergeDisjointKeeps(ps, j', k);
    }
    forall k | k in Merge(ps)
      ensures k in Merge(rs)
    {
      var j' :| 0 <= j' < |ps| && k in ps[j'];
      assert ps[j'] in multiset(rs);
    }
  }

  /** A search root: its path, its directory tree, and what reading the
      `package.json` of its parent directory yields. */
  datatype SearchRoot = SearchRoot(path: Path, node: Node, parentManifest: Option<Manifest>)

  /** What `scan_directory_worker` returns for one root, and the visited
      set it leaves. */
  function RunWorker(targets: set<string>, root: SearchRoot, visited: set<Path>): (r: WalkState)
    ensures KeysAreTargets(targets, r)
    ensures visited <= r.visited
  {
    WalkNode(targets, root.path, root.node, root.parentManifest, WalkState(map[], map[], visited))
  }

  /** The visited set after the workers of `ws`, starting from `visited`. */
  function VisitedAfter(ws: seq<WalkState>, visited: set<Path>): set<Path> {
    if |ws| == 0 then visited else ws[|ws| - 1].visited
  }

  /** The workers' results, one per root in completion order, each worker
      seeing the directories the earlier ones visited. */
  function Workers(targets: set<string>, roots: seq<SearchRoot>, visited: set<Path>): (ws: seq<WalkState>)
    ensures |ws| == |roots|
    ensures forall i :: 0 <= i < |ws| ==> KeysAreTargets(targets, ws[i])
    ensures visited <= VisitedAfter(ws, visited)
    decreases |roots|
  {
    if |roots| == 0 then []
    else
      var prev := Workers(targets, roots[..|roots| - 1], visited);
      prev + [RunWorker(targets, roots[|roots| - 1], VisitedAfter(prev, visited))]
  }

  function InstalledOf(ws: seq<WalkState>): (rs: seq<map<string, InstalledRecord>>)
    ensures |rs| == |ws| && forall i :: 0 <= i < |ws| ==> rs[i] == ws[i].installed
  {
    seq(|ws|, i requires 0 <= i < |ws| => ws[i].installed)
  }

  function DepsOf(ws: seq<WalkState>): (rs: seq<map<string, DepRecord>>)
    ensures |rs| == |ws| && forall i :: 0 <= i < |ws| ==> rs[i] == ws[i].deps
  {
    seq(|ws|, i requires 0 <= i < |ws| => ws[i].deps)
  }

  /** Merging one more result updates the merge of the earlier ones. */
  lemma MergeSnoc<V>(rs: seq<map<string, V>>, x: map<string, V>)
    ensures Merge(rs + [x]) == Merge(rs) + x
  {
    assert (rs + [x])[..|rs|] == rs;
  }

  /** One more root adds one more worker, run from the visited set the
      earlier workers left. */
  lemma WorkersSnoc(targets: set<string>, roots: seq<SearchRoot>, visited: set<Path>, i: nat)
    requires i < |roots|
    ensures var ws := Workers(targets, roots[..i], visited);
            Workers(targets, roots[..i + 1], visited)
            == ws + [RunWorker(targets, roots[i], VisitedAfter(ws, visited))]
  {
    assert roots[..i + 1][..i] == roots[..i];
  }

  lemma ProjectionsSnoc(ws: seq<WalkState>, w: WalkState)
    ensures InstalledOf(ws + [w]) == InstalledOf(ws) + [w.installed]
    ensures DepsOf(ws + [w]) == DepsOf(ws) + [w.deps]
  {
  }

  datatype Summary = Summary(
    totalTargetPackages: nat,
    installedPackagesFound: nat,
    dependencyReferencesFound: nat,
    uniquePackagesFound: nat)

  /** The summary counts. The unique count is the number of keys in either
      map: at least each of the other two and at most their sum, and at most
      the number of targets when every key is a target. */
  function Summarize(targets: set<string>, installed: map<string, InstalledRecord>, deps: map<string, DepRecord>)
    : (s: Summary)
    ensures s.totalTargetPackages == |targets|
    ensures s.installedPackagesFound == |installed| && s.dependencyReferencesFound == |deps|
    ensures s.uniquePackagesFound == |installed.Keys + deps.Keys|
    ensures s.installedPackagesFound <= s.uniquePackagesFound
    ensures s.dependencyReferencesFound <= s.uniquePackagesFound
    ensures s.uniquePackagesFound <= s.installedPackagesFound + s.dependencyReferencesFound
    ensures installed.Keys <= targets && deps.Keys <= targets ==> s.uniquePackagesFound <= s.totalTargetPackages
  {
    var both := installed.Keys + deps.Keys;
    UnionCard(installed.Keys, deps.Keys, targets);
    Summary(|targets|, |installed|, |deps|, |both|)
  }

  lemma UnionCard(a: set<string>, b: set<string>, t: set<string>)
    ensures |a| <= |a + b| && |b| <= |a + b| <= |a| + |b|
    ensures a <= t && b <= t ==> |a + b| <= |t|
  {
    assert a + b == a + (b - a) == b + (a - b);
    if a <= t && b <= t {
      assert t == (a + b) + (t - (a + b));
    }
  }

  /** The results `scan_computer` reports. */
  datatype ScanResults = ScanResults(
    installed: map<string, InstalledRecord>,
    deps: map<string, DepRecord>,
    summary: Summary)

  /** The results of walking `roots` in order, from the visited set
      `visited`, merged in that same order. */
  function ScanOutcome(targets: set<string>, roots: seq<SearchRoot>, visited: set<Path>): (r: ScanResults)
    ensures var ws := Workers(targets, roots, visited);
            && (forall k :: k in r.installed <==> exists i :: 0 <= i < |ws| && k in ws[i].installed)
            && (forall k :: k in r.deps <==> exists i :: 0 <= i < |ws| && k in ws[i].deps)
    ensures r.summary == Summarize(targets, r.installed, r.deps)
  {
    var ws := Workers(targets, roots, visited);
    var installed := Merge(InstalledOf(ws));
    var deps := Merge(DepsOf(ws));
    ScanResults(installed, deps, Summarize(targets, installed, deps))
  }

  /** Every package the scan reports is a target, so the unique count never
      exceeds the number of targets. */
  lemma ScanOutcomeTargets(targets: set<string>, roots: seq<SearchRoot>, visited: set<Path>)
    ensures var r := ScanOutcome(targets, roots, visited);
            && r.installed.Keys <= targets && r.deps.Keys <= targets
            && r.summary.uniquePackagesFound <= r.summary.totalTargetPackages
  {
    var ws := Workers(targets, roots, visited);
    assert forall k :: k in Merge(InstalledOf(ws)) ==> k in targets;
    assert forall k :: k in Merge(DepsOf(ws)) ==> k in targets;
  }
}
