/** The manifest readers: the version of an installed package, the name of
    the project that owns a package store, and the target dependencies a
    project manifest declares. */
module ManifestReaders {
  import opened FsTree

  const Unknown: string := "unknown"

  /** `get_package_version`: the manifest's `version`, or "unknown" when the
      file is missing or unparsable or has no `version` field. */
  function GetPackageVersion(manifest: Option<Manifest>): (v: string)
    ensures manifest.None? ==> v == Unknown
    ensures manifest.Some? && manifest.value.version.None? ==> v == Unknown
    ensures manifest.Some? && manifest.value.version.Some? ==> v == manifest.value.version.value
  {
    match manifest
    case None => Unknown
    case Some(m) => m.version.GetOr(Unknown)
  }

  /** `find_parent_project`, given the parent directory's name and what
      reading its `package.json` yields: the manifest's `name`, or the
      directory's own name when the file is missing, unparsable or has no
      `name` field. */
  function FindParentProject(parentName: string, parentManifest: Option<Manifest>): (project: string)
    ensures parentManifest.Some? && parentManifest.value.name.Some? ==> project == parentManifest.value.name.value
    ensures parentManifest.None? || parentManifest.value.name.None? ==> project == parentName
  {
    match parentManifest
    case None => parentName
    case Some(m) => m.name.GetOr(parentName)
  }

  /** The `project` of every reference a manifest yields: its `name`, or
      "unknown" when it has none. */
  function ProjectName(m: Manifest): (project: string)
    ensures m.name.Some? ==> project == m.name.value
    ensures m.name.None? ==> project == Unknown
  {
    m.name.GetOr(Unknown)
  }

  /** One dependency reference: the declared version or range, the section
      that declared it, the owning project and the manifest's path. The
      scanner stores the section as its JSON key, `SectionKey(dependencyType)`,
      which names one section only (`SectionKeyInjective`). */
  datatype DepRecord = DepRecord(version: string, dependencyType: DepClass, project: string, path: Path)

  /** Section `c` of `m` lists package `k`. */
  predicate Lists(m: Manifest, c: DepClass, k: string) {
    c in m.sections && k in m.sections[c]
  }

  /** The references one section contributes: its target entries. */
  function SectionRefs(targets: set<string>, m: Manifest, c: DepClass, file: Path): (r: map<string, DepRecord>)
    ensures forall k :: k in r <==> k in targets && Lists(m, c, k)
    ensures forall k :: k in r ==> r[k].path == file
  {
    if c in m.sections then
      map k | k in m.sections[c] && k in targets :: DepRecord(m.sections[c][k], c, ProjectName(m), file)
    else map[]
  }

  /** The references gathered after reading the first `n` sections in order,
      each section's entries overwriting earlier ones. */
  function SectionsRead(targets: set<string>, m: Manifest, file: Path, n: nat): (r: map<string, DepRecord>)
    requires n <= |SectionOrder|
    ensures r.Keys <= targets
    ensures forall k :: k in r ==> r[k].path == file
    decreases n
  {
    if n == 0 then map[]
    else SectionsRead(targets, m, file, n - 1) + SectionRefs(targets, m, SectionOrder[n - 1], file)
  }

  /** What `scan_package_json` returns for a manifest file: nothing when it
      cannot be read or parsed, otherwise the references of all sections. */
  function DependencyRefs(targets: set<string>, manifest: Option<Manifest>, file: Path): (r: map<string, DepRecord>)
    ensures r.Keys <= targets
    ensures forall k :: k in r ==> r[k].path == file
    ensures manifest.None? ==> r == map[]
  {
    match manifest
    case None => map[]
    case Some(m) => SectionsRead(targets, m, file, |SectionOrder|)
  }

  /** After reading the first `n` sections, a package has a reference exactly
      when it is a target listed in one of them, and its reference comes
      from the last of them that lists it. */
  lemma {:induction false} SectionsReadLastWins(targets: set<string>, m: Manifest, file: Path, n: nat, k: string)
    requires n <= |SectionOrder|
    ensures k in SectionsRead(targets, m, file, n) <==>
              k in targets && exists c :: Rank(c) < n && Lists(m, c, k)
    ensures k in SectionsRead(targets, m, file, n) ==>
              var r := SectionsRead(targets, m, file, n)[k];
              && Rank(r.dependencyType) < n
              && Lists(m, r.dependencyType, k)
              && r.version == m.sections[r.dependencyType][k]
              && r.project == ProjectName(m)
              && r.path == file
              && forall c :: Rank(r.dependencyType) < Rank(c) < n ==> !Lists(m, c, k)
    decreases n
  {
    if n > 0 {
      SectionsReadLastWins(targets, m, file, n - 1, k);
      var c := SectionOrder[n - 1];
      assert Rank(c) == n - 1;
      if k in targets && Lists(m, c, k) {
        assert SectionsRead(targets, m, file, n)[k] == SectionRefs(targets, m, c, file)[k];
      }
    }
  }

  /** `scan_package_json`: a package has a reference exactly when it is a
      target that some section lists; the reference carries the declared
      version from the LAST section (in the order dependencies,
      devDependencies, peerDependencies, optionalDependencies) that lists
      it, the manifest's `name` or "unknown", and the manifest's path. */
  lemma DependencyRefsSpec(targets: set<string>, m: Manifest, file: Path, k: string)
    ensures k in DependencyRefs(targets, Some(m), file) <==> k in targets && exists c :: Lists(m, c, k)
    ensures k in DependencyRefs(targets, Some(m), file) ==>
              var r := DependencyRefs(targets, Some(m), file)[k];
              && Lists(m, r.dependencyType, k)
              && r.version == m.sections[r.dependencyType][k]
              && r.project == ProjectName(m)
              && r.path == file
              && forall c :: Rank(c) > Rank(r.dependencyType) ==> !Lists(m, c, k)
  {
    SectionsReadLastWins(targets, m, file, |SectionOrder|, k);
  }
}
