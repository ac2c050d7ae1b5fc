/** The abstract file system the scanner walks: a tree of directories, each
    with its readability, the names of the plain files it holds, its
    sub-directories and what reading its `package.json` yields. */
module FsTree {

  datatype Option<T> = None | Some(value: T) {
    function GetOr(default: T): T {
      match this
      case Some(v) => v
      case None => default
    }
  }

  /** The four dependency sections of a project manifest. */
  datatype DepClass = Dependencies | DevDependencies | PeerDependencies | OptionalDependencies

  /** The order in which the sections are read (package_scanner.py:135). */
  const SectionOrder: seq<DepClass> := [Dependencies, DevDependencies, PeerDependencies, OptionalDependencies]

  /** The position of a section in `SectionOrder`. */
  function Rank(c: DepClass): (k: nat)
    ensures k < |SectionOrder| && SectionOrder[k] == c
  {
    match c
    case Dependencies => 0
    case DevDependencies => 1
    case PeerDependencies => 2
    case OptionalDependencies => 3
  }

  /** The JSON key of a section, the `dependency_type` of a reference. */
  function SectionKey(c: DepClass): string {
    match c
    case Dependencies => "dependencies"
    case DevDependencies => "devDependencies"
    case PeerDependencies => "peerDependencies"
    case OptionalDependencies => "optionalDependencies"
  }

  /** Each section has its own JSON key, so a reference's `dependency_type`
      names the section it was read from. */
  lemma SectionKeyInjective(a: DepClass, b: DepClass)
    requires SectionKey(a) == SectionKey(b)
    ensures a == b
  {
  }

  /** A parsed `package.json`: the optional `name` and `version` fields and
      the dependency sections present, each mapping a package name to its
      declared version or range. */
  datatype Manifest = Manifest(
    name: Option<string>,
    version: Option<string>,
    sections: map<DepClass, map<string, string>>)

  /** An absolute path as the list of its parts; the first part is the
      anchor (`/`), as in `pathlib.PurePath.parts`. */
  type Path = seq<string>

  /** `Path.name`: the last part, empty for the bare anchor. */
  function Name(p: Path): (name: string)
    ensures |p| >= 2 ==> p == Parent(p) + [name]
  {
    if |p| <= 1 then "" else p[|p| - 1]
  }

  /** `Path.parent`: the bare anchor is its own parent. */
  function Parent(p: Path): (q: Path)
    ensures q <= p
    ensures |q| == if |p| <= 1 then |p| else |p| - 1
  {
    if |p| <= 1 then p else p[..|p| - 1]
  }

  /** `p` is `q` or lies below it. */
  predicate Below(p: Path, q: Path) {
    q <= p
  }

  /** A directory. `manifest` is what reading `package.json` in it yields:
      `None` when the file is missing, unreadable or rejected by the JSON
      parser. So `manifest` is `None` whenever `package.json` is not among
      `files`: the walker reads the manifest only when `files` lists it,
      while a store's owner is taken from `manifest` alone, which agree only
      on such trees. */
  datatype Node = Node(
    name: string,
    readable: bool,
    files: set<string>,
    children: seq<Node>,
    manifest: Option<Manifest>)

  /** As on a real file system, no two entries of one directory share a name. */
  predicate DistinctNames(n: Node) {
    && (forall i, j :: 0 <= i < j < |n.children| ==> n.children[i].name != n.children[j].name)
    && (forall i :: 0 <= i < |n.children| ==> DistinctNames(n.children[i]))
  }
}
