/** The directory classifier: which directories the walk leaves alone, and
    which it treats as package stores. */
module Classifier {
  import opened Text

  /** Dotted directory names that are package-manager caches and are kept. */
  const AllowedDotted: set<string> := {".npm", ".node_modules"}

  /** Version control, virtual environments, editor metadata, build output
      and protected system directories. */
  const SkipDirs: set<string> := {
    ".git", ".svn", ".hg", "__pycache__",
    "venv", "env", ".env", "virtualenv",
    ".vscode", ".idea", "dist", "build",
    "target", "bin", "obj", ".cache",
    "Windows", "System32", "Program Files",
    "Applications"
  }

  const StoreName: string := "node_modules"

  predicate IsHidden(name: string) {
    StartsWith(name, ".")
  }

  /** `should_skip_directory`: a directory is skipped exactly when it is
      hidden and not an allowed cache, when it is on the deny-list, or when
      it cannot be read. */
  function ShouldSkipDirectory(name: string, readable: bool): (skip: bool)
    ensures !readable ==> skip
    ensures name in SkipDirs ==> skip
    ensures IsHidden(name) && name !in AllowedDotted ==> skip
    ensures skip && readable && name !in SkipDirs ==> IsHidden(name) && name !in AllowedDotted
  {
    (IsHidden(name) && name !in AllowedDotted) || name in SkipDirs || !readable
  }

  /** A readable directory whose name is neither dotted nor on the
      deny-list is always entered: in particular every readable package
      store and every readable allowed cache. */
  lemma PlainDirectoriesEntered(name: string)
    requires !IsHidden(name) || name in AllowedDotted
    requires name !in SkipDirs
    ensures !ShouldSkipDirectory(name, true)
    ensures !ShouldSkipDirectory(StoreName, true)
    ensures !ShouldSkipDirectory(".npm", true)
  {
    assert StoreName[0] != '.';
  }

  /** Version-control metadata and dotted names outside the allow-list are
      always skipped, readable or not. */
  lemma HiddenDirectoriesSkipped(name: string, readable: bool)
    requires StartsWith(name, ".")
    requires name != ".npm" && name != ".node_modules"
    ensures ShouldSkipDirectory(name, readable)
    ensures ShouldSkipDirectory(".git", readable)
  {
    assert ".git"[..1] == ".";
  }
}
