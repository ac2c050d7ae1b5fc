/** The target list: a header line, then one package per line, its name in
    the first tab-separated field. */
module PackageList {
  import opened Text

  /** `line.split('\t')[0]`: the text before the first tab. */
  function FirstField(line: string): (f: string)
    ensures '\t' !in f
    ensures f <= line
  {
    line[..IndexOf(line, '\t')]
  }

  /** The first field is the first piece `split` gives. */
  lemma FirstFieldIsFirstPiece(line: string)
    ensures FirstField(line) == Split(line, '\t')[0]
  {
    var i := IndexOf(line, '\t');
    if i < |line| {
      var rest := line[i + 1..];
      assert Split(line, '\t') == [line[..i]] + Split(rest, '\t');
    }
  }

  /** The name a line contributes, if it contributes one. */
  function LineName(line: string): (name: string)
    ensures '\t' !in name
  {
    StripKeepsCharacters(FirstField(line), '\t');
    Strip(FirstField(line))
  }

  /** A line names a package when it holds a tab and its stripped first
      field is not empty. */
  predicate Contributes(line: string) {
    '\t' in line && LineName(line) != ""
  }

  /** What one line after the header adds to the target set. */
  function Added(line: string): set<string> {
    if Contributes(line) then {LineName(line)} else {}
  }

  /** The union of what `f` gives for each line after the first, read in
      order. */
  function Gather(f: string -> set<string>, lines: seq<string>): set<string>
    decreases |lines|
  {
    if |lines| <= 1 then {}
    else Gather(f, lines[..|lines| - 1]) + f(lines[|lines| - 1])
  }

  /** The names the lines after the first contribute. */
  function NamesFromLines(lines: seq<string>): set<string> {
    Gather(Added, lines)
  }

  /** The lines of the stripped text, split at every newline. */
  function Lines(text: string): (lines: seq<string>)
    ensures |lines| >= 1
    ensures forall i :: 0 <= i < |lines| ==> '\n' !in lines[i]
  {
    Split(Strip(text), '\n')
  }

  /** The target set a catalogue text yields. */
  function PackageNames(text: string): (names: set<string>)
    ensures "" !in names
  {
    NamesFromLinesMembers(Lines(text), "");
    NamesFromLines(Lines(text))
  }

  /** An element is gathered exactly when some line after the first
      gives it. */
  lemma {:induction false} GatherMembers(f: string -> set<string>, lines: seq<string>, x: string)
    ensures x in Gather(f, lines) <==> exists i :: 1 <= i < |lines| && x in f(lines[i])
    decreases |lines|
  {
    if |lines| > 1 {
      var n := |lines| - 1;
      var prev := lines[..n];
      GatherMembers(f, prev, x);
      if x in Gather(f, prev) {
        var i :| 1 <= i < |prev| && x in f(prev[i]);
        assert prev[i] == lines[i];
      }
      if exists i :: 1 <= i < |lines| && x in f(lines[i]) {
        var i :| 1 <= i < |lines| && x in f(lines[i]);
        if i < n {
          assert prev[i] == lines[i];
        }
      }
    }
  }

  /** The first line is never gathered, whatever it holds. */
  lemma {:induction false} GatherSkipsHeader(f: string -> set<string>, lines: seq<string>, header: string)
    requires |lines| >= 1
    ensures Gather(f, [header] + lines[1..]) == Gather(f, lines)
    decreases |lines|
  {
    var other := [header] + lines[1..];
    if |lines| > 1 {
      var n := |lines| - 1;
      GatherSkipsHeader(f, lines[..n], header);
      assert other[..n] == [header] + lines[..n][1..];
      assert other[n] == lines[n];
    }
  }

  /** A name is read exactly when some line after the header contributes
      it. */
  lemma NamesFromLinesMembers(lines: seq<string>, x: string)
    ensures x in NamesFromLines(lines) <==>
              exists i :: 1 <= i < |lines| && Contributes(lines[i]) && LineName(lines[i]) == x
  {
    GatherMembers(Added, lines, x);
  }

  /** The lines up to `i` inclusive yield the names of the lines before
      `i` and the name of line `i`, if it contributes one. */
  lemma ReadOneMoreLine(lines: seq<string>, i: nat)
    requires 1 <= i < |lines|
    ensures NamesFromLines(lines[..i + 1])
            == NamesFromLines(lines[..i]) + (if Contributes(lines[i]) then {LineName(lines[i])} else {})
  {
    assert lines[..i + 1][..i] == lines[..i];
  }

  /** The header line can be anything: it never contributes. */
  lemma HeaderIgnored(lines: seq<string>, header: string)
    requires |lines| >= 1
    ensures NamesFromLines([header] + lines[1..]) == NamesFromLines(lines)
  {
    GatherSkipsHeader(Added, lines, header);
  }

  /** A prefix of a string lacking `c` lacks it too. */
  lemma PrefixLacks(p: string, s: string, c: char)
    requires p <= s && c !in s
    ensures c !in p
  {
    assert forall k :: 0 <= k < |p| ==> p[k] == s[k];
  }

  /** Every target is a non-empty stripped first field: it holds no tab, no
      newline, and no white space at either end. */
  lemma PackageNamesShape(text: string, x: string)
    requires x in PackageNames(text)
    ensures x != "" && '\t' !in x && '\n' !in x
    ensures Strip(x) == x
  {
    var lines := Lines(text);
    NamesFromLinesMembers(lines, x);
    var i :| 1 <= i < |lines| && Contributes(lines[i]) && LineName(lines[i]) == x;
    var line := lines[i];
    var f := FirstField(line);
    PrefixLacks(f, line, '\n');
    StripKeepsCharacters(f, '\t');
    StripKeepsCharacters(f, '\n');
    StripIdempotent(f);
  }

  /** `parse_package_list`: splits the stripped text into lines and reads
      the lines after the header. */
  method ParsePackageList(text: string) returns (packages: set<string>)
    ensures packages == PackageNames(text)
    ensures forall x :: x in packages ==> x != "" && '\t' !in x && '\n' !in x && Strip(x) == x
  {
    var lines := Split(Strip(text), '\n');
    packages := ReadLines(lines);
    forall x | x in packages
      ensures x != "" && '\t' !in x && '\n' !in x && Strip(x) == x
    {
      PackageNamesShape(text, x);
    }
  }

  /** The loop of `parse_package_list`: skips the header line and collects
      the stripped first field of every later line that holds a tab, when
      not empty. The lines come from `str.split`, which yields at least
      one. */
  method ReadLines(lines: seq<string>) returns (packages: set<string>)
    requires |lines| >= 1
    ensures packages == NamesFromLines(lines)
  {
    packages := {};
    var i := 1;
    while i < |lines|
      invariant 1 <= i <= |lines|
      invariant packages == NamesFromLines(lines[..i])
    {
      var line := lines[i];
      ReadOneMoreLine(lines, i);
      if '\t' in line {
        var name := LineName(line);
        if name != "" {
          packages := packages + {name};
        }
      }
      i := i + 1;
    }
    assert lines[..i] == lines;
  }

  /** A catalogue written as lines joined by newlines, with no white
      space at either end, is read back line by line. */
  lemma CatalogueOfLines(lines: seq<string>)
    requires |lines| >= 1
    requires forall i :: 0 <= i < |lines| ==> '\n' !in lines[i]
    requires Strip(Join(lines, '\n')) == Join(lines, '\n')
    ensures PackageNames(Join(lines, '\n')) == NamesFromLines(lines)
  {
    SplitJoin(lines, '\n');
  }

  /** A row made of a stripped, tab-free, non-empty name, a tab and any
      further fields contributes exactly that name. */
  lemma RowRoundTrip(name: string, rest: string)
    requires name != "" && '\t' !in name && Strip(name) == name
    ensures Contributes(name + ['\t'] + rest)
    ensures LineName(name + ['\t'] + rest) == name
  {
    var line := name + ['\t'] + rest;
    assert line[|name|] == '\t';
    assert line[..|name|] == name;
    assert IndexOf(line, '\t') == |name| by {
      var j := IndexOf(line, '\t');
      assert forall k :: 0 <= k < |name| ==> line[k] == name[k];
      assert j <= |name|;
    }
  }
}
