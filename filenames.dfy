/** The file-name rules around the pipeline: which `.txt` files of a
    directory are single spectra (`Experiment.list_of_spectra`) and which are
    spectral maps (`Experiment.list_of_maps`), and the names the outputs are
    written under (`Experiment.plot_to_png`, `Experiment.save_as_csv`).  The
    directory listing itself is a parameter. */
module FileNames {
  import Lines

  /** pat sits in s at position i. */
  predicate OccursAt(s: string, pat: string, i: nat) {
    i + |pat| <= |s| && s[i..i + |pat|] == pat
  }

  /** A scan for pat from position i on. */
  function ContainsFrom(s: string, pat: string, i: nat): bool
    decreases |s| - i
  {
    i + |pat| <= |s| && (OccursAt(s, pat, i) || ContainsFrom(s, pat, i + 1))
  }

  /** Python's `pat in s` for strings. */
  predicate Contains(s: string, pat: string) {
    ContainsFrom(s, pat, 0)
  }

  /** The scan finds pat exactly when pat sits at some position from i on. */
  lemma {:induction false} ContainsFromMeansOccurs(s: string, pat: string, i: nat)
    ensures ContainsFrom(s, pat, i) <==> exists j :: i <= j && OccursAt(s, pat, j)
    decreases |s| - i
  {
    if i + |pat| <= |s| {
      ContainsFromMeansOccurs(s, pat, i + 1);
      if j: nat :| i <= j && OccursAt(s, pat, j) {
        if j != i {
          assert i + 1 <= j;
        }
      }
    }
  }

  /** `pat in s` holds exactly when pat is a slice of s. */
  lemma ContainsMeansOccurs(s: string, pat: string)
    ensures Contains(s, pat) <==> exists j :: OccursAt(s, pat, j)
  {
    ContainsFromMeansOccurs(s, pat, 0);
  }

  /** A pattern found in the left part of a text is found in the text. */
  lemma ContainsInLeft(a: string, b: string, pat: string)
    requires Contains(a, pat)
    ensures Contains(a + b, pat)
  {
    ContainsMeansOccurs(a, pat);
    var i: nat :| OccursAt(a, pat, i);
    assert (a + b)[i..i + |pat|] == a[i..i + |pat|];
    assert OccursAt(a + b, pat, i);
    ContainsMeansOccurs(a + b, pat);
  }

  /** A pattern whose first character is not in s does not occur in s. */
  lemma AbsentFirstCharacter(s: string, pat: string)
    requires |pat| > 0 && forall k :: 0 <= k < |s| ==> s[k] != pat[0]
    ensures !Contains(s, pat)
  {
    ContainsMeansOccurs(s, pat);
    forall j: nat | j + |pat| <= |s| ensures !OccursAt(s, pat, j) {
      assert s[j..j + |pat|][0] == s[j] != pat[0];
    }
  }

  /** The entries of `xs` that `keep` accepts, in their order (a list
      comprehension with a condition). */
  function Filter(xs: seq<string>, keep: string -> bool): (r: seq<string>)
    ensures |r| <= |xs|
    ensures forall k :: 0 <= k < |r| ==> keep(r[k])
  {
    if xs == [] then []
    else (if keep(xs[0]) then [xs[0]] else []) + Filter(xs[1..], keep)
  }

  /** An entry is kept exactly when it is listed and accepted, and as many
      times as it is listed. */
  lemma {:induction false} FilterCount(xs: seq<string>, keep: string -> bool, x: string)
    ensures multiset(Filter(xs, keep))[x] == if keep(x) then multiset(xs)[x] else 0
    ensures x in Filter(xs, keep) <==> x in xs && keep(x)
    decreases |xs|
  {
    if xs != [] {
      FilterCount(xs[1..], keep, x);
      assert xs == [xs[0]] + xs[1..];
    }
  }

  /** Filtering two listings is filtering each. */
  lemma {:induction false} FilterConcat(a: seq<string>, b: seq<string>, keep: string -> bool)
    ensures Filter(a + b, keep) == Filter(a, keep) + Filter(b, keep)
    decreases |a|
  {
    if a == [] {
      assert a + b == b;
    } else {
      assert (a + b)[1..] == a[1..] + b;
      FilterConcat(a[1..], b, keep);
    }
  }

  /** Filtering keeps a listing whose every entry is accepted as it is. */
  lemma {:induction false} FilterKeepsAll(xs: seq<string>, keep: string -> bool)
    requires forall k :: 0 <= k < |xs| ==> keep(xs[k])
    ensures Filter(xs, keep) == xs
    decreases |xs|
  {
    if xs != [] {
      FilterKeepsAll(xs[1..], keep);
    }
  }

  function IsSpectrumName(name: string): bool {
    !Contains(name, "DC")
  }

  /** The file names of single spectra: the names without "DC" in them. */
  function SpectraNames(files: seq<string>): (names: seq<string>)
    ensures |names| <= |files|
    ensures forall k :: 0 <= k < |names| ==> !Contains(names[k], "DC")
  {
    Filter(files, IsSpectrumName)
  }

  /** A name is listed as a spectrum exactly when it is in the listing and
      does not contain "DC", as often as it is in the listing. */
  lemma SpectraNamesExactly(files: seq<string>, name: string)
    ensures name in SpectraNames(files) <==> name in files && !Contains(name, "DC")
    ensures multiset(SpectraNames(files))[name] == if Contains(name, "DC") then 0 else multiset(files)[name]
  {
    FilterCount(files, IsSpectrumName, name);
  }

  /** The path the directory scan yields for a file of directory `source`. */
  function EntryPath(source: string, name: string): string {
    source + "\\" + name
  }

  function EntryPaths(source: string, files: seq<string>): (r: seq<string>)
    ensures |r| == |files| && forall k :: 0 <= k < |files| ==> r[k] == EntryPath(source, files[k])
  {
    seq(|files|, k requires 0 <= k < |files| => EntryPath(source, files[k]))
  }

  /** `re.match('.*map.*', path)`: "map" before the first line break. */
  function IsMapPath(path: string): bool {
    Contains(Lines.FirstLine(path), "map")
  }

  /** The paths of spectral maps: the full path of each file, filtered. */
  function MapPaths(source: string, files: seq<string>): (paths: seq<string>)
    ensures |paths| <= |files|
    ensures forall k :: 0 <= k < |paths| ==> Contains(Lines.FirstLine(paths[k]), "map")
  {
    Filter(EntryPaths(source, files), IsMapPath)
  }

  /** A path is listed as a map exactly when it is the path of a listed
      file and holds "map" in its first line. */
  lemma MapPathsExactly(source: string, files: seq<string>, path: string)
    ensures path in MapPaths(source, files) <==>
      (exists k :: 0 <= k < |files| && path == EntryPath(source, files[k])) && IsMapPath(path)
  {
    FilterCount(EntryPaths(source, files), IsMapPath, path);
    var paths := EntryPaths(source, files);
    if path in paths {
      var k :| 0 <= k < |paths| && paths[k] == path;
      assert path == EntryPath(source, files[k]);
    }
  }

  /** The pattern tests the whole path, so a directory whose path holds
      "map" (and no line break) makes every file in it a map. */
  lemma MapDirectoryKeepsAll(source: string, files: seq<string>)
    requires forall k :: 0 <= k < |source| ==> source[k] != '\n'
    requires Contains(source, "map")
    ensures MapPaths(source, files) == EntryPaths(source, files)
  {
    var paths := EntryPaths(source, files);
    forall k | 0 <= k < |paths| ensures IsMapPath(paths[k]) {
      var tail := "\\" + files[k];
      assert paths[k] == source + tail;
      Lines.FirstLineAfterLine(source, tail);
      ContainsInLeft(source, Lines.FirstLine(tail), "map");
    }
    FilterKeepsAll(paths, IsMapPath);
  }

  /** `spec[:-4]`: the name without its last four characters, empty when
      the name is shorter. */
  function Stem(spec: string): (r: string)
    ensures |spec| >= 4 ==> r + spec[|spec| - 4..] == spec
    ensures |spec| < 4 ==> r == []
  {
    if |spec| >= 4 then spec[..|spec| - 4] else []
  }

  /** The image written for a spectrum. */
  function PngName(spec: string): (r: string)
    ensures |r| == (if |spec| >= 4 then |spec| else 4)
    ensures r[|r| - 4..] == ".png" && r[..|r| - 4] == Stem(spec)
  {
    Stem(spec) + ".png"
  }

  /** The table written for a spectrum. */
  function CsvName(spec: string): (r: string)
    ensures |r| == (if |spec| >= 4 then |spec| else 4)
    ensures r[|r| - 4..] == ".csv" && r[..|r| - 4] == Stem(spec)
  {
    Stem(spec) + ".csv"
  }

  /** A name with a four-character extension has its extension replaced:
      the stem survives, and the two outputs of one spectrum differ only
      in their extension. */
  lemma ExtensionReplaced(stem: string, extension: string)
    requires |extension| == 4
    ensures Stem(stem + extension) == stem
    ensures PngName(stem + extension) == stem + ".png"
    ensures CsvName(stem + extension) == stem + ".csv"
  {
    assert (stem + extension)[..|stem|] == stem;
  }

  /** The summary plot is saved under "Summary" with its last four letters
      cut off, as "Sum.png"; a name shorter than four characters leaves
      only the extension. */
  lemma ShortNameExamples()
    ensures PngName("Summary") == "Sum.png"
    ensures PngName("a.b") == ".png"
    ensures CsvName("sample_30s.txt") == "sample_30s.csv"
  {
    ExtensionReplaced("Sum", "mary");
    assert "Sum" + "mary" == "Summary";
    ExtensionReplaced("sample_30s", ".txt");
    assert "sample_30s" + ".txt" == "sample_30s.txt";
  }

  /** Example listing: the dark-current file is not a spectrum. */
  lemma SpectraExample()
    ensures SpectraNames(["sample_30s.txt", "DC_30s.txt", "map_1.txt"]) == ["sample_30s.txt", "map_1.txt"]
  {
    assert OccursAt("DC_30s.txt", "DC", 0);
    AbsentFirstCharacter("sample_30s.txt", "DC");
    AbsentFirstCharacter("map_1.txt", "DC");
    var files := ["sample_30s.txt", "DC_30s.txt", "map_1.txt"];
    assert files[1..] == ["DC_30s.txt", "map_1.txt"];
    assert files[1..][1..] == ["map_1.txt"];
  }
}
