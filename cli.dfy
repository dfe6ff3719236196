/** src/cli.ts: the command-line argument parser and the bookkeeping that
    keeps the generated file names apart. */
module Cli {
  import opened JsString
  import opened Types
  import opened Converter

  // ---------------------------------------------------------------------
  // Arguments
  // ---------------------------------------------------------------------

  datatype Args = Args(inputPath: string, outputDir: string, clean: bool, rewrite: bool)

  /** The two ways `parseArgs` gives up (it prints a message and exits with
      status 1). */
  datatype ArgError = UnknownOption(arg: string) | MissingValue(flag: string)

  const DefaultOutput: string := "./output"

  const KnownFlags: set<string> :=
    {"--output", "-o", "--rewrite", "-r", "--clean", "-c", "--help", "-h"}

  predicate IsOutputFlag(a: string) {
    a == "--output" || a == "-o"
  }

  /** `a.startsWith('-')`. */
  predicate StartsWithDash(a: string) {
    |a| > 0 && a[0] == '-'
  }

  /** Position `i` is passed over by the validation loop as the value of an
      output flag: the loop examined position `i - 1` and found an output
      flag there. */
  predicate Skipped(argv: seq<string>, i: nat)
    decreases i
  {
    0 < i <= |argv| && IsOutputFlag(argv[i - 1]) && !Skipped(argv, i - 1)
  }

  /** An argument the validation loop rejects: it examines it, it starts with
      a dash and it is not a known flag. */
  predicate Offending(argv: seq<string>, i: int) {
    0 <= i < |argv| && !Skipped(argv, i) && StartsWithDash(argv[i]) && argv[i] !in KnownFlags
  }

  /** `argv.findIndex((a) => a === '--output' || a === '-o')`. */
  function OutputIndex(argv: seq<string>): (k: int)
    ensures -1 <= k < |argv|
    ensures k >= 0 ==> IsOutputFlag(argv[k])
    ensures forall j :: 0 <= j < |argv| && (k == -1 || j < k) ==> !IsOutputFlag(argv[j])
  {
    if argv == [] then -1
    else if IsOutputFlag(argv[0]) then 0
    else
      var k := OutputIndex(argv[1..]);
      assert forall j :: 1 <= j < |argv| ==> argv[j] == argv[1..][j - 1];
      if k == -1 then -1 else k + 1
  }

  /** The output flag's value is absent, empty or itself dash-prefixed. */
  predicate ValueMissing(argv: seq<string>) {
    var k := OutputIndex(argv);
    k != -1 && (k + 1 >= |argv| || argv[k + 1] == "" || StartsWithDash(argv[k + 1]))
  }

  /** `argv.find((a, i) => !a.startsWith('-') && i !== skip)`, as an index
      (`-1` when there is none). */
  function FirstPositional(argv: seq<string>, skip: int, from: nat): (i: int)
    requires from <= |argv|
    ensures i == -1 || (from <= i < |argv| && !StartsWithDash(argv[i]) && i != skip)
    ensures forall j :: from <= j < |argv| && (i == -1 || j < i) ==> StartsWithDash(argv[j]) || j == skip
    decreases |argv| - from
  {
    if from == |argv| then -1
    else if !StartsWithDash(argv[from]) && from != skip then from
    else FirstPositional(argv, skip, from + 1)
  }

  /** `parseArgs`. The validation loop rejects the first examined argument
      that starts with a dash and is not a known flag, passing over the
      value after each output flag it examines; then a missing output value
      is rejected; otherwise the output directory is the value after the
      first output flag (or `./output`), the switches record whether their
      flags occur anywhere, and the input path is the first argument without
      a dash other than the first output flag's value. */
  method ParseArgs(argv: seq<string>) returns (r: Result<Args, ArgError>)
    ensures r.Err? && r.error.UnknownOption? <==> exists i :: Offending(argv, i)
    ensures r.Err? && r.error.UnknownOption? ==>
      exists i :: Offending(argv, i) && r.error.arg == argv[i] && forall j :: 0 <= j < i ==> !Offending(argv, j)
    ensures r.Err? && r.error.MissingValue? <==> (forall i :: !Offending(argv, i)) && ValueMissing(argv)
    ensures r.Err? && r.error.MissingValue? ==> OutputIndex(argv) >= 0 && r.error.flag == argv[OutputIndex(argv)]
    ensures r.Ok? ==>
      var k := OutputIndex(argv);
      && r.value.outputDir == (if k == -1 then DefaultOutput else argv[k + 1])
      && r.value.outputDir != "" && !StartsWithDash(r.value.outputDir)
    ensures r.Ok? ==> (r.value.clean <==> "--clean" in argv || "-c" in argv)
    ensures r.Ok? ==> (r.value.rewrite <==> "--rewrite" in argv || "-r" in argv)
    ensures r.Ok? ==>
      var k := OutputIndex(argv);
      var p := FirstPositional(argv, if k == -1 then -1 else k + 1, 0);
      r.value.inputPath == if p == -1 then "" else argv[p]
  {
    var i := 0;
    while i < |argv|
      invariant 0 <= i <= |argv| + 1
      invariant i < |argv| ==> !Skipped(argv, i)
      invariant forall j :: 0 <= j < i && j < |argv| ==> !Offending(argv, j)
      decreases |argv| + 1 - i
    {
      var arg := argv[i];
      if !StartsWithDash(arg) {
        i := i + 1;
        continue;
      }
      if arg in KnownFlags {
        if IsOutputFlag(arg) {
          // The value after an output flag is not validated.
          assert i + 1 < |argv| ==> Skipped(argv, i + 1);
          i := i + 1;
        }
        i := i + 1;
        continue;
      }
      assert Offending(argv, i);
      return Err(UnknownOption(arg));
    }
    var k := OutputIndex(argv);
    if k != -1 && (k + 1 >= |argv| || argv[k + 1] == "" || StartsWithDash(argv[k + 1])) {
      return Err(MissingValue(argv[k]));
    }
    var outputDir := if k != -1 && k + 1 < |argv| && argv[k + 1] != "" then argv[k + 1] else DefaultOutput;
    var clean := "--clean" in argv || "-c" in argv;
    var rewrite := "--rewrite" in argv || "-r" in argv;
    var skipIdx := if k != -1 then k + 1 else -1;
    var p := FirstPositional(argv, skipIdx, 0);
    var inputPath := if p == -1 then "" else argv[p];
    return Ok(Args(inputPath, outputDir, clean, rewrite));
  }

  // ---------------------------------------------------------------------
  // File names
  // ---------------------------------------------------------------------

  /** The path without its trailing slashes. */
  function StripTrailingSlashes(path: string): (r: string)
    ensures r <= path
    ensures r == [] || r[|r| - 1] != '/'
    ensures forall i :: |r| <= i < |path| ==> path[i] == '/'
  {
    if path != [] && path[|path| - 1] == '/' then StripTrailingSlashes(path[..|path| - 1]) else path
  }

  /** The last segment of a path: the suffix after the last slash once the
      trailing slashes are gone. */
  function LastSegment(path: string): (b: string)
    ensures '/' !in b
    ensures var t := StripTrailingSlashes(path); |b| <= |t| && b == t[|t| - |b|..]
  {
    var t := StripTrailingSlashes(path);
    t[LastIndexOf(t, '/') + 1..]
  }

  /** The last segment is the whole slash-free path or starts right after a
      slash: it is the longest slash-free suffix. */
  lemma LastSegmentAfterSlash(path: string)
    ensures var t := StripTrailingSlashes(path); var b := LastSegment(path);
      b == t || t[|t| - |b| - 1] == '/'
  {
    var t := StripTrailingSlashes(path);
    var j := LastIndexOf(t, '/');
    assert LastSegment(path) == t[j + 1..];
    assert j != -1 ==> |t| - |t[j + 1..]| - 1 == j;
  }

  /** The extension of one path segment: from its last dot to its end; empty
      when it has no dot, starts with its only dot, or is `..`. */
  function SegmentExtension(base: string): (r: string)
    ensures |r| <= |base|
    ensures r == [] || (r[0] == '.' && r == base[|base| - |r|..])
    ensures forall i :: 1 <= i < |r| ==> r[i] != '.'
    ensures r != [] ==> |r| < |base| && base != ".."
  {
    var d := LastIndexOf(base, '.');
    if d <= 0 || base == ".." then "" else base[d..]
  }

  /** `path.extname` (POSIX): the extension of the last path segment. */
  function ExtName(path: string): (r: string)
    ensures |r| <= |path|
    ensures r == [] || r[0] == '.'
  {
    SegmentExtension(LastSegment(path))
  }

  /** A segment other than `..` with a dot after its first character has a
      non-empty extension. */
  lemma SegmentExtensionFound(base: string, i: nat)
    requires 1 <= i < |base| && base[i] == '.' && base != ".."
    ensures SegmentExtension(base) != ""
  {
    var d := LastIndexOf(base, '.');
    assert d >= i;
  }

  /** The extension is a suffix of the last segment, and it is not empty
      when that segment, other than `..`, has a dot after its first
      character. */
  lemma ExtNameFound(path: string, i: nat)
    requires var b := LastSegment(path); 1 <= i < |b| && b[i] == '.' && b != ".."
    ensures var b := LastSegment(path); var r := ExtName(path);
      r != "" && |r| <= |b| && r == b[|b| - |r|..]
  {
    SegmentExtensionFound(LastSegment(path), i);
  }

  /** A path without a dot has no extension. */
  lemma ExtNameWithoutDot(path: string)
    requires '.' !in path
    ensures ExtName(path) == ""
  {
    var t := StripTrailingSlashes(path);
    var b := LastSegment(path);
    var r := SegmentExtension(b);
    assert '.' !in t by {
      assert forall i :: 0 <= i < |t| ==> t[i] == path[i];
    }
    assert '.' !in b by {
      assert forall i :: 0 <= i < |b| ==> b[i] == t[|t| - |b| + i];
    }
  }

  /** A segment ending in `.md` after at least one character has the
      extension `.md`. */
  lemma SegmentExtensionMarkdown(base: string)
    requires |base| >= 4 && base[|base| - 3..] == ".md"
    ensures SegmentExtension(base) == ".md"
  {
    var n := |base|;
    assert base[n - 3] == '.' && base[n - 2] == 'm' && base[n - 1] == 'd';
    assert LastIndexOf(base, '.') == n - 3;
  }

  /** A name ending in `.md` whose stem does not end its path segment has
      the extension `.md`. */
  lemma ExtNameMarkdown(stem: string)
    requires stem != [] && stem[|stem| - 1] != '/'
    ensures ExtName(stem + ".md") == ".md"
  {
    var path := stem + ".md";
    var n := |path|;
    assert path[n - 1] == 'd';
    assert StripTrailingSlashes(path) == path;
    var j := LastIndexOf(path, '/');
    assert path[n - 4] == stem[|stem| - 1];
    assert path[n - 3] == '.' && path[n - 2] == 'm';
    assert j < n - 4;
    var b := LastSegment(path);
    assert b == path[j + 1..];
    assert b[|b| - 3..] == ".md";
    SegmentExtensionMarkdown(b);
  }

  /** `filename.slice(0, -ext.length)`: since `-0` is `0`, an empty
      extension leaves nothing. */
  function SliceOffExtension(filename: string, ext: string): string
    requires |ext| <= |filename|
  {
    if |ext| == 0 then "" else filename[..|filename| - |ext|]
  }

  /** `base + "-" + n + ext` ends in `"-" + n + ext`. */
  lemma TagSuffix(base: string, n: string, ext: string)
    ensures var r := base + "-" + n + ext;
      r[|base|..] == "-" + n + ext && (base == "" && ext == "" ==> r == "-" + n)
  {
    assert base + "-" + n + ext == base + ("-" + n + ext);
  }

  /** The renamed form of a taken name: `-<id>` inserted before its
      extension. */
  function Renamed(filename: string, id: int): (r: string)
    ensures var tag := "-" + IntToString(id) + ExtName(filename);
      |r| >= |tag| && r[|r| - |tag|..] == tag
    ensures var ext := ExtName(filename);
      ext != "" ==> r == filename[..|filename| - |ext|] + "-" + IntToString(id) + ext
    ensures ExtName(filename) == "" ==> r == "-" + IntToString(id)
  {
    var ext := ExtName(filename);
    var base := SliceOffExtension(filename, ext);
    var n := IntToString(id);
    TagSuffix(base, n, ext);
    base + "-" + n + ext
  }

  /** `uniqueFilename`: a name not yet used is kept; a used one gets `-<id>`
      inserted before its extension. `used` itself is not changed. */
  function UniqueFilename(filename: string, used: set<string>, id: int): (r: string)
    ensures filename !in used ==> r == filename
    ensures filename in used ==>
      var tag := "-" + IntToString(id) + ExtName(filename);
      |r| >= |tag| && r[|r| - |tag|..] == tag
    ensures var ext := ExtName(filename);
      filename in used && ext != "" ==>
        r == filename[..|filename| - |ext|] + "-" + IntToString(id) + ext
  {
    if filename !in used then filename else Renamed(filename, id)
  }

  /** A used `.md` name becomes `<stem>-<id>.md`: `file.md` with id 7 gives
      `file-7.md`. */
  lemma UniqueFilenameMarkdown(stem: string, used: set<string>, id: int)
    requires stem != [] && stem[|stem| - 1] != '/'
    requires stem + ".md" in used
    ensures UniqueFilename(stem + ".md", used, id) == stem + "-" + IntToString(id) + ".md"
  {
    var f := stem + ".md";
    ExtNameMarkdown(stem);
    assert f[..|f| - 3] == stem;
  }

  /** A used name without an extension loses everything but the suffix:
      `README`, `.bashrc` and `dir/.md` with id 5 all give `-5`. */
  lemma UniqueFilenameWithoutExtension(filename: string, used: set<string>, id: int)
    requires filename in used && ExtName(filename) == ""
    ensures UniqueFilename(filename, used, id) == "-" + IntToString(id)
  {
  }

  /** A used name without a dot has no extension, so it becomes just
      `-<id>`: `README` with id 5 gives `-5`. */
  lemma UniqueFilenameWithoutDot(filename: string, used: set<string>, id: int)
    requires filename in used && '.' !in filename
    ensures UniqueFilename(filename, used, id) == "-" + IntToString(id)
  {
    ExtNameWithoutDot(filename);
    UniqueFilenameWithoutExtension(filename, used, id);
  }

  // ---------------------------------------------------------------------
  // The used-names set of the conversion loop
  // ---------------------------------------------------------------------

  /** One step of the bookkeeping: the first candidate gets its unique name
      and that name joins the used set for the rest. */
  lemma DedupFromCons(cands: seq<(string, int)>, used: set<string>)
    requires cands != []
    ensures var name := UniqueFilename(cands[0].0, used, cands[0].1);
      DedupFrom(cands, used) == [name] + DedupFrom(cands[1..], used + {name})
  {
  }

  /** The names the conversion loop assigns to a sequence of (candidate
      name, message id) pairs, given the names used before: each candidate
      passes through `UniqueFilename` against the used set, and the name it
      gets joins the set. */
  function DedupFrom(cands: seq<(string, int)>, used: set<string>): (names: seq<string>)
    ensures |names| == |cands|
  {
    if cands == [] then []
    else
      var name := UniqueFilename(cands[0].0, used, cands[0].1);
      [name] + DedupFrom(cands[1..], used + {name})
  }

  /** Candidates that are pairwise distinct and not yet used keep their
      names. */
  lemma {:induction false} DedupDistinct(cands: seq<(string, int)>, used: set<string>)
    requires forall i, j :: 0 <= i < j < |cands| ==> cands[i].0 != cands[j].0
    requires forall i :: 0 <= i < |cands| ==> cands[i].0 !in used
    ensures forall j :: 0 <= j < |cands| ==> DedupFrom(cands, used)[j] == cands[j].0
  {
    if cands != [] {
      var name := cands[0].0;
      var rest := cands[1..];
      assert forall i :: 0 <= i < |rest| ==> rest[i] == cands[i + 1];
      DedupDistinct(rest, used + {name});
      var names := DedupFrom(cands, used);
      assert forall j :: 1 <= j < |cands| ==> names[j] == DedupFrom(rest, used + {name})[j - 1];
    }
  }

  /** Renaming does not guarantee distinct names: when an earlier message's
      name already has the form `<stem>-<id>.md`, a later message whose
      candidate `<stem>.md` is taken and whose id is `<id>` is given the same
      name again (for example `a.md`, `a-3.md`, then `a.md` with id 3). */
  lemma DedupCollision(stem: string, id1: int, id2: int, id3: int)
    requires stem != [] && stem[|stem| - 1] != '/'
    ensures var first := stem + ".md";
      var renamed := stem + "-" + IntToString(id3) + ".md";
      DedupFrom([(first, id1), (renamed, id2), (first, id3)], {}) == [first, renamed, renamed]
  {
    var first := stem + ".md";
    var renamed := stem + "-" + IntToString(id3) + ".md";
    assert renamed != first by {
      assert |renamed| > |first|;
    }
    assert {} + {first} + {renamed} == {first, renamed};
    UniqueFilenameMarkdown(stem, {first, renamed}, id3);
    DedupRenamedTwice(first, renamed, id1, id2, id3);
  }

  /** Three candidates `a`, `b`, `a`, where the used `a` is renamed to `b`:
      the last two get the same name. */
  lemma DedupRenamedTwice(a: string, b: string, ia: int, ib: int, ic: int)
    requires a != b && UniqueFilename(a, {a, b}, ic) == b
    ensures DedupFrom([(a, ia), (b, ib), (a, ic)], {}) == [a, b, b]
  {
    var c := [(a, ia), (b, ib), (a, ic)];
    DedupKeepsUnused(c, {});
    assert c[1..] == [(b, ib), (a, ic)];
    assert {} + {a} == {a};
    DedupKeepsUnused(c[1..], {a});
    assert c[1..][1..] == [(a, ic)];
    assert {a} + {b} == {a, b};
    DedupFromCons(c[1..][1..], {a, b});
    assert c[1..][1..][1..] == [];
  }

  /** A first candidate not yet used keeps its name, which joins the used
      set for the rest. */
  lemma DedupKeepsUnused(cands: seq<(string, int)>, used: set<string>)
    requires cands != [] && cands[0].0 !in used
    ensures DedupFrom(cands, used) == [cands[0].0] + DedupFrom(cands[1..], used + {cands[0].0})
  {
    DedupFromCons(cands, used);
  }

  /** The (candidate name, id) pairs of the messages, in order. */
  function Candidates(ms: seq<Message>, slugify: string -> string): (cands: seq<(string, int)>)
    ensures |cands| == |ms|
    ensures forall j :: 0 <= j < |ms| ==> cands[j] == (GenerateFilename(ms[j], slugify), ms[j].id)
  {
    seq(|ms|, j requires 0 <= j < |ms| => (GenerateFilename(ms[j], slugify), ms[j].id))
  }

  /** One iteration of the conversion loop keeps its invariant. */
  lemma AssignStep(names: seq<string>, cands: seq<(string, int)>, i: nat, used: set<string>, filename: string)
    requires i < |cands| && filename == UniqueFilename(cands[i].0, used, cands[i].1)
    requires names + DedupFrom(cands[i..], used) == DedupFrom(cands, {})
    ensures (names + [filename]) + DedupFrom(cands[i + 1..], used + {filename}) == DedupFrom(cands, {})
  {
    assert cands[i..][1..] == cands[i + 1..];
    DedupFromCons(cands[i..], used);
    var later := DedupFrom(cands[i + 1..], used + {filename});
    assert (names + [filename]) + later == names + ([filename] + later);
  }

  /** The file-name bookkeeping of `main`'s conversion loop: each message's
      generated name is made unique against `usedFilenames`, and exactly the
      returned name is added to the set. */
  method AssignFilenames(ms: seq<Message>, slugify: string -> string) returns (names: seq<string>)
    ensures names == DedupFrom(Candidates(ms, slugify), {})
  {
    var usedFilenames: set<string> := {};
    names := [];
    ghost var cands := Candidates(ms, slugify);
    for i := 0 to |ms|
      invariant names + DedupFrom(cands[i..], usedFilenames) == DedupFrom(cands, {})
    {
      var filename := UniqueFilename(GenerateFilename(ms[i], slugify), usedFilenames, ms[i].id);
      AssignStep(names, cands, i, usedFilenames, filename);
      usedFilenames := usedFilenames + {filename};
      names := names + [filename];
    }
  }
}
