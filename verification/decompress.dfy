/**
 * `run_decompress`: turn a CHD file, or every CHD file under a directory,
 * back into a disc image by running `chdman extract<format>`, the format
 * being read from the metadata that `chdman info` reports.
 */
module Decompress {
  import opened Wrappers
  import opened Text
  import opened PurePaths
  import opened Chdman

  /* ---------------- the format scan ---------------- */

  /**
   * The tag a metadata line names: the text between the first `Tag='` and
   * the quote that next follows it, stripped and upper-cased; nothing when
   * the line holds no `Tag='` (the IndexError the scan swallows).
   */
  function TagOf(line: string): (r: Option<string>)
    ensures r.Some? <==> Contains(line, "Tag='")
  {
    SplitHasSecond(line, "Tag='");
    var parts := Split(line, "Tag='");
    if |parts| < 2 then None else Some(Upper(Strip(Split(parts[1], "'")[0])))
  }

  /**
   * The format one output line of `chdman info` names: a `Metadata:` line
   * whose tag is a known one. Any other line (no tag, or a tag without a
   * format, the KeyError the scan swallows) names none.
   */
  function LineFormat(line: string): (r: Option<string>)
    ensures r.Some? <==> StartsWith(line, "Metadata:") && TagOf(line).Some? && TagOf(line).value in TagToFormat
    ensures r.Some? ==> r.value == TagToFormat[TagOf(line).value]
  {
    if StartsWith(line, "Metadata:") then
      match TagOf(line)
      case Some(tag) => if tag in TagToFormat then Some(TagToFormat[tag]) else None
      case None => None
    else None
  }

  /** The format of the first line that names one (lines 138-144), or none. */
  function TagScan(lines: seq<string>): (r: Option<string>)
    ensures r.Some? ==> r.value in {"cd", "dvd"} && r.value in FormatToExt
  {
    if lines == [] then None
    else if LineFormat(lines[0]).Some? then LineFormat(lines[0])
    else TagScan(lines[1..])
  }

  /**
   * The scan finds a format exactly when some line names one, and then it is
   * the format of the first such line: later lines are never looked at.
   */
  lemma TagScanFirst(lines: seq<string>)
    ensures TagScan(lines).None? <==> forall i :: 0 <= i < |lines| ==> LineFormat(lines[i]).None?
    ensures TagScan(lines).Some? ==>
              exists i :: 0 <= i < |lines| && LineFormat(lines[i]) == TagScan(lines)
                       && forall j :: 0 <= j < i ==> LineFormat(lines[j]).None?
  {
    TagScanNone(lines);
    if TagScan(lines).Some? {
      TagScanSome(lines);
    }
  }

  /** The scan finds nothing exactly when no line names a format. */
  lemma {:induction false} TagScanNone(lines: seq<string>)
    ensures TagScan(lines).None? <==> forall i :: 0 <= i < |lines| ==> LineFormat(lines[i]).None?
  {
    if lines != [] && LineFormat(lines[0]).None? {
      TagScanNone(lines[1..]);
      assert forall i :: 0 < i < |lines| ==> lines[i] == lines[1..][i - 1];
    }
  }

  /** A format the scan finds is that of a line preceded only by lines naming none. */
  lemma {:induction false} TagScanSome(lines: seq<string>)
    requires TagScan(lines).Some?
    ensures exists i :: 0 <= i < |lines| && LineFormat(lines[i]) == TagScan(lines)
                     && forall j :: 0 <= j < i ==> LineFormat(lines[j]).None?
  {
    if LineFormat(lines[0]).None? {
      var rest := lines[1..];
      TagScanSome(rest);
      var i :| 0 <= i < |rest| && LineFormat(rest[i]) == TagScan(rest)
               && forall j :: 0 <= j < i ==> LineFormat(rest[j]).None?;
      assert lines[i + 1] == rest[i];
      assert forall j :: 0 < j < i + 1 ==> lines[j] == rest[j - 1];
    }
  }

  /** Lines placed after the first line naming a format do not change the scan. */
  lemma {:induction false} TagScanAppend(a: seq<string>, b: seq<string>)
    requires TagScan(a).Some?
    ensures TagScan(a + b) == TagScan(a)
  {
    assert (a + b)[0] == a[0];
    if LineFormat(a[0]).None? {
      assert (a + b)[1..] == a[1..] + b;
      TagScanAppend(a[1..], b);
    }
  }

  /** The scan over the output of `chdman info`, as the loop at lines 138-144 does it. */
  method ScanFormat(lines: seq<string>) returns (fmt: Option<string>)
    ensures fmt == TagScan(lines)
  {
    fmt := None;
    var i := 0;
    while i < |lines|
      invariant 0 <= i <= |lines|
      invariant TagScan(lines) == TagScan(lines[i..])
    {
      assert lines[i..][0] == lines[i] && lines[i..][1..] == lines[i + 1..];
      if StartsWith(lines[i], "Metadata:") {
        var tag := TagOf(lines[i]);
        if tag.Some? && tag.value in TagToFormat {
          fmt := Some(TagToFormat[tag.value]);
          break;
        }
      }
      i := i + 1;
    }
  }

  /**
   * The tag of a line is the text between its first `Tag='` and the quote
   * that closes it, stripped and upper-cased (for a tag that holds neither a
   * quote nor an equals sign, so that no later `Tag='` starts inside it).
   */
  lemma TagOfLine(pre: string, tag: string, post: string)
    requires forall k :: 0 <= k < |pre| ==> !OccursAt(pre + "Tag='", "Tag='", k)
    requires '\'' !in tag && '=' !in tag
    ensures TagOf(pre + "Tag='" + tag + "'" + post) == Some(Upper(Strip(tag)))
  {
    var rest := tag + "'" + post;
    assert pre + "Tag='" + tag + "'" + post == pre + "Tag='" + rest;
    AfterFirstTag(pre, rest);
    TagRunsToQuote(tag, post);
    QuoteEndsTag(Split(rest, "Tag='")[0], tag);
  }

  /** The second piece of the split on `Tag='` is what follows the first `Tag='`, up to the next one. */
  lemma AfterFirstTag(pre: string, rest: string)
    requires forall k :: 0 <= k < |pre| ==> !OccursAt(pre + "Tag='", "Tag='", k)
    ensures var parts := Split(pre + "Tag='" + rest, "Tag='");
      |parts| >= 2 && parts[1] == Split(rest, "Tag='")[0]
  {
    var sep := "Tag='";
    var line := pre + sep + rest;
    assert line[|pre|..|pre| + 5] == sep;
    forall k | 0 <= k < |pre|
      ensures !OccursAt(line, sep, k)
    {
      assert !OccursAt(pre + sep, sep, k);
      assert line[k..k + 5] == (pre + sep)[k..k + 5];
    }
    SplitAtFirst(line, sep, |pre|);
    assert line[|pre| + 5..] == rest;
  }

  /** No `Tag='` starts inside a tag free of quotes and equals signs, or at its closing quote. */
  lemma TagRunsToQuote(tag: string, post: string)
    requires '\'' !in tag && '=' !in tag
    ensures StartsWith(Split(tag + "'" + post, "Tag='")[0], tag + "'")
  {
    var sep := "Tag='";
    var rest := tag + "'" + post;
    forall k | 0 <= k < |tag| + 1
      ensures !OccursAt(rest, sep, k)
    {
      if k + 3 < |tag| {
        assert rest[k + 3] == tag[k + 3];
      } else {
        assert rest[|tag|] == '\'';
      }
    }
    SplitHeadPrefix(rest, sep, |tag| + 1);
    assert rest[..|tag| + 1] == tag + "'";
  }

  /** Splitting on the quote keeps what comes before the first one. */
  lemma QuoteEndsTag(piece: string, tag: string)
    requires StartsWith(piece, tag + "'") && '\'' !in tag
    ensures Split(piece, "'")[0] == tag
  {
    assert piece[..|tag| + 1] == tag + "'";
    assert piece[|tag|..|tag| + 1] == "'";
    forall k | 0 <= k < |tag|
      ensures !OccursAt(piece, "'", k)
    {
      assert piece[k] == tag[k] != '\'';
      assert piece[k..k + 1] == [piece[k]];
    }
    SplitAtFirst(piece, "'", |tag|);
    assert piece[..|tag|] == tag;
  }

  /**
   * A metadata line of `chdman info`, padded with blanks after `Metadata:`,
   * names the format its tag maps to, and none for an unknown tag.
   */
  lemma MetadataLine(pad: string, tag: string, post: string)
    requires forall i :: 0 <= i < |pad| ==> pad[i] == ' '
    requires '\'' !in tag && '=' !in tag
    ensures var key := Upper(Strip(tag));
      LineFormat("Metadata:" + pad + "Tag='" + tag + "'" + post)
        == if key in TagToFormat then Some(TagToFormat[key]) else None
  {
    var pre := "Metadata:" + pad;
    var line := "Metadata:" + pad + "Tag='" + tag + "'" + post;
    MetadataPrefix(pad, "Tag='" + tag + "'" + post);
    TagOfLine(pre, tag, post);
    assert line == pre + "Tag='" + tag + "'" + post;
  }

  /** The prefix `Metadata:` and the blanks after it hold no `Tag='`. */
  lemma MetadataPrefix(pad: string, rest: string)
    requires forall i :: 0 <= i < |pad| ==> pad[i] == ' '
    ensures var pre := "Metadata:" + pad;
      && StartsWith(pre + rest, "Metadata:")
      && forall k :: 0 <= k < |pre| ==> !OccursAt(pre + "Tag='", "Tag='", k)
  {
    var pre := "Metadata:" + pad;
    assert forall i :: 0 <= i < |pre| ==> pre[i] != 'T' by {
      forall i | 0 <= i < |pre|
        ensures pre[i] != 'T'
      {
        if i < 9 {
          assert pre[i] == "Metadata:"[i];
        } else {
          assert pre[i] == pad[i - 9];
        }
      }
    }
    forall k | 0 <= k < |pre|
      ensures !OccursAt(pre + "Tag='", "Tag='", k)
    {
      assert (pre + "Tag='")[k] == pre[k];
    }
    assert (pre + rest)[..9] == "Metadata:";
  }

  /** The tags chdman writes for a CD and a DVD are already stripped and upper-case. */
  lemma KnownTags()
    ensures forall t :: t in TagToFormat ==> Upper(Strip(t)) == t
  {
    forall t | t in TagToFormat
      ensures Upper(Strip(t)) == t
    {
      TagChars(t);
      UpperWord(t);
    }
  }

  /** The known tags are made of capitals and digits. */
  lemma TagChars(tag: string)
    requires tag in TagToFormat
    ensures forall i :: 0 <= i < |tag| ==> 'A' <= tag[i] <= 'Z' || '0' <= tag[i] <= '9'
  {
    if tag == "CHT2" {
      assert tag[0] == 'C' && tag[1] == 'H' && tag[2] == 'T' && tag[3] == '2';
    } else {
      assert tag == "DVD";
      assert tag[0] == 'D' && tag[1] == 'V' && tag[2] == 'D';
    }
  }

  /** A padded metadata line with a known tag names that tag's format. */
  lemma MetadataTag(pad: string, tag: string, post: string)
    requires forall i :: 0 <= i < |pad| ==> pad[i] == ' '
    requires tag in TagToFormat
    ensures LineFormat("Metadata:" + pad + "Tag='" + tag + "'" + post) == Some(TagToFormat[tag])
  {
    TagChars(tag);
    assert '\'' !in tag && '=' !in tag;
    UpperWord(tag);
    MetadataLine(pad, tag, post);
  }

  /** The metadata line of a CD names "cd", that of a DVD "dvd", however they are padded. */
  lemma MetadataExamples(pad: string, post: string)
    requires forall i :: 0 <= i < |pad| ==> pad[i] == ' '
    ensures LineFormat("Metadata:" + pad + "Tag='" + "CHT2" + "'" + post) == Some("cd")
    ensures LineFormat("Metadata:" + pad + "Tag='" + "DVD" + "'" + post) == Some("dvd")
  {
    MetadataTag(pad, "CHT2", post);
    MetadataTag(pad, "DVD", post);
  }

  /* ---------------- one CHD file ---------------- */

  /**
   * The image to write: the output path itself when it already names a disc
   * image, and otherwise a file in the output directory named after the
   * input's stem, whose own last suffix `with_suffix` then replaces by the
   * extension of the format.
   */
  function DecompressTarget(input: Path, output: Path, fmt: string): (r: Option<Path>)
    requires fmt in {"cd", "dvd"}
    ensures NormSuffix(output) in DiscImageExts ==> r == Some(output)
    ensures NormSuffix(output) !in DiscImageExts && r.Some? ==> NormSuffix(r.value) == ImageExt(fmt)
    ensures NormSuffix(output) !in DiscImageExts && Stem(input) != "" && Stem(input) != "." ==>
              r.Some? && Parent(r.value) == output && Name(r.value) == StemOf(Stem(input)) + ImageExt(fmt)
    ensures r.None? ==> Name(output) == "" && (Stem(input) == "" || Stem(input) == ".")
  {
    if NormSuffix(output) in DiscImageExts then Some(output)
    else
      NormSuffixWithSuffix(Join(output, Stem(input)), ImageExt(fmt));
      WithSuffix(Join(output, Stem(input)), ImageExt(fmt))
  }

  /** `FORMAT_TO_EXT[fmt]` for the formats the scan can find: ".cue" for a CD, ".iso" for a DVD. */
  function ImageExt(fmt: string): (r: string)
    requires fmt in {"cd", "dvd"}
    ensures LowerExtension(r) && r in DiscImageExts
    ensures r == (if fmt == "cd" then ".cue" else ".iso")
  {
    KnownExtensions();
    FormatToExt[fmt]
  }

  /**
   * The file chdman is to write the CD's data track to: the cue sheet's stem,
   * in the cue sheet's directory, with its last suffix replaced by `.bin`.
   */
  function BinPath(target: Path): (r: Option<Path>)
    ensures Stem(target) != "" && Stem(target) != "." ==>
              r.Some? && Parent(r.value) == Parent(target) && Name(r.value) == StemOf(Stem(target)) + ".bin"
  {
    WithSuffix(Join(Parent(target), Stem(target)), ".bin")
  }

  /**
   * The command extracting an image (lines 153-155): the tool, `extract`
   * joined to the format, the input and the target, and for a CD also the
   * data-track file; or the exception raised when that file has no name.
   */
  function ExtractCommand(tool: Path, fmt: string, input: Path, target: Path): (r: Result<Command, Error>)
    ensures r.Ok? ==> |r.value| == (if fmt == "cd" then 8 else 6) && r.value[1] == Word("extract" + fmt)
    ensures r.Ok? ==> r.value[..6] == [PathArg(tool), Word("extract" + fmt), Word("--input"), PathArg(input),
                                       Word("--output"), PathArg(target)]
    ensures r.Ok? && fmt == "cd" ==> BinPath(target).Some? && r.value[6..] == [Word("--outputbin"), PathArg(BinPath(target).value)]
    ensures r.Err? ==> fmt == "cd" && BinPath(target).None? && r.error.EmptyName?
  {
    var cmd := [PathArg(tool), Word("extract" + fmt), Word("--input"), PathArg(input), Word("--output"), PathArg(target)];
    if fmt == "cd" then
      match BinPath(target)
      case None => Err(EmptyName(Join(Parent(target), Stem(target))))
      case Some(bin) => Ok(cmd + [Word("--outputbin"), PathArg(bin)])
    else Ok(cmd)
  }

  /** The extract command planned from the lines `chdman info` printed (lines 145-155). */
  function ExtractPlan(tool: Path, output: Path, input: Path, lines: seq<string>): (r: Result<Command, Error>)
    ensures r.Err? ==> r.error == UnknownFormat(input) || r.error.EmptyName?
    ensures r.Err? ==> (r.error == UnknownFormat(input) <==> TagScan(lines).None?)
    ensures r.Ok? ==> TagScan(lines).Some? && |r.value| == (if TagScan(lines) == Some("cd") then 8 else 6)
                      && r.value[1] == Word("extract" + TagScan(lines).value)
    ensures TagScan(lines).Some? ==>
              var fmt := TagScan(lines).value;
              var t := DecompressTarget(input, output, fmt);
              (r.Ok? <==> t.Some? && (fmt == "cd" ==> BinPath(t.value).Some?))
    ensures r.Ok? ==>
              var fmt := TagScan(lines).value;
              var t := DecompressTarget(input, output, fmt).value;
              && r.value[..6] == [PathArg(tool), Word("extract" + fmt), Word("--input"), PathArg(input), Word("--output"), PathArg(t)]
              && (fmt == "cd" ==> r.value[6..] == [Word("--outputbin"), PathArg(BinPath(t).value)])
  {
    match TagScan(lines)
    case None => Err(UnknownFormat(input))
    case Some(fmt) =>
      match DecompressTarget(input, output, fmt)
      case None => Err(EmptyName(Join(output, Stem(input))))
      case Some(target) => ExtractCommand(tool, fmt, input, target)
  }

  /** The output handling (lines 120-126): refuse an existing output file; create the output directory. */
  function DecompressPrelude(fs: FileSystem, output: Path, dryrun: bool): Outcome {
    OutputPrelude(fs, output, NormSuffix(output) !in DiscImageExts, dryrun)
  }

  /**
   * The branch taken when the input is a regular file (lines 129-159). The
   * info command is printed and run even under dry run; its output decides
   * the format.
   */
  function DecompressBody(tool: Path, output: Path, stdout: Stdout, dryrun: bool, input: Path): Outcome {
    if NormSuffix(input) != ".chd" then Outcome([], Some(NotChd(input)))
    else
      var info := InfoCommand(tool, input);
      Then(Outcome([Echo(info), Spawn(info)], None), LaunchOrFail(ExtractPlan(tool, output, input, stdout(info)), dryrun))
  }

  /** `run_decompress` called on one file, as the directory walk does. */
  function DecompressFile(fs: FileSystem, tool: Path, output: Path, stdout: Stdout, dryrun: bool, input: Path): Outcome {
    Then(DecompressPrelude(fs, output, dryrun), DecompressBody(tool, output, stdout, dryrun, input))
  }

  function DecompressStep(fs: FileSystem, tool: Path, output: Path, stdout: Stdout, dryrun: bool): Path -> Outcome {
    p => DecompressFile(fs, tool, output, stdout, dryrun, p)
  }

  /** What `run_decompress` does once the output has been handled (lines 128-174). */
  function DecompressRest(fs: FileSystem, tool: Path, entries: seq<Path>, input: Path, output: Path, stdout: Stdout, dryrun: bool): Outcome {
    if IsFile(fs, input) then DecompressBody(tool, output, stdout, dryrun, input)
    else if IsDir(fs, input) then
      if NormSuffix(output) in DiscImageExts then Outcome([], Some(DirectoryToFile(output)))
      else Each(Matching(fs, entries, {".chd"}), DecompressStep(fs, tool, output, stdout, dryrun))
    else Outcome([], Some(InputNotFound(input)))
  }

  /** All of `run_decompress`; `entries` is what `input.rglob('*.*')` enumerates. */
  function DecompressRun(fs: FileSystem, tool: Path, entries: seq<Path>, input: Path, output: Path, stdout: Stdout, dryrun: bool): Outcome {
    Then(DecompressPrelude(fs, output, dryrun), DecompressRest(fs, tool, entries, input, output, stdout, dryrun))
  }

  /** The branch for a regular input file, with the format scan as a loop. */
  method DecompressOne(tool: Path, output: Path, stdout: Stdout, dryrun: bool, input: Path) returns (o: Outcome)
    ensures o == DecompressBody(tool, output, stdout, dryrun, input)
  {
    if NormSuffix(input) != ".chd" {
      return Outcome([], Some(NotChd(input)));
    }
    var info := InfoCommand(tool, input);
    var fmt := ScanFormat(stdout(info));
    var plan: Result<Command, Error>;
    if fmt.None? {
      plan := Err(UnknownFormat(input));
    } else {
      var target := DecompressTarget(input, output, fmt.value);
      if target.None? {
        plan := Err(EmptyName(Join(output, Stem(input))));
      } else {
        plan := ExtractCommand(tool, fmt.value, input, target.value);
      }
    }
    var launched := LaunchOrFail(plan, dryrun);
    o := Outcome([Echo(info), Spawn(info)] + launched.log, launched.failure);
  }

  /** `run_decompress`, with the format scan and the directory walk as loops. */
  method RunDecompress(fs: FileSystem, tool: Path, entries: seq<Path>, input: Path, output: Path, stdout: Stdout, dryrun: bool)
    returns (o: Outcome)
    ensures o == DecompressRun(fs, tool, entries, input, output, stdout, dryrun)
  {
    o := DecompressPrelude(fs, output, dryrun);
    if o.failure.Some? {
      return;
    }
    var rest: Outcome;
    if IsFile(fs, input) {
      rest := DecompressOne(tool, output, stdout, dryrun, input);
    } else if IsDir(fs, input) {
      if NormSuffix(output) in DiscImageExts {
        rest := Outcome([], Some(DirectoryToFile(output)));
      } else {
        rest := Walk(fs, entries, {".chd"}, DecompressStep(fs, tool, output, stdout, dryrun));
      }
    } else {
      rest := Outcome([], Some(InputNotFound(input)));
    }
    o := Outcome(o.log + rest.log, rest.failure);
  }

  /* ---------------- properties ---------------- */

  /**
   * A CHD file is first asked about with `chdman info`, which is printed and
   * run even under dry run; then the planned extract command is printed, and
   * run unless under dry run, or the run stops on the planning error.
   */
  lemma DecompressBodyCommands(tool: Path, output: Path, stdout: Stdout, dryrun: bool, input: Path)
    requires NormSuffix(input) == ".chd"
    ensures var info := InfoCommand(tool, input);
      var plan := ExtractPlan(tool, output, input, stdout(info));
      var r := DecompressBody(tool, output, stdout, dryrun, input);
      && r.failure == (if plan.Ok? then None else Some(plan.error))
      && Shown(r.log) == [info] + (if plan.Ok? then [plan.value] else [])
      && Spawned(r.log) == [info] + (if plan.Ok? && !dryrun then [plan.value] else [])
  {
    var info := InfoCommand(tool, input);
    var plan := ExtractPlan(tool, output, input, stdout(info));
    assert DecompressBody(tool, output, stdout, dryrun, input) == Then(Outcome([Echo(info), Spawn(info)], None), LaunchOrFail(plan, dryrun));
    ProbeThenLaunch(info, plan, dryrun);
  }

  /** `run_decompress` on one file, as the walk calls it: the prelude adds no command. */
  lemma DecompressFileCommands(fs: FileSystem, tool: Path, output: Path, stdout: Stdout, dryrun: bool, input: Path)
    requires NormSuffix(input) == ".chd" && !IsFile(fs, output)
    ensures var info := InfoCommand(tool, input);
      var plan := ExtractPlan(tool, output, input, stdout(info));
      var r := DecompressFile(fs, tool, output, stdout, dryrun, input);
      && r.failure == (if plan.Ok? then None else Some(plan.error))
      && Shown(r.log) == [info] + (if plan.Ok? then [plan.value] else [])
      && Spawned(r.log) == [info] + (if plan.Ok? && !dryrun then [plan.value] else [])
  {
    var pre := DecompressPrelude(fs, output, dryrun);
    var body := DecompressBody(tool, output, stdout, dryrun, input);
    DecompressBodyCommands(tool, output, stdout, dryrun, input);
    ThenCommands(pre, body);
  }

  /**
   * A single CHD file: when no metadata line names a format the run stops
   * with the unknown-format error after only the info command; otherwise,
   * when the image and (for a CD) its data track have names, it prints the
   * extract command for that format, from the CHD file to the image, with the
   * data-track arguments exactly for a CD, and runs it unless under dry run.
   */
  lemma DecompressSingleFile(fs: FileSystem, tool: Path, entries: seq<Path>, input: Path, output: Path, stdout: Stdout, dryrun: bool)
    requires IsFile(fs, input) && !IsFile(fs, output) && NormSuffix(input) == ".chd"
    ensures var info := InfoCommand(tool, input);
      var lines := stdout(info);
      var plan := ExtractPlan(tool, output, input, lines);
      var o := DecompressRun(fs, tool, entries, input, output, stdout, dryrun);
      && (TagScan(lines).None? ==>
            o.failure == Some(UnknownFormat(input)) && Shown(o.log) == [info] && Spawned(o.log) == [info])
      && (plan.Ok? ==>
            var fmt := TagScan(lines).value;
            var t := DecompressTarget(input, output, fmt).value;
            var extract := [PathArg(tool), Word("extract" + fmt), Word("--input"), PathArg(input), Word("--output"), PathArg(t)]
                           + (if fmt == "cd" then [Word("--outputbin"), PathArg(BinPath(t).value)] else []);
            && o.failure.None?
            && Shown(o.log) == [info, extract]
            && Spawned(o.log) == [info] + (if dryrun then [] else [extract]))
  {
    DecompressFileCommands(fs, tool, output, stdout, dryrun, input);
    assert DecompressRun(fs, tool, entries, input, output, stdout, dryrun)
        == DecompressFile(fs, tool, output, stdout, dryrun, input);
    var plan := ExtractPlan(tool, output, input, stdout(InfoCommand(tool, input)));
    if plan.Ok? {
      var v := plan.value;
      assert v == v[..6] + v[6..];
    }
  }

  /** The plan for one CHD file of a walk, as the list of commands it prints. */
  function PlannedCommands(tool: Path, output: Path, stdout: Stdout, p: Path): seq<Command> {
    var info := InfoCommand(tool, p);
    var plan := ExtractPlan(tool, output, p, stdout(info));
    [info] + (if plan.Ok? then [plan.value] else [])
  }

  /** A walk step can only stop on an unknown format or a path without a name. */
  lemma DecompressStepFailure(fs: FileSystem, tool: Path, output: Path, stdout: Stdout, dryrun: bool, p: Path)
    requires NormSuffix(p) == ".chd" && !IsFile(fs, output)
    ensures var r := DecompressFile(fs, tool, output, stdout, dryrun, p);
      r.failure.None? || r.failure.value.UnknownFormat? || r.failure.value.EmptyName?
  {
    DecompressFileCommands(fs, tool, output, stdout, dryrun, p);
  }

  /** The walk of a directory can only stop on an unknown format or a path without a name. */
  lemma DecompressWalkFailure(fs: FileSystem, tool: Path, entries: seq<Path>, output: Path, stdout: Stdout, dryrun: bool)
    requires !IsFile(fs, output)
    ensures var w := Each(Matching(fs, entries, {".chd"}), DecompressStep(fs, tool, output, stdout, dryrun));
      w.failure.Some? ==> !IsValidation(w.failure.value)
  {
    var files := Matching(fs, entries, {".chd"});
    var step := DecompressStep(fs, tool, output, stdout, dryrun);
    forall p | p in files
      ensures step(p).failure.Some? ==> !IsValidation(step(p).failure.value)
    {
      assert NormSuffix(p) in {".chd"};
      DecompressStepFailure(fs, tool, output, stdout, dryrun, p);
    }
    EachNoValidation(files, step);
  }

  /** Once the output is handled, a validation error ends the run before anything is logged. */
  lemma DecompressRestValidation(fs: FileSystem, tool: Path, entries: seq<Path>, input: Path, output: Path, stdout: Stdout, dryrun: bool)
    requires !IsFile(fs, output)
    ensures var rest := DecompressRest(fs, tool, entries, input, output, stdout, dryrun);
      rest.failure.Some? && IsValidation(rest.failure.value) ==> rest.log == []
  {
    if IsFile(fs, input) && NormSuffix(input) == ".chd" {
      DecompressBodyCommands(tool, output, stdout, dryrun, input);
    } else if IsDir(fs, input) && NormSuffix(output) !in DiscImageExts {
      DecompressWalkFailure(fs, tool, entries, output, stdout, dryrun);
    }
  }

  /**
   * The argument check of `run_decompress` that fails, if any, in the order
   * the script makes them: an existing output file; for a regular input, an
   * extension other than `.chd`; for a directory, an output named like a disc
   * image; and an input that is neither.
   */
  function DecompressArgError(fs: FileSystem, input: Path, output: Path): Option<Error> {
    if IsFile(fs, output) then Some(OutputFileExists(output))
    else if IsFile(fs, input) then
      if NormSuffix(input) != ".chd" then Some(NotChd(input)) else None
    else if IsDir(fs, input) then
      if NormSuffix(output) in DiscImageExts then Some(DirectoryToFile(output)) else None
    else Some(InputNotFound(input))
  }

  /**
   * A run stops on an argument error exactly when one of the checks fails,
   * with that check's error, and by then it has shown no command and run
   * nothing, not even `chdman info`.
   */
  lemma DecompressValidatesFirst(fs: FileSystem, tool: Path, entries: seq<Path>, input: Path, output: Path, stdout: Stdout, dryrun: bool)
    ensures var o := DecompressRun(fs, tool, entries, input, output, stdout, dryrun);
      o.failure.Some? && IsValidation(o.failure.value) <==> DecompressArgError(fs, input, output).Some?
    ensures var o := DecompressRun(fs, tool, entries, input, output, stdout, dryrun);
      DecompressArgError(fs, input, output).Some? ==>
        o.failure == DecompressArgError(fs, input, output) && Shown(o.log) == [] && Spawned(o.log) == []
  {
    var pre := DecompressPrelude(fs, output, dryrun);
    var rest := DecompressRest(fs, tool, entries, input, output, stdout, dryrun);
    ThenCommands(pre, rest);
    if pre.failure.None? {
      DecompressRestValidation(fs, tool, entries, input, output, stdout, dryrun);
      DecompressRestArgError(fs, tool, entries, input, output, stdout, dryrun);
    }
  }

  /** Once the output is handled, the rest of the run raises an argument error exactly when a check on the input fails. */
  lemma DecompressRestArgError(fs: FileSystem, tool: Path, entries: seq<Path>, input: Path, output: Path, stdout: Stdout, dryrun: bool)
    requires !IsFile(fs, output)
    ensures var rest := DecompressRest(fs, tool, entries, input, output, stdout, dryrun);
      (rest.failure.Some? && IsValidation(rest.failure.value) <==> DecompressArgError(fs, input, output).Some?)
      && (DecompressArgError(fs, input, output).Some? ==> rest.failure == DecompressArgError(fs, input, output))
  {
    if IsFile(fs, input) && NormSuffix(input) == ".chd" {
      DecompressBodyCommands(tool, output, stdout, dryrun, input);
    } else if !IsFile(fs, input) && IsDir(fs, input) && NormSuffix(output) !in DiscImageExts {
      DecompressWalkFailure(fs, tool, entries, output, stdout, dryrun);
    }
  }

  /**
   * Each argument error, and what the run has done before raising it: an
   * existing output file is refused before anything else; the other checks
   * come after the output directory has been created (or its `mkdir -p`
   * printed), which is then all the run has done.
   */
  lemma DecompressRejects(fs: FileSystem, tool: Path, entries: seq<Path>, input: Path, output: Path, stdout: Stdout, dryrun: bool)
    ensures var o := DecompressRun(fs, tool, entries, input, output, stdout, dryrun);
      var mkdir: seq<Event> := if NormSuffix(output) !in DiscImageExts then [if dryrun then EchoMakeDirs(output) else MakeDirs(output)] else [];
      && (IsFile(fs, output) ==> o == Outcome([], Some(OutputFileExists(output))))
      && (!IsFile(fs, output) && IsFile(fs, input) && NormSuffix(input) != ".chd" ==>
            o == Outcome(mkdir, Some(NotChd(input))))
      && (!IsFile(fs, output) && !IsFile(fs, input) && IsDir(fs, input) && NormSuffix(output) in DiscImageExts ==>
            o == Outcome([], Some(DirectoryToFile(output))))
      && (!IsFile(fs, output) && !IsFile(fs, input) && !IsDir(fs, input) ==>
            o == Outcome(mkdir, Some(InputNotFound(input))))
  {
  }

  /** Under dry run, the branch for a regular file runs nothing but its info command. */
  lemma DecompressBodyDryRun(tool: Path, output: Path, stdout: Stdout, p: Path)
    ensures forall e :: e in DecompressBody(tool, output, stdout, true, p).log ==>
              e.Spawn? ==> e.command == InfoCommand(tool, p)
  {
    var info := InfoCommand(tool, p);
    if NormSuffix(p) == ".chd" {
      ProbeDryRun(info, ExtractPlan(tool, output, p, stdout(info)));
    }
  }

  /** Every command one file of a dry run runs is an info command. */
  lemma DecompressFileDryRun(fs: FileSystem, tool: Path, output: Path, stdout: Stdout, p: Path)
    ensures forall e :: e in DecompressFile(fs, tool, output, stdout, true, p).log ==>
              e.Spawn? ==> e.command == InfoCommand(tool, p)
  {
    var info := InfoCommand(tool, p);
    var ok := (e: Event) => e.Spawn? ==> e.command == info;
    var pre := DecompressPrelude(fs, output, true);
    assert forall e :: e in pre.log ==> ok(e) by {
      forall e | e in pre.log
        ensures ok(e)
      {
        var i :| 0 <= i < |pre.log| && pre.log[i] == e;
      }
    }
    DecompressBodyDryRun(tool, output, stdout, p);
    ThenEvents(pre, DecompressBody(tool, output, stdout, true, p), ok);
  }

  /**
   * Under dry run the only commands run are `chdman info` on CHD files: the
   * format must be read even when nothing is extracted.
   */
  lemma DecompressDryRun(fs: FileSystem, tool: Path, entries: seq<Path>, input: Path, output: Path, stdout: Stdout)
    ensures forall c :: c in Spawned(DecompressRun(fs, tool, entries, input, output, stdout, true).log) ==>
              |c| == 4 && c[1] == Word("info")
  {
    var o := DecompressRun(fs, tool, entries, input, output, stdout, true);
    var pre := DecompressPrelude(fs, output, true);
    var rest := DecompressRest(fs, tool, entries, input, output, stdout, true);
    var files := Matching(fs, entries, {".chd"});
    var step := DecompressStep(fs, tool, output, stdout, true);
    var ok := (e: Event) => e.Spawn? ==> |e.command| == 4 && e.command[1] == Word("info");
    forall p | p in files
      ensures forall e :: e in step(p).log ==> ok(e)
    {
      DecompressFileDryRun(fs, tool, output, stdout, p);
    }
    EachEvents(files, step, ok);
    if IsFile(fs, input) {
      DecompressFileDryRun(fs, tool, output, stdout, input);
      assert Then(pre, rest) == DecompressFile(fs, tool, output, stdout, true, input);
    } else {
      assert forall e :: e in rest.log ==> ok(e);
      assert forall e :: e in pre.log ==> ok(e) by {
        forall e | e in pre.log
          ensures ok(e)
        {
          var i :| 0 <= i < |pre.log| && pre.log[i] == e;
        }
      }
      ThenEvents(pre, rest, ok);
    }
    forall c | c in Spawned(o.log)
      ensures |c| == 4 && c[1] == Word("info")
    {
      ShownFromEcho(o.log, c);
    }
  }

  /**
   * A directory is decompressed one CHD file at a time, in enumeration order:
   * for each, the info command and then the extract command are shown.
   */
  lemma DecompressDirectory(fs: FileSystem, tool: Path, entries: seq<Path>, input: Path, output: Path, stdout: Stdout, dryrun: bool)
    requires IsDir(fs, input) && !IsFile(fs, output) && NormSuffix(output) !in DiscImageExts
    requires forall p :: p in Matching(fs, entries, {".chd"}) ==>
               ExtractPlan(tool, output, p, stdout(InfoCommand(tool, p))).Ok?
    ensures var o := DecompressRun(fs, tool, entries, input, output, stdout, dryrun);
      var files := Matching(fs, entries, {".chd"});
      && o.failure.None?
      && Shown(o.log) == ConcatMap(files, p => PlannedCommands(tool, output, stdout, p))
      && (forall p :: p in files ==> |PlannedCommands(tool, output, stdout, p)| == 2)
  {
    var files := Matching(fs, entries, {".chd"});
    var step := DecompressStep(fs, tool, output, stdout, dryrun);
    var plan := p => PlannedCommands(tool, output, stdout, p);
    var pre := DecompressPrelude(fs, output, dryrun);
    forall p | p in files
      ensures step(p).failure.None? && Shown(step(p).log) == plan(p)
    {
      DecompressFileCommands(fs, tool, output, stdout, dryrun, p);
    }
    EachShown(files, step, plan);
    var walk := Each(files, step);
    assert DecompressRun(fs, tool, entries, input, output, stdout, dryrun) == Outcome(pre.log + walk.log, None);
    ShownAppend(pre.log, walk.log);
    NoCommandShowsNothing(pre.log);
  }

  /**
   * For a CD written into an output directory, the cue sheet is named after
   * the input's stem with its last suffix replaced by `.cue`, and the data
   * track sits beside it, named after the cue sheet's stem with its last
   * suffix in turn replaced by `.bin`.
   */
  lemma DecompressCueBin(input: Path, output: Path)
    requires NormSuffix(output) !in DiscImageExts && Stem(input) != "" && Stem(input) != "."
    ensures var t := DecompressTarget(input, output, "cd");
      var x := StemOf(Stem(input));
      && t.Some? && Parent(t.value) == output && Name(t.value) == x + ".cue"
      && (x != "." ==> BinPath(t.value).Some? && Parent(BinPath(t.value).value) == output
                       && Name(BinPath(t.value).value) == StemOf(x) + ".bin")
  {
    var x := StemOf(Stem(input));
    var t := DecompressTarget(input, output, "cd").value;
    StemNonEmpty(Stem(input));
    KnownExtensions();
    NamedFile(t, x, ".cue");
  }

  /**
   * An input whose stem is "." (a file named `..chd`, say) adds no component
   * to the output directory, so `with_suffix` renames the output directory
   * itself: the image is a sibling of the output directory, not a file in it.
   */
  lemma DecompressTargetBeside(input: Path, output: Path, fmt: string)
    requires fmt in {"cd", "dvd"}
    requires Stem(input) == "." && NormSuffix(output) !in DiscImageExts && Name(output) != ""
    ensures var r := DecompressTarget(input, output, fmt);
      r.Some? && Parent(r.value) == Parent(output) && Name(r.value) == Stem(output) + ImageExt(fmt)
  {
  }

  /** `<dir>/..chd` holding a DVD, decompressed into the directory `out`, is written to `out.iso`, beside `out`. */
  lemma DecompressDotChdExample(dir: string, out: string)
    requires dir != "" && out != "" && '.' !in out
    ensures DecompressTarget(Path("", [dir, "..chd"]), Path("", [out]), "dvd") == Some(Path("", [out + ".iso"]))
  {
    var input := Path("", [dir, "..chd"]);
    var output := Path("", [out]);
    KnownExtensions();
    NamedFile(input, ".", ".chd");
    PlainName(output);
    DecompressTargetBeside(input, output, "dvd");
    var r := DecompressTarget(input, output, "dvd").value;
    ParentAndName(r);
  }

  /**
   * `<game>.chd` holding a CD, decompressed into the directory `<dir>`,
   * becomes `<dir>/<game>.cue` with its data track in `<dir>/<game>.bin`.
   */
  lemma DecompressCueExample(dir: string, game: string)
    requires dir != "" && game != "" && '.' !in dir && '.' !in game
    ensures DecompressTarget(Path("", [game + ".chd"]), Path("", [dir]), "cd") == Some(Path("", [dir, game + ".cue"]))
    ensures BinPath(Path("", [dir, game + ".cue"])) == Some(Path("", [dir, game + ".bin"]))
  {
    var input := Path("", [game + ".chd"]);
    var output := Path("", [dir]);
    KnownExtensions();
    NamedFile(input, game, ".chd");
    PlainName(output);
    NoDotNoSuffix(game);
    TargetInDirectory(input, output, dir, game, "cd");
    BinBeside(dir, game);
  }

  /** Into the one-name directory `dir`, a CHD file with a dot-free stem gets that stem and the format's extension. */
  lemma TargetInDirectory(input: Path, output: Path, dir: string, game: string, fmt: string)
    requires fmt in {"cd", "dvd"}
    requires output == Path("", [dir]) && Stem(input) == game && StemOf(game) == game
    requires game != "" && '.' !in game && NormSuffix(output) == ""
    ensures DecompressTarget(input, output, fmt) == Some(Path("", [dir, game + ImageExt(fmt)]))
  {
    assert NormSuffix(output) !in DiscImageExts;
    assert Stem(input) != "" && Stem(input) != "." by {
      assert game != ".";
    }
    var r := DecompressTarget(input, output, fmt);
    assert Parent(r.value) == output && Name(r.value) == StemOf(Stem(input)) + ImageExt(fmt);
    InDirectory(r.value, dir, game + ImageExt(fmt));
  }

  /** The data track of `dir/<game>.cue` is `dir/<game>.bin`. */
  lemma BinBeside(dir: string, game: string)
    requires game != "" && '.' !in game
    ensures BinPath(Path("", [dir, game + ".cue"])) == Some(Path("", [dir, game + ".bin"]))
  {
    var t := Path("", [dir, game + ".cue"]);
    assert Parent(t) == Path("", [dir]) by {
      assert t.names[..1] == [dir];
    }
    assert Stem(t) == game && StemOf(game) == game by {
      KnownExtensions();
      NamedFile(t, game, ".cue");
      NoDotNoSuffix(game);
    }
    assert game != ".";
    var b := BinPath(t);
    assert Parent(b.value) == Path("", [dir]) && Name(b.value) == game + ".bin";
    InDirectory(b.value, dir, game + ".bin");
  }
}
