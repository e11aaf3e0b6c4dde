/**
 * `run_compress`: turn a disc image, or every disc image under a directory,
 * into a CHD file by running `chdman create<format>`.
 */
module Compress {
  import opened Wrappers
  import opened Text
  import opened PurePaths
  import opened Chdman

  /**
   * The format chdman is asked to create. "auto" becomes "cd" for a cue
   * sheet or a GD-ROM table, and otherwise "cd" for an image smaller than a
   * CD and "dvd" for a larger one; any other requested format is used as it
   * is (the command line does not restrict it).
   */
  function ResolveFormat(format: string, input: Path, size: nat): (r: string)
    ensures r != "auto"
    ensures format != "auto" ==> r == format
    ensures format == "auto" ==> r in CompressFormats && r in FormatToExt
    ensures format == "auto" && NormSuffix(input) in {".cue", ".gdi"} ==> r == "cd"
    ensures format == "auto" && NormSuffix(input) !in {".cue", ".gdi"} ==> (r == "cd" <==> size < CdCapacity)
  {
    if format == "auto" then
      if NormSuffix(input) in {".cue", ".gdi"} || size < CdCapacity then "cd" else "dvd"
    else format
  }

  /**
   * The CHD file to write: the output path itself when it already names a
   * CHD file, and otherwise a file in the output directory named after the
   * input's stem, whose own last suffix `with_suffix` then replaces.
   */
  function CompressTarget(input: Path, output: Path): (r: Option<Path>)
    ensures NormSuffix(output) == ".chd" ==> r == Some(output)
    ensures r.Some? ==> NormSuffix(r.value) == ".chd"
    ensures NormSuffix(output) != ".chd" && Stem(input) != "" && Stem(input) != "." ==>
              r.Some? && Parent(r.value) == output && Name(r.value) == StemOf(Stem(input)) + ".chd"
    ensures r.None? ==> Name(output) == "" && (Stem(input) == "" || Stem(input) == ".")
  {
    if NormSuffix(output) == ".chd" then Some(output)
    else
      KnownExtensions();
      NormSuffixWithSuffix(Join(output, Stem(input)), ".chd");
      WithSuffix(Join(output, Stem(input)), ".chd")
  }

  /** The command creating a CHD file: the tool, `create` joined to the format, the input and the target. */
  function CreateCommand(tool: Path, format: string, input: Path, target: Path): (r: Command)
    ensures |r| == 6 && r[0] == PathArg(tool) && r[1] == Word("create" + format)
    ensures r[2] == Word("--input") && r[3] == PathArg(input) && r[4] == Word("--output") && r[5] == PathArg(target)
  {
    [PathArg(tool), Word("create" + format), Word("--input"), PathArg(input), Word("--output"), PathArg(target)]
  }

  /** The output handling (lines 68-74): refuse an existing output file; create the output directory. */
  function CompressPrelude(fs: FileSystem, output: Path, dryrun: bool): Outcome {
    OutputPrelude(fs, output, NormSuffix(output) != ".chd", dryrun)
  }

  /**
   * The create command for a regular input file, or the exception raised
   * before it is built (lines 78-95).
   */
  function CompressPlan(fs: FileSystem, tool: Path, output: Path, format: string, input: Path): (r: Result<Command, Error>)
    ensures r.Err? ==> r.error == BadExtension(input) || r.error.EmptyName?
    ensures r.Err? && NormSuffix(input) in DiscImageExts ==> r.error.EmptyName?
    ensures NormSuffix(input) !in DiscImageExts <==> r == Err(BadExtension(input))
    ensures NormSuffix(input) in DiscImageExts ==> (r.Ok? <==> CompressTarget(input, output).Some?)
    ensures r.Ok? ==> |r.value| == 6 && r.value[1] == Word("create" + ResolveFormat(format, input, SizeOf(fs, input)))
                      && r.value[3] == PathArg(input) && r.value[5] == PathArg(CompressTarget(input, output).value)
  {
    if NormSuffix(input) !in DiscImageExts then Err(BadExtension(input))
    else match CompressTarget(input, output)
      case None => Err(EmptyName(Join(output, Stem(input))))
      case Some(target) => Ok(CreateCommand(tool, ResolveFormat(format, input, SizeOf(fs, input)), input, target))
  }

  /** The branch taken when the input is a regular file (lines 78-99). */
  function CompressBody(fs: FileSystem, tool: Path, output: Path, format: string, dryrun: bool, input: Path): Outcome {
    LaunchOrFail(CompressPlan(fs, tool, output, format, input), dryrun)
  }

  /** `run_compress` called on one file, as the directory walk does. */
  function CompressFile(fs: FileSystem, tool: Path, output: Path, format: string, dryrun: bool, input: Path): Outcome {
    Then(CompressPrelude(fs, output, dryrun), CompressBody(fs, tool, output, format, dryrun, input))
  }

  function CompressStep(fs: FileSystem, tool: Path, output: Path, format: string, dryrun: bool): Path -> Outcome {
    p => CompressFile(fs, tool, output, format, dryrun, p)
  }

  /** What `run_compress` does once the output has been handled (lines 76-115). */
  function CompressRest(fs: FileSystem, tool: Path, entries: seq<Path>, input: Path, output: Path, format: string, dryrun: bool): Outcome {
    if IsFile(fs, input) then CompressBody(fs, tool, output, format, dryrun, input)
    else if IsDir(fs, input) then
      if NormSuffix(output) == ".chd" then Outcome([], Some(DirectoryToFile(output)))
      else Each(Matching(fs, entries, DiscImageExts), CompressStep(fs, tool, output, format, dryrun))
    else Outcome([], Some(InputNotFound(input)))
  }

  /** All of `run_compress`; `entries` is what `input.rglob('*.*')` enumerates. */
  function CompressRun(fs: FileSystem, tool: Path, entries: seq<Path>, input: Path, output: Path, format: string, dryrun: bool): Outcome {
    Then(CompressPrelude(fs, output, dryrun), CompressRest(fs, tool, entries, input, output, format, dryrun))
  }

  /** `run_compress`, with the directory walk as a loop. */
  method RunCompress(fs: FileSystem, tool: Path, entries: seq<Path>, input: Path, output: Path, format: string, dryrun: bool)
    returns (o: Outcome)
    ensures o == CompressRun(fs, tool, entries, input, output, format, dryrun)
  {
    o := CompressPrelude(fs, output, dryrun);
    if o.failure.Some? {
      return;
    }
    var rest: Outcome;
    if IsFile(fs, input) {
      rest := CompressBody(fs, tool, output, format, dryrun, input);
    } else if IsDir(fs, input) {
      if NormSuffix(output) == ".chd" {
        rest := Outcome([], Some(DirectoryToFile(output)));
      } else {
        rest := Walk(fs, entries, DiscImageExts, CompressStep(fs, tool, output, format, dryrun));
      }
    } else {
      rest := Outcome([], Some(InputNotFound(input)));
    }
    o := Outcome(o.log + rest.log, rest.failure);
  }

  /* ---------------- properties ---------------- */

  /**
   * A file the walk hands on is a disc image and the output is no file, so
   * the recursive call can only fail for want of a name to give the target.
   */
  lemma CompressStepFailure(fs: FileSystem, tool: Path, output: Path, format: string, dryrun: bool, p: Path)
    requires Selected(fs, p, DiscImageExts) && !IsFile(fs, output)
    ensures var r := CompressFile(fs, tool, output, format, dryrun, p);
      r.failure.None? || r.failure.value.EmptyName?
  {
    var pre := CompressPrelude(fs, output, dryrun);
    assert pre.failure.None?;
  }

  /**
   * The argument check of `run_compress` that fails, if any, in the order the
   * script makes them: an existing output file; for a regular input, an
   * extension that is not a disc image's; for a directory, an output named
   * like a CHD file; and an input that is neither.
   */
  function CompressArgError(fs: FileSystem, input: Path, output: Path): Option<Error> {
    if IsFile(fs, output) then Some(OutputFileExists(output))
    else if IsFile(fs, input) then
      if NormSuffix(input) !in DiscImageExts then Some(BadExtension(input)) else None
    else if IsDir(fs, input) then
      if NormSuffix(output) == ".chd" then Some(DirectoryToFile(output)) else None
    else Some(InputNotFound(input))
  }

  /**
   * A run stops on an argument error exactly when one of the checks fails,
   * with that check's error, and by then it has shown no command and run
   * nothing.
   */
  lemma CompressValidatesFirst(fs: FileSystem, tool: Path, entries: seq<Path>, input: Path, output: Path, format: string, dryrun: bool)
    ensures var o := CompressRun(fs, tool, entries, input, output, format, dryrun);
      o.failure.Some? && IsValidation(o.failure.value) <==> CompressArgError(fs, input, output).Some?
    ensures var o := CompressRun(fs, tool, entries, input, output, format, dryrun);
      CompressArgError(fs, input, output).Some? ==>
        o.failure == CompressArgError(fs, input, output) && Shown(o.log) == [] && Spawned(o.log) == []
  {
    var pre := CompressPrelude(fs, output, dryrun);
    var rest := CompressRest(fs, tool, entries, input, output, format, dryrun);
    ThenCommands(pre, rest);
    if pre.failure.None? {
      CompressRestValidation(fs, tool, entries, input, output, format, dryrun);
      CompressRestArgError(fs, tool, entries, input, output, format, dryrun);
    }
  }

  /** Once the output is handled, the rest of the run raises an argument error exactly when a check on the input fails. */
  lemma CompressRestArgError(fs: FileSystem, tool: Path, entries: seq<Path>, input: Path, output: Path, format: string, dryrun: bool)
    requires !IsFile(fs, output)
    ensures var rest := CompressRest(fs, tool, entries, input, output, format, dryrun);
      (rest.failure.Some? && IsValidation(rest.failure.value) <==> CompressArgError(fs, input, output).Some?)
      && (CompressArgError(fs, input, output).Some? ==> rest.failure == CompressArgError(fs, input, output))
  {
    if IsFile(fs, input) {
      var plan := CompressPlan(fs, tool, output, format, input);
      assert CompressRest(fs, tool, entries, input, output, format, dryrun) == LaunchOrFail(plan, dryrun);
    } else if IsDir(fs, input) && NormSuffix(output) != ".chd" {
      CompressWalkFailure(fs, tool, entries, output, format, dryrun);
    }
  }

  /**
   * Each argument error, and what the run has done before raising it: an
   * existing output file is refused before anything else; the other checks
   * come after the output directory has been created (or its `mkdir -p`
   * printed), which is then all the run has done.
   */
  lemma CompressRejects(fs: FileSystem, tool: Path, entries: seq<Path>, input: Path, output: Path, format: string, dryrun: bool)
    ensures var o := CompressRun(fs, tool, entries, input, output, format, dryrun);
      var mkdir: seq<Event> := if NormSuffix(output) != ".chd" then [if dryrun then EchoMakeDirs(output) else MakeDirs(output)] else [];
      && (IsFile(fs, output) ==> o == Outcome([], Some(OutputFileExists(output))))
      && (!IsFile(fs, output) && IsFile(fs, input) && NormSuffix(input) !in DiscImageExts ==>
            o == Outcome(mkdir, Some(BadExtension(input))))
      && (!IsFile(fs, output) && !IsFile(fs, input) && IsDir(fs, input) && NormSuffix(output) == ".chd" ==>
            o == Outcome([], Some(DirectoryToFile(output))))
      && (!IsFile(fs, output) && !IsFile(fs, input) && !IsDir(fs, input) ==>
            o == Outcome(mkdir, Some(InputNotFound(input))))
  {
  }

  /** Once the output is handled, a validation error ends the run before anything is logged. */
  lemma CompressRestValidation(fs: FileSystem, tool: Path, entries: seq<Path>, input: Path, output: Path, format: string, dryrun: bool)
    requires !IsFile(fs, output)
    ensures var rest := CompressRest(fs, tool, entries, input, output, format, dryrun);
      rest.failure.Some? && IsValidation(rest.failure.value) ==> rest.log == []
  {
    if IsFile(fs, input) {
      var plan := CompressPlan(fs, tool, output, format, input);
      assert CompressRest(fs, tool, entries, input, output, format, dryrun) == LaunchOrFail(plan, dryrun);
    } else if IsDir(fs, input) && NormSuffix(output) != ".chd" {
      CompressWalkFailure(fs, tool, entries, output, format, dryrun);
    }
  }

  /** The walk of a directory can only stop on a file that has no name for its target. */
  lemma CompressWalkFailure(fs: FileSystem, tool: Path, entries: seq<Path>, output: Path, format: string, dryrun: bool)
    requires !IsFile(fs, output)
    ensures var w := Each(Matching(fs, entries, DiscImageExts), CompressStep(fs, tool, output, format, dryrun));
      w.failure.Some? ==> w.failure.value.EmptyName?
  {
    var files := Matching(fs, entries, DiscImageExts);
    var step := CompressStep(fs, tool, output, format, dryrun);
    if Each(files, step).failure.Some? {
      EachFailure(files, step);
      var i :| 0 <= i < |files| && step(files[i]).failure == Each(files, step).failure;
      assert files[i] in files;
      CompressStepFailure(fs, tool, output, format, dryrun, files[i]);
    }
  }

  /** The create command `run_compress` shows for one disc image, when the image has a target. */
  lemma CompressBodyCommands(fs: FileSystem, tool: Path, output: Path, format: string, dryrun: bool, input: Path)
    requires !IsFile(fs, output) && NormSuffix(input) in DiscImageExts && CompressTarget(input, output).Some?
    ensures var cmd := CreateCommand(tool, ResolveFormat(format, input, SizeOf(fs, input)), input, CompressTarget(input, output).value);
      var r := CompressFile(fs, tool, output, format, dryrun, input);
      r.failure.None? && Shown(r.log) == [cmd] && Spawned(r.log) == (if dryrun then [] else [cmd])
  {
    var pre := CompressPrelude(fs, output, dryrun);
    var cmd := CreateCommand(tool, ResolveFormat(format, input, SizeOf(fs, input)), input, CompressTarget(input, output).value);
    var body := CompressBody(fs, tool, output, format, dryrun, input);
    assert body == Outcome(Launch(cmd, dryrun), None);
    LaunchCommands(cmd, dryrun);
    ShownAppend(pre.log, body.log);
    NoCommandShowsNothing(pre.log);
  }

  /**
   * A single disc image is compressed by exactly one create command naming
   * the image as input and the target as output, whose format is never
   * "auto" and whose target has the `.chd` extension; it is run unless under
   * dry run.
   */
  lemma CompressSingleFile(fs: FileSystem, tool: Path, entries: seq<Path>, input: Path, output: Path, format: string, dryrun: bool)
    requires IsFile(fs, input) && !IsFile(fs, output)
    requires NormSuffix(input) in DiscImageExts
    requires CompressTarget(input, output).Some?
    ensures var o := CompressRun(fs, tool, entries, input, output, format, dryrun);
      var f := ResolveFormat(format, input, SizeOf(fs, input));
      var target := CompressTarget(input, output).value;
      && o.failure.None?
      && Shown(o.log) == [[PathArg(tool), Word("create" + f), Word("--input"), PathArg(input), Word("--output"), PathArg(target)]]
      && Spawned(o.log) == (if dryrun then [] else Shown(o.log))
      && f != "auto" && NormSuffix(target) == ".chd"
  {
    CompressBodyCommands(fs, tool, output, format, dryrun, input);
    assert CompressRun(fs, tool, entries, input, output, format, dryrun)
        == CompressFile(fs, tool, output, format, dryrun, input);
  }

  /**
   * The target drops the last suffix of the input's stem, so two images that
   * differ only in an inner suffix (`game.disc1.cue`, `game.disc2.cue`) are
   * both compressed to the same file `game.chd` of the output directory.
   */
  lemma CompressTargetCollision(output: Path, dir1: Path, dir2: Path, base: string, inner1: string, inner2: string, ext: string)
    requires NormSuffix(output) != ".chd"
    requires base != "" && SimpleSuffix(inner1) && SimpleSuffix(inner2) && SimpleSuffix(ext)
    ensures var a := Join(dir1, base + inner1 + ext);
      var b := Join(dir2, base + inner2 + ext);
      && CompressTarget(a, output).Some?
      && CompressTarget(a, output) == CompressTarget(b, output)
      && Name(CompressTarget(a, output).value) == base + ".chd"
  {
    StemSuffixOfAppend(base + inner1, ext);
    StemSuffixOfAppend(base + inner2, ext);
    StemSuffixOfAppend(base, inner1);
    StemSuffixOfAppend(base, inner2);
    var a := Join(dir1, base + inner1 + ext);
    var b := Join(dir2, base + inner2 + ext);
    assert Stem(a) == base + inner1 && Stem(b) == base + inner2;
    var ta := CompressTarget(a, output).value;
    var tb := CompressTarget(b, output).value;
    assert Parent(ta) == Parent(tb) && Name(ta) == Name(tb);
    assert ta.names == Parent(ta).names + [Name(ta)];
    assert tb.names == Parent(tb).names + [Name(tb)];
  }

  /**
   * An input whose stem is "." (a file named `..cue`, say) adds no component
   * to the output directory, so `with_suffix` renames the output directory
   * itself: the target is a sibling of the output directory, not a file in it.
   */
  lemma CompressTargetBeside(input: Path, output: Path)
    requires Stem(input) == "." && NormSuffix(output) != ".chd" && Name(output) != ""
    ensures var r := CompressTarget(input, output);
      r.Some? && Parent(r.value) == Parent(output) && Name(r.value) == Stem(output) + ".chd"
  {
  }

  /** `<dir>/..cue` compressed into the directory `out` is written to `out.chd`, beside `out`. */
  lemma CompressDotCueExample(dir: string, out: string)
    requires dir != "" && out != "" && '.' !in out
    ensures CompressTarget(Path("", [dir, "..cue"]), Path("", [out])) == Some(Path("", [out + ".chd"]))
  {
    var input := Path("", [dir, "..cue"]);
    var output := Path("", [out]);
    KnownExtensions();
    NamedFile(input, ".", ".cue");
    PlainName(output);
    CompressTargetBeside(input, output);
    var r := CompressTarget(input, output).value;
    ParentAndName(r);
  }

  /** The one create command a matching file yields (none if it has no target). */
  function PlannedCreate(fs: FileSystem, tool: Path, output: Path, format: string, p: Path): seq<Command> {
    match CompressTarget(p, output)
    case None => []
    case Some(target) => [CreateCommand(tool, ResolveFormat(format, p, SizeOf(fs, p)), p, target)]
  }

  /**
   * A directory is compressed one matching image at a time, in enumeration
   * order: the commands shown are exactly one create command per image,
   * each writing a `.chd` file of the output directory.
   */
  lemma CompressDirectory(fs: FileSystem, tool: Path, entries: seq<Path>, input: Path, output: Path, format: string, dryrun: bool)
    requires IsDir(fs, input) && !IsFile(fs, output) && NormSuffix(output) != ".chd"
    requires forall p :: p in Matching(fs, entries, DiscImageExts) ==> Stem(p) != "."
    ensures var o := CompressRun(fs, tool, entries, input, output, format, dryrun);
      var files := Matching(fs, entries, DiscImageExts);
      && o.failure.None?
      && Shown(o.log) == ConcatMap(files, p => PlannedCreate(fs, tool, output, format, p))
      && (forall p :: p in files ==> |PlannedCreate(fs, tool, output, format, p)| == 1)
      && (forall p :: p in files ==> Parent(CompressTarget(p, output).value) == output)
  {
    var files := Matching(fs, entries, DiscImageExts);
    var step := CompressStep(fs, tool, output, format, dryrun);
    var plan := p => PlannedCreate(fs, tool, output, format, p);
    var pre := CompressPrelude(fs, output, dryrun);
    forall p | p in files
      ensures step(p).failure.None? && Shown(step(p).log) == plan(p)
    {
      StemNonEmpty(Name(p));
      CompressBodyCommands(fs, tool, output, format, dryrun, p);
    }
    EachShown(files, step, plan);
    var walk := Each(files, step);
    assert CompressRun(fs, tool, entries, input, output, format, dryrun) == Outcome(pre.log + walk.log, None);
    ShownAppend(pre.log, walk.log);
    NoCommandShowsNothing(pre.log);
  }

  /** With an explicit format, every image of a directory is compressed in that format. */
  lemma CompressDirectoryFormat(fs: FileSystem, tool: Path, entries: seq<Path>, input: Path, output: Path, format: string, dryrun: bool)
    requires IsDir(fs, input) && format != "auto"
    ensures forall c :: c in Shown(CompressRun(fs, tool, entries, input, output, format, dryrun).log) ==>
              |c| > 1 && c[1] == Word("create" + format)
  {
    var o := CompressRun(fs, tool, entries, input, output, format, dryrun);
    var pre := CompressPrelude(fs, output, dryrun);
    var rest := CompressRest(fs, tool, entries, input, output, format, dryrun);
    var files := Matching(fs, entries, DiscImageExts);
    var step := CompressStep(fs, tool, output, format, dryrun);
    var ok := (e: Event) => e.Echo? ==> |e.command| > 1 && e.command[1] == Word("create" + format);
    forall p | p in files
      ensures forall e :: e in step(p).log ==> ok(e)
    {
      CompressFileFormat(fs, tool, output, format, dryrun, p);
    }
    EachEvents(files, step, ok);
    assert forall e :: e in rest.log ==> ok(e);
    ThenEvents(pre, rest, ok);
    forall c | c in Shown(o.log)
      ensures |c| > 1 && c[1] == Word("create" + format)
    {
      ShownFromEcho(o.log, c);
    }
  }

  /** Every command line a recursive call prints asks for the requested explicit format. */
  lemma CompressFileFormat(fs: FileSystem, tool: Path, output: Path, format: string, dryrun: bool, p: Path)
    requires format != "auto"
    ensures forall e :: e in CompressFile(fs, tool, output, format, dryrun, p).log ==>
              e.Echo? ==> |e.command| > 1 && e.command[1] == Word("create" + format)
  {
    var plan := CompressPlan(fs, tool, output, format, p);
    PlannedEchoes(CompressPrelude(fs, output, dryrun), plan, dryrun);
  }

  /** Under dry run nothing is ever run: chdman is not spawned at all. */
  lemma CompressDryRun(fs: FileSystem, tool: Path, entries: seq<Path>, input: Path, output: Path, format: string)
    ensures Spawned(CompressRun(fs, tool, entries, input, output, format, true).log) == []
  {
    var pre := CompressPrelude(fs, output, true);
    var rest := CompressRest(fs, tool, entries, input, output, format, true);
    var step := CompressStep(fs, tool, output, format, true);
    var files := Matching(fs, entries, DiscImageExts);
    var ok := (e: Event) => !e.Spawn?;
    forall p | p in files
      ensures forall e :: e in step(p).log ==> ok(e)
    {
      var body := CompressBody(fs, tool, output, format, true, p);
      assert forall e :: e in body.log ==> ok(e);
      ThenEvents(CompressPrelude(fs, output, true), body, ok);
    }
    EachEvents(files, step, ok);
    if IsFile(fs, input) {
      var body := CompressBody(fs, tool, output, format, true, input);
      assert forall e :: e in body.log ==> ok(e);
    }
    assert forall e :: e in rest.log ==> ok(e);
    ThenEvents(pre, rest, ok);
    NoSpawnRunsNothing(CompressRun(fs, tool, entries, input, output, format, true).log);
  }

  /**
   * `<game>.cue` is compressed under "auto" as a CD, whatever its size, into
   * `<dir>/<game>.chd` when the output is the directory `<dir>`.
   */
  lemma CompressCueExample(dir: string, game: string, size: nat)
    requires dir != "" && game != "" && '.' !in dir && '.' !in game
    ensures ResolveFormat("auto", Path("", [game + ".cue"]), size) == "cd"
    ensures CompressTarget(Path("", [game + ".cue"]), Path("", [dir])) == Some(Path("", [dir, game + ".chd"]))
  {
    var input := Path("", [game + ".cue"]);
    var output := Path("", [dir]);
    KnownExtensions();
    NamedFile(input, game, ".cue");
    PlainName(output);
    NoDotNoSuffix(game);
    CueTarget(input, output, dir, game);
  }

  /** Into the one-name directory `dir`, an image with a dot-free stem becomes `dir/<stem>.chd`. */
  lemma CueTarget(input: Path, output: Path, dir: string, game: string)
    requires output == Path("", [dir]) && Stem(input) == game && StemOf(game) == game
    requires game != "" && '.' !in game && NormSuffix(output) == ""
    ensures CompressTarget(input, output) == Some(Path("", [dir, game + ".chd"]))
  {
    var r := CompressTarget(input, output);
    assert r.Some? && Parent(r.value) == output && Name(r.value) == game + ".chd";
    InDirectory(r.value, dir, game + ".chd");
  }

  /** `<movie>.iso` of 4.7 GB is compressed under "auto" as a DVD. */
  lemma CompressIsoExample(movie: string)
    requires movie != "" && '.' !in movie
    ensures ResolveFormat("auto", Path("", [movie + ".iso"]), 4700000000) == "dvd"
  {
    KnownExtensions();
    NamedFile(Path("", [movie + ".iso"]), movie, ".iso");
  }
}
