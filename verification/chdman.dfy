/**
 * What the three operations of the helper script share: its constants, the
 * filesystem it observes, the command vectors it builds, the effects it has,
 * the errors it raises, and the directory walk over `rglob('*.*')`.
 *
 * An operation is modelled by the `Outcome` it produces: the ordered log of
 * what it does (directories created, command lines printed, chdman runs,
 * table rows printed) and the exception, if any, that ends it.
 *
 * The line numbers given in the comments of this project refer to
 * `chdman_helper.py`.
 */
module Chdman {
  import opened Wrappers
  import opened Text
  import opened PurePaths

  /** The formats offered on the command line (used only in its help text). */
  const CompressFormats: set<string> := {"auto", "cd", "dvd", "ld", "raw"}
  /** Extensions of the disc images that can be compressed. */
  const DiscImageExts: set<string> := {".cue", ".gdi", ".iso"}
  /** The image extension chdman extracts for each format. */
  const FormatToExt: map<string, string> := map["cd" := ".cue", "dvd" := ".iso", "ld" := ".avi", "raw" := ".raw"]
  /** The metadata tags of `chdman info` that identify the original medium. */
  const TagToFormat: map<string, string> := map["CHT2" := "cd", "DVD" := "dvd"]
  /** Size in bytes under which an image of unknown kind is compressed as a CD. */
  const CdCapacity: nat := 783216000

  /** What a path names on disk: a regular file of some size, or a directory. */
  datatype Entry = File(size: nat) | Directory

  /** The part of the filesystem a run looks at; paths absent from it do not exist. */
  type FileSystem = map<Path, Entry>

  /** Whether the path names an existing regular file. */
  predicate IsFile(fs: FileSystem, p: Path) { p in fs && fs[p].File? }

  /** Whether the path names an existing directory. */
  predicate IsDir(fs: FileSystem, p: Path) { p in fs && fs[p].Directory? }

  /** The size in bytes of a regular file (asked only of regular files). */
  function SizeOf(fs: FileSystem, p: Path): nat {
    if IsFile(fs, p) then fs[p].size else 0
  }

  /** The path's suffix, stripped of whitespace and lower-cased: the extension every decision is based on. */
  function NormSuffix(p: Path): string { Lower(Strip(Suffix(p))) }

  /** An element of a command vector: a literal word or a path. */
  datatype Arg = Word(text: string) | PathArg(path: Path)

  type Command = seq<Arg>

  /** What chdman writes to standard output when run on a command, already split into lines. */
  type Stdout = Command -> seq<string>

  /** The command asking chdman to describe a CHD file: the tool, the verb `info`, and the input. */
  function InfoCommand(tool: Path, input: Path): (r: Command)
    ensures |r| == 4 && r[0] == PathArg(tool) && r[1] == Word("info") && r[2] == Word("--input") && r[3] == PathArg(input)
  {
    [PathArg(tool), Word("info"), Word("--input"), PathArg(input)]
  }

  /** What a run does, in order. */
  datatype Event =
    | MakeDirs(dir: Path)         // `mkdir(parents=True, exist_ok=True)`
    | EchoMakeDirs(dir: Path)     // `mkdir -p` printed instead, under dry run
    | Echo(command: Command)      // the command line printed
    | Spawn(command: Command)     // chdman run on the command
    | Newline                     // the empty line printed after a run
    | HeaderRow(fields: seq<string>)  // tab-separated keys printed by `info`
    | ValueRow(fields: seq<string>)   // tab-separated values printed by `info`

  /** The exceptions that end a run. */
  datatype Error =
    | OutputFileExists(path: Path)  // the output path is an existing regular file
    | BadExtension(path: Path)      // a compress input is not a disc image
    | NotChd(path: Path)            // a decompress or info input is not a .chd file
    | DirectoryToFile(path: Path)   // a directory input paired with a single-file output
    | InputNotFound(path: Path)     // the input is neither a file nor a directory
    | UnknownFormat(path: Path)     // no metadata line of `chdman info` names a known tag
    | EmptyName(path: Path)         // `with_suffix` applied to a path without a name
    | MalformedInfo(path: Path)     // an info line with more than one colon

  /** The errors raised by checking the arguments, before any chdman command. */
  predicate IsValidation(e: Error) {
    e.OutputFileExists? || e.BadExtension? || e.NotChd? || e.DirectoryToFile? || e.InputNotFound?
  }

  datatype Outcome = Outcome(log: seq<Event>, failure: Option<Error>)

  /** A run that has done nothing and failed in nothing. */
  const Done := Outcome([], None)

  /** Run `a`, then `b` unless `a` raised. */
  function Then(a: Outcome, b: Outcome): Outcome {
    if a.failure.Some? then a else Outcome(a.log + b.log, b.failure)
  }

  /** The command lines printed, in order. */
  function Shown(log: seq<Event>): seq<Command> {
    if log == [] then [] else (if log[0].Echo? then [log[0].command] else []) + Shown(log[1..])
  }

  /** The commands chdman was run on, in order. */
  function Spawned(log: seq<Event>): seq<Command> {
    if log == [] then [] else (if log[0].Spawn? then [log[0].command] else []) + Spawned(log[1..])
  }

  lemma {:induction false} ShownAppend(a: seq<Event>, b: seq<Event>)
    ensures Shown(a + b) == Shown(a) + Shown(b)
    ensures Spawned(a + b) == Spawned(a) + Spawned(b)
  {
    if a == [] {
      assert a + b == b;
    } else {
      assert (a + b)[1..] == a[1..] + b && (a + b)[0] == a[0];
      ShownAppend(a[1..], b);
      var h := if a[0].Echo? then [a[0].command] else [];
      var g := if a[0].Spawn? then [a[0].command] else [];
      assert Shown(a + b) == h + (Shown(a[1..]) + Shown(b));
      assert h + (Shown(a[1..]) + Shown(b)) == (h + Shown(a[1..])) + Shown(b);
      assert Spawned(a + b) == g + (Spawned(a[1..]) + Spawned(b));
      assert g + (Spawned(a[1..]) + Spawned(b)) == (g + Spawned(a[1..])) + Spawned(b);
    }
  }

  /** A log that holds neither a printed nor a spawned command. */
  predicate NoCommand(log: seq<Event>) {
    forall i :: 0 <= i < |log| ==> !log[i].Echo? && !log[i].Spawn?
  }

  lemma {:induction false} NoCommandShowsNothing(log: seq<Event>)
    requires NoCommand(log)
    ensures Shown(log) == [] && Spawned(log) == []
  {
    if log != [] {
      NoCommandShowsNothing(log[1..]);
    }
  }

  /** A command line printed, then, unless under dry run, run and followed by an empty line. */
  function Launch(cmd: Command, dryrun: bool): seq<Event> {
    [Echo(cmd)] + (if dryrun then [] else [Spawn(cmd), Newline])
  }

  lemma {:induction false} LaunchCommands(cmd: Command, dryrun: bool)
    ensures Shown(Launch(cmd, dryrun)) == [cmd]
    ensures Spawned(Launch(cmd, dryrun)) == if dryrun then [] else [cmd]
  {
    var tail: seq<Event> := if dryrun then [] else [Spawn(cmd), Newline];
    ShownAppend([Echo(cmd)], tail);
    assert [Echo(cmd)][1..] == [];
    if !dryrun {
      ShownAppend([Spawn(cmd)], [Newline]);
      assert [Spawn(cmd)][1..] == [] && [Newline][1..] == [];
    }
  }

  /** A planned command launched, or the exception that prevents it. */
  function LaunchOrFail(plan: Result<Command, Error>, dryrun: bool): (r: Outcome)
    ensures r.failure.None? <==> plan.Ok?
    ensures plan.Err? ==> r.log == []
    ensures dryrun ==> forall e :: e in r.log ==> e.Echo?
    ensures forall e :: e in r.log && (e.Echo? || e.Spawn?) ==> plan.Ok? && e.command == plan.value
  {
    match plan
    case Err(e) => Outcome([], Some(e))
    case Ok(cmd) => Outcome(Launch(cmd, dryrun), None)
  }

  /**
   * The output handling that opens `run_compress` and `run_decompress`: an
   * output path that is an existing regular file is refused, and one that is
   * to be a directory is created (or, under dry run, the `mkdir -p` printed).
   */
  function OutputPrelude(fs: FileSystem, output: Path, isDirectory: bool, dryrun: bool): (r: Outcome)
    ensures r.failure.Some? <==> IsFile(fs, output)
    ensures NoCommand(r.log)
  {
    if IsFile(fs, output) then Outcome([], Some(OutputFileExists(output)))
    else if isDirectory then Outcome([if dryrun then EchoMakeDirs(output) else MakeDirs(output)], None)
    else Done
  }

  /** The command lines of a log come from its `Echo` events, the runs from its `Spawn` events. */
  lemma {:induction false} ShownFromEcho(log: seq<Event>, c: Command)
    ensures c in Shown(log) ==> Echo(c) in log
    ensures c in Spawned(log) ==> Spawn(c) in log
  {
    if log != [] {
      ShownFromEcho(log[1..], c);
    }
  }

  /** An event property of both parts holds of their sequence. */
  lemma ThenEvents(a: Outcome, b: Outcome, ok: Event -> bool)
    requires forall e :: e in a.log ==> ok(e)
    requires forall e :: e in b.log ==> ok(e)
    ensures forall e :: e in Then(a, b).log ==> ok(e)
  {
  }

  /** After a prelude without commands, every line printed is the planned command. */
  lemma PlannedEchoes(pre: Outcome, plan: Result<Command, Error>, dryrun: bool)
    requires NoCommand(pre.log)
    ensures forall e :: e in Then(pre, LaunchOrFail(plan, dryrun)).log && e.Echo? ==>
              plan.Ok? && e.command == plan.value
  {
    var r := LaunchOrFail(plan, dryrun);
    forall e | e in pre.log
      ensures !e.Echo?
    {
      var i :| 0 <= i < |pre.log| && pre.log[i] == e;
    }
  }

  /**
   * A command run first to ask chdman something (printed and run whatever the
   * dry-run setting), then a planned command launched: both are printed, and
   * the planned one is run unless under dry run.
   */
  lemma ProbeThenLaunch(probe: Command, plan: Result<Command, Error>, dryrun: bool)
    ensures var r := Then(Outcome([Echo(probe), Spawn(probe)], None), LaunchOrFail(plan, dryrun));
      && r.failure == (if plan.Ok? then None else Some(plan.error))
      && Shown(r.log) == [probe] + (if plan.Ok? then [plan.value] else [])
      && Spawned(r.log) == [probe] + (if plan.Ok? && !dryrun then [plan.value] else [])
  {
    var head := [Echo(probe), Spawn(probe)];
    var tail := LaunchOrFail(plan, dryrun);
    ShownAppend(head, tail.log);
    ShownAppend([Echo(probe)], [Spawn(probe)]);
    assert [Echo(probe)] + [Spawn(probe)] == head;
    assert [Echo(probe)][1..] == [] && [Spawn(probe)][1..] == [];
    if plan.Ok? {
      LaunchCommands(plan.value, dryrun);
    }
  }

  /** Under dry run, a probe followed by a planned command runs the probe and nothing else. */
  lemma ProbeDryRun(probe: Command, plan: Result<Command, Error>)
    ensures forall e :: e in Then(Outcome([Echo(probe), Spawn(probe)], None), LaunchOrFail(plan, true)).log ==>
              e.Spawn? ==> e.command == probe
  {
    var tail := LaunchOrFail(plan, true);
    forall e | e in [Echo(probe), Spawn(probe)] + tail.log
      ensures e.Spawn? ==> e.command == probe
    {
      if e !in [Echo(probe), Spawn(probe)] {
        assert e in tail.log;
      }
    }
  }

  /** A first part without commands contributes none to the commands of the sequence. */
  lemma ThenCommands(a: Outcome, b: Outcome)
    requires NoCommand(a.log)
    ensures Shown(Then(a, b).log) == (if a.failure.Some? then [] else Shown(b.log))
    ensures Spawned(Then(a, b).log) == (if a.failure.Some? then [] else Spawned(b.log))
  {
    NoCommandShowsNothing(a.log);
    ShownAppend(a.log, b.log);
  }

  /** A log without `Spawn` events runs nothing. */
  lemma {:induction false} NoSpawnRunsNothing(log: seq<Event>)
    requires forall e :: e in log ==> !e.Spawn?
    ensures Spawned(log) == []
  {
    if log != [] {
      NoSpawnRunsNothing(log[1..]);
    }
  }

  /* ---------------- the directory walk ---------------- */

  /** `rglob('*.*')` yields only names that contain a dot. */
  predicate GlobMatch(p: Path) { '.' in Name(p) }

  /** The walk's filter: a regular file whose extension is one of `exts`. */
  predicate Selected(fs: FileSystem, p: Path, exts: set<string>) {
    GlobMatch(p) && IsFile(fs, p) && NormSuffix(p) in exts
  }

  /** The entries of an enumeration that a walk processes, in enumeration order. */
  function Matching(fs: FileSystem, entries: seq<Path>, exts: set<string>): (r: seq<Path>)
    ensures |r| <= |entries|
    ensures forall p :: p in r <==> p in entries && Selected(fs, p, exts)
  {
    if entries == [] then []
    else (if Selected(fs, entries[0], exts) then [entries[0]] else []) + Matching(fs, entries[1..], exts)
  }

  /** Filtering commutes with concatenation, so the walk keeps enumeration order. */
  lemma {:induction false} MatchingAppend(fs: FileSystem, a: seq<Path>, b: seq<Path>, exts: set<string>)
    ensures Matching(fs, a + b, exts) == Matching(fs, a, exts) + Matching(fs, b, exts)
  {
    if a == [] {
      assert a + b == b;
    } else {
      assert (a + b)[1..] == a[1..] + b && (a + b)[0] == a[0];
      MatchingAppend(fs, a[1..], b, exts);
      var h := if Selected(fs, a[0], exts) then [a[0]] else [];
      assert Matching(fs, a + b, exts) == h + (Matching(fs, a[1..], exts) + Matching(fs, b, exts));
      assert h + (Matching(fs, a[1..], exts) + Matching(fs, b, exts))
          == (h + Matching(fs, a[1..], exts)) + Matching(fs, b, exts);
    }
  }

  /**
   * Every selected entry is processed exactly as often as it is enumerated,
   * and no other entry is processed at all.
   */
  lemma {:induction false} MatchingMultiplicity(fs: FileSystem, entries: seq<Path>, exts: set<string>, p: Path)
    ensures multiset(Matching(fs, entries, exts))[p] == if Selected(fs, p, exts) then multiset(entries)[p] else 0
  {
    if entries != [] {
      MatchingMultiplicity(fs, entries[1..], exts, p);
      assert entries == [entries[0]] + entries[1..];
    }
  }

  /** Runs `step` on each file in turn, stopping at the first exception. */
  function Each(files: seq<Path>, step: Path -> Outcome): Outcome {
    if files == [] then Done else Then(step(files[0]), Each(files[1..], step))
  }

  lemma ThenAssociative(a: Outcome, b: Outcome, c: Outcome)
    ensures Then(Then(a, b), c) == Then(a, Then(b, c))
  {
  }

  lemma {:induction false} EachAppend(xs: seq<Path>, ys: seq<Path>, step: Path -> Outcome)
    ensures Each(xs + ys, step) == Then(Each(xs, step), Each(ys, step))
  {
    if xs == [] {
      assert xs + ys == ys;
    } else {
      assert (xs + ys)[1..] == xs[1..] + ys;
      EachAppend(xs[1..], ys, step);
      ThenAssociative(step(xs[0]), Each(xs[1..], step), Each(ys, step));
    }
  }

  /** A walk fails only with the exception of one of its steps, all earlier steps having succeeded. */
  lemma {:induction false} EachFailure(files: seq<Path>, step: Path -> Outcome)
    requires Each(files, step).failure.Some?
    ensures exists i :: 0 <= i < |files| && step(files[i]).failure == Each(files, step).failure
  {
    if step(files[0]).failure.None? {
      EachFailure(files[1..], step);
      var i :| 0 <= i < |files[1..]| && step(files[1..][i]).failure == Each(files[1..], step).failure;
      assert step(files[i + 1]).failure == Each(files, step).failure;
    } else {
      assert step(files[0]).failure == Each(files, step).failure;
    }
  }

  /** A walk stops on a validation error only when one of its steps can. */
  lemma {:induction false} EachNoValidation(files: seq<Path>, step: Path -> Outcome)
    requires forall p :: p in files ==> step(p).failure.Some? ==> !IsValidation(step(p).failure.value)
    ensures Each(files, step).failure.Some? ==> !IsValidation(Each(files, step).failure.value)
  {
    if files != [] {
      assert files[0] in files;
      EachNoValidation(files[1..], step);
    }
  }

  /** An event property that holds of every step's log holds of the whole walk's log. */
  lemma {:induction false} EachEvents(files: seq<Path>, step: Path -> Outcome, ok: Event -> bool)
    requires forall p :: p in files ==> forall e :: e in step(p).log ==> ok(e)
    ensures forall e :: e in Each(files, step).log ==> ok(e)
  {
    if files != [] {
      EachEvents(files[1..], step, ok);
    }
  }

  /** `ConcatMap(files, f)` is `f(files[0]) + f(files[1]) + ...`. */
  function ConcatMap<T>(files: seq<Path>, f: Path -> seq<T>): seq<T> {
    if files == [] then [] else f(files[0]) + ConcatMap(files[1..], f)
  }

  /** Steps that contribute nothing contribute nothing together. */
  lemma {:induction false} EmptyConcat<T>(files: seq<Path>, f: Path -> seq<T>)
    requires forall p :: p in files ==> f(p) == []
    ensures ConcatMap(files, f) == []
  {
    if files != [] {
      assert files[0] in files;
      assert forall q :: q in files[1..] ==> q in files;
      EmptyConcat(files[1..], f);
    }
  }

  /**
   * When no step fails, the walk succeeds and prints, in order, the commands
   * each step prints.
   */
  lemma {:induction false} EachShown(files: seq<Path>, step: Path -> Outcome, cmds: Path -> seq<Command>)
    requires forall p :: p in files ==> step(p).failure.None? && Shown(step(p).log) == cmds(p)
    ensures Each(files, step).failure.None?
    ensures Shown(Each(files, step).log) == ConcatMap(files, cmds)
  {
    if files != [] {
      var p := files[0];
      assert p in files;
      assert step(p).failure.None? && Shown(step(p).log) == cmds(p);
      assert forall q :: q in files[1..] ==> q in files;
      EachShown(files[1..], step, cmds);
      assert Each(files, step) == Outcome(step(p).log + Each(files[1..], step).log, Each(files[1..], step).failure);
      ShownAppend(step(p).log, Each(files[1..], step).log);
      assert ConcatMap(files, cmds) == cmds(p) + ConcatMap(files[1..], cmds);
    }
  }

  /** One more enumerated entry is one more file of the walk, when it passes the filter. */
  lemma MatchingSnoc(fs: FileSystem, xs: seq<Path>, p: Path, exts: set<string>)
    ensures Matching(fs, xs + [p], exts) == Matching(fs, xs, exts) + (if Selected(fs, p, exts) then [p] else [])
  {
    MatchingAppend(fs, xs, [p], exts);
    assert [p][1..] == [];
  }

  /** A walk over one file is that file's step. */
  lemma EachOne(p: Path, step: Path -> Outcome)
    ensures Each([p], step) == step(p)
  {
    assert [p][1..] == [];
    assert step(p).log + [] == step(p).log;
  }

  /** One more enumerated entry adds one more step to the walk, when it passes the filter. */
  lemma EachMatchingSnoc(fs: FileSystem, entries: seq<Path>, i: nat, exts: set<string>, step: Path -> Outcome)
    requires i < |entries|
    ensures Each(Matching(fs, entries[..i + 1], exts), step)
         == Then(Each(Matching(fs, entries[..i], exts), step), if Selected(fs, entries[i], exts) then step(entries[i]) else Done)
  {
    var p := entries[i];
    var done := Matching(fs, entries[..i], exts);
    assert entries[..i + 1] == entries[..i] + [p];
    MatchingSnoc(fs, entries[..i], p, exts);
    if Selected(fs, p, exts) {
      EachAppend(done, [p], step);
      EachOne(p, step);
    } else {
      assert done + [] == done;
    }
  }

  /** Once the walk has raised, the entries enumerated afterwards change nothing. */
  lemma EachMatchingStops(fs: FileSystem, entries: seq<Path>, i: nat, exts: set<string>, step: Path -> Outcome)
    requires i <= |entries|
    requires Each(Matching(fs, entries[..i], exts), step).failure.Some?
    ensures Each(Matching(fs, entries, exts), step) == Each(Matching(fs, entries[..i], exts), step)
  {
    assert entries[..i] + entries[i..] == entries;
    MatchingAppend(fs, entries[..i], entries[i..], exts);
    EachAppend(Matching(fs, entries[..i], exts), Matching(fs, entries[i..], exts), step);
  }

  /**
   * The directory walk of `run_compress` and `run_decompress`: every entry
   * of the enumeration that passes the filter is handed to `step`, in order,
   * until one of them raises.
   */
  method Walk(fs: FileSystem, entries: seq<Path>, exts: set<string>, step: Path -> Outcome) returns (o: Outcome)
    ensures o == Each(Matching(fs, entries, exts), step)
  {
    o := Done;
    var i := 0;
    while i < |entries| && o.failure.None?
      invariant 0 <= i <= |entries|
      invariant o == Each(Matching(fs, entries[..i], exts), step)
    {
      var p := entries[i];
      EachMatchingSnoc(fs, entries, i, exts, step);
      if Selected(fs, p, exts) {
        var r := step(p);
        o := Outcome(o.log + r.log, r.failure);
      }
      i := i + 1;
    }
    if i < |entries| {
      EachMatchingStops(fs, entries, i, exts, step);
    } else {
      assert entries[..i] == entries;
    }
  }

  /* ---------------- extensions ---------------- */

  /** A dot followed by lower-case letters, as every extension the script names is. */
  predicate LowerExtension(s: string) {
    |s| >= 2 && s[0] == '.' && forall i :: 1 <= i < |s| ==> 'a' <= s[i] <= 'z'
  }

  /** The extensions the script gives to the files it names. */
  lemma KnownExtensions()
    ensures LowerExtension(".chd") && LowerExtension(".cue") && LowerExtension(".iso") && LowerExtension(".bin")
  {
    assert LowerExtension(".chd");
    assert LowerExtension(".cue");
    assert LowerExtension(".iso");
    assert LowerExtension(".bin");
  }

  lemma LowerKeepsLowercase(s: string)
    requires forall i :: 0 <= i < |s| ==> !('A' <= s[i] <= 'Z')
    ensures Lower(s) == s
  {
  }

  /** The script's own extensions are already in normal form. */
  lemma NormalExtension(s: string)
    requires LowerExtension(s)
    ensures SimpleSuffix(s) && Lower(Strip(s)) == s
  {
    assert !IsSpace(s[0]) && !IsSpace(s[|s| - 1]);
    assert Strip(s) == s;
    LowerKeepsLowercase(s);
  }

  /** A file named `<stem><ext>` with a known extension has that stem and that extension. */
  lemma NamedFile(p: Path, stem: string, ext: string)
    requires Name(p) == stem + ext && stem != "" && LowerExtension(ext)
    ensures Stem(p) == stem && NormSuffix(p) == ext
  {
    NormalExtension(ext);
    StemSuffixOfAppend(stem, ext);
  }

  /** A name without a dot has no extension and is its own stem. */
  lemma PlainName(p: Path)
    requires '.' !in Name(p)
    ensures NormSuffix(p) == "" && Stem(p) == Name(p)
  {
    NoDotNoSuffix(Name(p));
    assert Strip("") == "" && Lower("") == "";
  }

  /** A path given a known suffix by `with_suffix` has exactly that extension. */
  lemma {:induction false} NormSuffixWithSuffix(p: Path, s: string)
    requires LowerExtension(s)
    ensures WithSuffix(p, s).Some? ==> NormSuffix(WithSuffix(p, s).value) == s
  {
    if Name(p) != "" {
      assert SimpleSuffix(s) by {
        NormalExtension(s);
      }
      WithSuffixSuffix(p, s);
      NormSuffixOf(WithSuffix(p, s).value, s);
    }
  }

  lemma NormSuffixOf(q: Path, s: string)
    requires LowerExtension(s) && Suffix(q) == s
    ensures NormSuffix(q) == s
  {
    NormalExtension(s);
  }
}
