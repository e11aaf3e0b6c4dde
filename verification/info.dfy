/**
 * `run_info`: `chdman info` on one CHD file, or on every CHD file under a
 * directory, turned into a tab-separated table. Every line of chdman's
 * report that holds ": " becomes a row; the row's fields are the pieces
 * between colons, stripped. The first field of every row gives the header
 * line and the second the value line. Only the first file of a directory
 * prints the header, so the output is one table with one line per file.
 */
module Info {
  import opened Wrappers
  import opened Text
  import opened PurePaths
  import opened Chdman

  /* ---------------- parsing chdman's report ---------------- */

  /** The info command, with `--verbose` appended when asked for. */
  function InfoCommandFor(tool: Path, input: Path, verbose: bool): (r: Command)
    ensures |r| == (if verbose then 5 else 4)
    ensures r[..4] == InfoCommand(tool, input)
    ensures verbose ==> r[4] == Word("--verbose")
  {
    InfoCommand(tool, input) + (if verbose then [Word("--verbose")] else [])
  }

  /** The fields of a report line: its pieces between colons, each stripped of whitespace. */
  function Fields(line: string): (r: seq<string>)
    ensures |r| == Count(line, ':') + 1
  {
    var parts := Split(line, ":");
    SplitCharCount(line, ':');
    seq(|parts|, i requires 0 <= i < |parts| => Strip(parts[i]))
  }

  /** Every field of a row is stripped of surrounding whitespace. */
  lemma FieldsStripped(line: string)
    ensures forall i :: 0 <= i < |Fields(line)| ==> IsStripped(Fields(line)[i])
  {
    var parts := Split(line, ":");
    forall i | 0 <= i < |Fields(line)|
      ensures IsStripped(Fields(line)[i])
    {
      StripSpec(parts[i]);
    }
  }

  /** The lines of the report that `run_info` keeps: those holding ": ". */
  predicate IsInfoLine(line: string) { Contains(line, ": ") }

  /** A kept line holds a colon, so its row has at least two fields. */
  lemma InfoLineHasPair(line: string)
    requires IsInfoLine(line)
    ensures |Fields(line)| >= 2
  {
    var i :| 0 <= i <= |line| && OccursAt(line, ": ", i);
    assert line[i] == (": ")[0];
    assert line[i..i + 1] == [line[i]];
    assert OccursAt(line, ":", i);
    SplitHasSecond(line, ":");
  }

  /** The table `out` of `run_info`: one row per kept line, in the report's order. */
  function InfoRows(lines: seq<string>): (rows: seq<seq<string>>)
    ensures |rows| <= |lines|
    ensures forall i :: 0 <= i < |rows| ==> |rows[i]| >= 2
    ensures forall l :: l in lines && IsInfoLine(l) ==> Fields(l) in rows
    ensures forall r :: r in rows ==> exists l :: l in lines && IsInfoLine(l) && r == Fields(l)
  {
    if lines == [] then []
    else
      var rest := InfoRows(lines[1..]);
      if IsInfoLine(lines[0]) then
        InfoLineHasPair(lines[0]);
        assert forall l :: l in lines[1..] ==> l in lines;
        [Fields(lines[0])] + rest
      else
        assert forall l :: l in lines && l != lines[0] ==> l in lines[1..];
        rest
  }

  /** Filtering the report commutes with concatenation: rows keep the order of their lines. */
  lemma {:induction false} InfoRowsAppend(a: seq<string>, b: seq<string>)
    ensures InfoRows(a + b) == InfoRows(a) + InfoRows(b)
  {
    if a == [] {
      assert a + b == b;
    } else {
      assert (a + b)[1..] == a[1..] + b;
      InfoRowsAppend(a[1..], b);
    }
  }

  /** A report splits into a table with no error only when every row is a key and a value. */
  predicate WellFormed(rows: seq<seq<string>>) {
    forall i :: 0 <= i < |rows| ==> |rows[i]| == 2
  }

  /** Column `j` of the table: the keys for 0, the values for 1. */
  function Column(rows: seq<seq<string>>, j: nat): (r: seq<string>)
    requires forall i :: 0 <= i < |rows| ==> j < |rows[i]|
    ensures |r| == |rows|
  {
    seq(|rows|, i requires 0 <= i < |rows| => rows[i][j])
  }

  /** The header line and the value line together give back the table. */
  lemma RowsFromColumns(rows: seq<seq<string>>)
    requires WellFormed(rows)
    ensures forall i :: 0 <= i < |rows| ==> rows[i] == [Column(rows, 0)[i], Column(rows, 1)[i]]
  {
    forall i | 0 <= i < |rows|
      ensures rows[i] == [Column(rows, 0)[i], Column(rows, 1)[i]]
    {
      assert |rows[i]| == 2;
    }
  }

  /** A string without `sep` splits into itself alone. */
  lemma SplitAbsent(s: string, sep: string)
    requires sep != [] && !Contains(s, sep)
    ensures Split(s, sep) == [s]
  {
    SplitHasSecond(s, sep);
    SplitJoin(s, sep);
  }

  /** A string without the character `c` has no occurrence of it. */
  lemma CharAbsent(s: string, c: char)
    requires c !in s
    ensures !Contains(s, [c])
  {
    forall i | 0 <= i <= |s|
      ensures !OccursAt(s, [c], i)
    {
      if i + 1 <= |s| {
        assert s[i..i + 1] == [s[i]];
      }
    }
  }

  /** A line with exactly one colon splits into what comes before it and what comes after. */
  lemma KeyValueSplit(key: string, value: string)
    requires ':' !in key && ':' !in value
    ensures Split(key + ":" + value, ":") == [key, value]
  {
    var line := key + ":" + value;
    assert OccursAt(line, ":", |key|) by {
      assert line[|key|..|key| + 1] == ":";
    }
    assert forall k :: 0 <= k < |key| ==> !OccursAt(line, ":", k) by {
      forall k | 0 <= k < |key|
        ensures !OccursAt(line, ":", k)
      {
        assert line[k] == key[k];
      }
    }
    SplitAtFirst(line, ":", |key|);
    assert line[..|key|] == key && line[|key| + 1..] == value;
    CharAbsent(value, ':');
    SplitAbsent(value, ":");
  }

  /** A line with exactly one colon gives its key and its value, stripped. */
  lemma KeyValueFields(key: string, value: string)
    requires ':' !in key && ':' !in value
    ensures Fields(key + ":" + value) == [Strip(key), Strip(value)]
  {
    KeyValueSplit(key, value);
  }

  /**
   * A report line `key: value` without further colons is kept as the row
   * `[key, value]`, stripped; the blank after the colon is not part of the value.
   */
  lemma KeyValueLine(key: string, value: string)
    requires ':' !in key && ':' !in value
    ensures InfoRows([key + ": " + value]) == [[Strip(key), Strip(value)]]
  {
    var line := key + ": " + value;
    assert line == key + ":" + (" " + value);
    assert OccursAt(line, ": ", |key|) by {
      assert line[|key|..|key| + 2] == ": ";
    }
    KeyValueFields(key, " " + value);
    assert IsSpace(' ');
    assert TrimStart(" " + value) == TrimStart(value) by {
      assert (" " + value)[1..] == value;
    }
    assert InfoRows([line]) == [Fields(line)] + InfoRows([line][1..]);
  }

  /* ---------------- one file ---------------- */

  /**
   * `run_info` on a regular file (lines 179-192). Under dry run the command
   * line is printed and chdman is not run; otherwise chdman is run, without
   * the command line being printed, and the header line (when asked for)
   * and the value line are printed. A row that is not exactly a key and a
   * value makes the unpacking into key and value raise before either line
   * is printed.
   */
  function InfoBody(tool: Path, stdout: Stdout, verbose: bool, printHeader: bool, dryrun: bool, input: Path): Outcome {
    if NormSuffix(input) != ".chd" then Outcome([], Some(NotChd(input)))
    else
      var cmd := InfoCommandFor(tool, input, verbose);
      if dryrun then Outcome([Echo(cmd)], None)
      else
        var rows := InfoRows(stdout(cmd));
        if !WellFormed(rows) then Outcome([Spawn(cmd)], Some(MalformedInfo(input)))
        else
          Outcome([Spawn(cmd)] + (if printHeader then [HeaderRow(Column(rows, 0))] else []) + [ValueRow(Column(rows, 1))], None)
  }

  /** The header lines printed, in order. */
  function Headers(log: seq<Event>): seq<seq<string>> {
    if log == [] then [] else (if log[0].HeaderRow? then [log[0].fields] else []) + Headers(log[1..])
  }

  /** The value lines printed, in order. */
  function Values(log: seq<Event>): seq<seq<string>> {
    if log == [] then [] else (if log[0].ValueRow? then [log[0].fields] else []) + Values(log[1..])
  }

  lemma {:induction false} TableAppend(a: seq<Event>, b: seq<Event>)
    ensures Headers(a + b) == Headers(a) + Headers(b)
    ensures Values(a + b) == Values(a) + Values(b)
  {
    if a == [] {
      assert a + b == b;
    } else {
      assert (a + b)[1..] == a[1..] + b && (a + b)[0] == a[0];
      TableAppend(a[1..], b);
      var h := if a[0].HeaderRow? then [a[0].fields] else [];
      var v := if a[0].ValueRow? then [a[0].fields] else [];
      assert Headers(a + b) == h + (Headers(a[1..]) + Headers(b));
      assert h + (Headers(a[1..]) + Headers(b)) == (h + Headers(a[1..])) + Headers(b);
      assert Values(a + b) == v + (Values(a[1..]) + Values(b));
      assert v + (Values(a[1..]) + Values(b)) == (v + Values(a[1..])) + Values(b);
    }
  }

  /** What one CHD file contributes: the run of chdman, then at most one header and one value line. */
  lemma InfoBodyTable(tool: Path, stdout: Stdout, verbose: bool, printHeader: bool, input: Path)
    requires NormSuffix(input) == ".chd"
    ensures var cmd := InfoCommandFor(tool, input, verbose);
      var rows := InfoRows(stdout(cmd));
      var r := InfoBody(tool, stdout, verbose, printHeader, false, input);
      && r.failure == (if WellFormed(rows) then None else Some(MalformedInfo(input)))
      && Shown(r.log) == [] && Spawned(r.log) == [cmd]
      && Headers(r.log) == (if WellFormed(rows) && printHeader then [Column(rows, 0)] else [])
      && Values(r.log) == (if WellFormed(rows) then [Column(rows, 1)] else [])
  {
    var cmd := InfoCommandFor(tool, input, verbose);
    var rows := InfoRows(stdout(cmd));
    var r := InfoBody(tool, stdout, verbose, printHeader, false, input);
    if WellFormed(rows) {
      var header := if printHeader then [Column(rows, 0)] else [];
      var tail := (if printHeader then [HeaderRow(Column(rows, 0))] else []) + [ValueRow(Column(rows, 1))];
      assert r.log == [Spawn(cmd)] + tail;
      TableTail(header, Column(rows, 1));
      ShownAppend([Spawn(cmd)], tail);
      TableAppend([Spawn(cmd)], tail);
    } else {
      assert r.log == [Spawn(cmd)];
    }
  }

  /** The table lines of one file print no command, and are the lines they hold. */
  lemma TableTail(header: seq<seq<string>>, v: seq<string>)
    requires |header| <= 1
    ensures var tail := (if header == [] then [] else [HeaderRow(header[0])]) + [ValueRow(v)];
      && Shown(tail) == [] && Spawned(tail) == [] && Headers(tail) == header && Values(tail) == [v]
  {
    var last := [ValueRow(v)];
    assert last[1..] == [];
    assert Shown(last) == Shown(last[1..]) == [];
    assert Spawned(last) == Spawned(last[1..]) == [];
    assert Headers(last) == Headers(last[1..]) == [];
    assert Values(last) == [v] + Values(last[1..]) == [v];
    if header != [] {
      var tail := [HeaderRow(header[0])] + last;
      assert tail[1..] == last && tail[0] == HeaderRow(header[0]);
      assert header == [header[0]];
    } else {
      assert [] + last == last;
    }
  }

  lemma InfoBodyDryRun(tool: Path, stdout: Stdout, verbose: bool, printHeader: bool, input: Path)
    ensures var r := InfoBody(tool, stdout, verbose, printHeader, true, input);
      && r.failure == (if NormSuffix(input) == ".chd" then None else Some(NotChd(input)))
      && Shown(r.log) == (if NormSuffix(input) == ".chd" then [InfoCommandFor(tool, input, verbose)] else [])
      && Spawned(r.log) == [] && Headers(r.log) == [] && Values(r.log) == []
  {
    if NormSuffix(input) == ".chd" {
      var cmd := InfoCommandFor(tool, input, verbose);
      var log := [Echo(cmd)];
      assert log[1..] == [];
      assert Shown(log) == [cmd] && Spawned(log) == [] && Headers(log) == [] && Values(log) == [];
    }
  }

  /* ---------------- a directory ---------------- */

  /**
   * A walk whose steps are told whether to print the header: `count` is the
   * number of files already handed over, and only a step handed over while
   * it is still 0 is asked for the header.
   */
  function Counted(files: seq<Path>, count: nat, step: (Path, bool) -> Outcome): Outcome
    decreases |files|
  {
    if files == [] then Done
    else Then(step(files[0], count == 0), Counted(files[1..], count + 1, step))
  }

  lemma {:induction false} CountedAppend(xs: seq<Path>, ys: seq<Path>, count: nat, step: (Path, bool) -> Outcome)
    ensures Counted(xs + ys, count, step) == Then(Counted(xs, count, step), Counted(ys, count + |xs|, step))
    decreases |xs|
  {
    if xs == [] {
      assert xs + ys == ys;
      assert [] + Counted(ys, count, step).log == Counted(ys, count, step).log;
    } else {
      assert (xs + ys)[1..] == xs[1..] + ys;
      CountedAppend(xs[1..], ys, count + 1, step);
      ThenAssociative(step(xs[0], count == 0), Counted(xs[1..], count + 1, step), Counted(ys, count + |xs|, step));
    }
  }

  /** A counted walk over one file is that file's step. */
  lemma CountedOne(p: Path, count: nat, step: (Path, bool) -> Outcome)
    ensures Counted([p], count, step) == step(p, count == 0)
  {
    var r := step(p, count == 0);
    assert [p][1..] == [];
    assert r.log + [] == r.log;
  }

  /** One more enumerated entry adds one more step to the counted walk, when it passes the filter. */
  lemma CountedMatchingSnoc(fs: FileSystem, entries: seq<Path>, i: nat, exts: set<string>, step: (Path, bool) -> Outcome)
    requires i < |entries|
    ensures var done := Matching(fs, entries[..i], exts);
      var p := entries[i];
      && Counted(Matching(fs, entries[..i + 1], exts), 0, step)
         == Then(Counted(done, 0, step), if Selected(fs, p, exts) then step(p, |done| == 0) else Done)
      && |Matching(fs, entries[..i + 1], exts)| == |done| + (if Selected(fs, p, exts) then 1 else 0)
  {
    var done := Matching(fs, entries[..i], exts);
    var p := entries[i];
    assert entries[..i + 1] == entries[..i] + [p];
    MatchingSnoc(fs, entries[..i], p, exts);
    CountedAppend(done, if Selected(fs, p, exts) then [p] else [], 0, step);
    if Selected(fs, p, exts) {
      CountedOne(p, |done|, step);
    }
  }

  /** Once the counted walk has raised, the entries enumerated afterwards change nothing. */
  lemma CountedMatchingStops(fs: FileSystem, entries: seq<Path>, i: nat, exts: set<string>, step: (Path, bool) -> Outcome)
    requires i <= |entries|
    requires Counted(Matching(fs, entries[..i], exts), 0, step).failure.Some?
    ensures Counted(Matching(fs, entries, exts), 0, step) == Counted(Matching(fs, entries[..i], exts), 0, step)
  {
    assert entries[..i] + entries[i..] == entries;
    MatchingAppend(fs, entries[..i], entries[i..], exts);
    CountedAppend(Matching(fs, entries[..i], exts), Matching(fs, entries[i..], exts), 0, step);
  }

  /**
   * What a counted walk prints and runs, from what each of its steps does:
   * the steps' commands and value lines in order, and the header only of a
   * first step asked for it.
   */
  lemma {:induction false} CountedTable(files: seq<Path>, count: nat, step: (Path, bool) -> Outcome,
                                        shown: Path -> seq<Command>, spawned: Path -> seq<Command>,
                                        header: Path -> seq<seq<string>>, values: Path -> seq<seq<string>>)
    requires forall p, h :: p in files ==>
               && step(p, h).failure.None?
               && Shown(step(p, h).log) == shown(p) && Spawned(step(p, h).log) == spawned(p)
               && Headers(step(p, h).log) == (if h then header(p) else [])
               && Values(step(p, h).log) == values(p)
    ensures var o := Counted(files, count, step);
      && o.failure.None?
      && Shown(o.log) == ConcatMap(files, shown)
      && Spawned(o.log) == ConcatMap(files, spawned)
      && Headers(o.log) == (if files == [] || count > 0 then [] else header(files[0]))
      && Values(o.log) == ConcatMap(files, values)
    decreases |files|
  {
    if files != [] {
      var p := files[0];
      var head := step(p, count == 0);
      var rest := Counted(files[1..], count + 1, step);
      assert p in files;
      assert head.failure.None? && Shown(head.log) == shown(p) && Spawned(head.log) == spawned(p);
      assert Headers(head.log) == (if count == 0 then header(p) else []) && Values(head.log) == values(p);
      assert forall q :: q in files[1..] ==> q in files;
      CountedTable(files[1..], count + 1, step, shown, spawned, header, values);
      assert Counted(files, count, step) == Outcome(head.log + rest.log, rest.failure);
      ShownAppend(head.log, rest.log);
      TableAppend(head.log, rest.log);
      assert ConcatMap(files, shown) == shown(p) + ConcatMap(files[1..], shown);
      assert ConcatMap(files, spawned) == spawned(p) + ConcatMap(files[1..], spawned);
      assert ConcatMap(files, values) == values(p) + ConcatMap(files[1..], values);
    }
  }

  /** `run_info` as the directory loop calls it on one file (lines 199-205). */
  function InfoStep(tool: Path, stdout: Stdout, verbose: bool, dryrun: bool): (Path, bool) -> Outcome {
    (p, printHeader) => InfoBody(tool, stdout, verbose, printHeader, dryrun, p)
  }

  /** The CHD files of a walk handed to `run_info` in turn (lines 196-206). */
  function InfoEach(tool: Path, stdout: Stdout, verbose: bool, dryrun: bool, files: seq<Path>): Outcome {
    Counted(files, 0, InfoStep(tool, stdout, verbose, dryrun))
  }

  /**
   * The directory loop of `run_info`, with its counter (lines 196-206):
   * every entry of the enumeration that passes the filter is handed to
   * `step`, the header asked for only while no file has been handed over,
   * until one of them raises.
   */
  method CountedWalk(fs: FileSystem, entries: seq<Path>, exts: set<string>, step: (Path, bool) -> Outcome)
    returns (o: Outcome)
    ensures o == Counted(Matching(fs, entries, exts), 0, step)
  {
    o := Done;
    var count := 0;
    var i := 0;
    while i < |entries| && o.failure.None?
      invariant 0 <= i <= |entries|
      invariant count == |Matching(fs, entries[..i], exts)|
      invariant o == Counted(Matching(fs, entries[..i], exts), 0, step)
    {
      var p := entries[i];
      CountedMatchingSnoc(fs, entries, i, exts, step);
      if Selected(fs, p, exts) {
        var r := step(p, count == 0);
        o := Outcome(o.log + r.log, r.failure);
        count := count + 1;
      }
      i := i + 1;
    }
    if i < |entries| {
      CountedMatchingStops(fs, entries, i, exts, step);
    } else {
      assert entries[..i] == entries;
    }
  }

  /** All of `run_info`, called as the command line calls it (header asked for); `entries` is what `input.rglob('*.*')` enumerates. */
  function InfoRun(fs: FileSystem, tool: Path, entries: seq<Path>, input: Path, stdout: Stdout, verbose: bool, dryrun: bool): Outcome {
    if IsFile(fs, input) then InfoBody(tool, stdout, verbose, true, dryrun, input)
    else if IsDir(fs, input) then InfoEach(tool, stdout, verbose, dryrun, Matching(fs, entries, {".chd"}))
    else Outcome([], Some(InputNotFound(input)))
  }

  method RunInfo(fs: FileSystem, tool: Path, entries: seq<Path>, input: Path, stdout: Stdout, verbose: bool, dryrun: bool)
    returns (o: Outcome)
    ensures o == InfoRun(fs, tool, entries, input, stdout, verbose, dryrun)
  {
    if IsFile(fs, input) {
      o := InfoBody(tool, stdout, verbose, true, dryrun, input);
    } else if IsDir(fs, input) {
      o := CountedWalk(fs, entries, {".chd"}, InfoStep(tool, stdout, verbose, dryrun));
    } else {
      o := Outcome([], Some(InputNotFound(input)));
    }
  }

  /* ---------------- properties of the counted walk ---------------- */

  /** Once the counter has moved past 0, a step asked for no header adds none. */
  lemma {:induction false} CountedNoHeader(files: seq<Path>, count: nat, step: (Path, bool) -> Outcome)
    requires count > 0
    requires forall p :: p in files ==> Headers(step(p, false).log) == []
    ensures Headers(Counted(files, count, step).log) == []
    decreases |files|
  {
    if files != [] {
      assert files[0] in files;
      assert forall q :: q in files[1..] ==> q in files;
      CountedNoHeader(files[1..], count + 1, step);
      TableAppend(step(files[0], false).log, Counted(files[1..], count + 1, step).log);
    }
  }

  /** A counted walk raises only what one of its steps raises. */
  lemma {:induction false} CountedFailure(files: seq<Path>, count: nat, step: (Path, bool) -> Outcome, bad: Error -> bool)
    requires forall p, h :: p in files && step(p, h).failure.Some? ==> !bad(step(p, h).failure.value)
    ensures Counted(files, count, step).failure.Some? ==> !bad(Counted(files, count, step).failure.value)
    decreases |files|
  {
    if files != [] {
      assert files[0] in files;
      assert forall q :: q in files[1..] ==> q in files;
      CountedFailure(files[1..], count + 1, step, bad);
    }
  }

  /* ---------------- properties of `run_info` ---------------- */

  /** A file asked for no header prints none. */
  lemma InfoBodyNoHeader(tool: Path, stdout: Stdout, verbose: bool, dryrun: bool, input: Path)
    ensures Headers(InfoBody(tool, stdout, verbose, false, dryrun, input).log) == []
  {
    if NormSuffix(input) == ".chd" && !dryrun {
      InfoBodyTable(tool, stdout, verbose, false, input);
    }
  }

  /** The header a file prints when asked for one: its own keys, if any. */
  lemma InfoFirstHeader(tool: Path, stdout: Stdout, verbose: bool, dryrun: bool, input: Path)
    ensures var h := Headers(InfoBody(tool, stdout, verbose, true, dryrun, input).log);
      h == [] || h == [Column(InfoRows(stdout(InfoCommandFor(tool, input, verbose))), 0)]
  {
    if NormSuffix(input) == ".chd" && !dryrun {
      InfoBodyTable(tool, stdout, verbose, true, input);
    }
  }

  /** The files after the first of a walk print no header. */
  lemma InfoEachTailNoHeader(tool: Path, stdout: Stdout, verbose: bool, dryrun: bool, files: seq<Path>)
    ensures Headers(Counted(files, 1, InfoStep(tool, stdout, verbose, dryrun)).log) == []
  {
    var step := InfoStep(tool, stdout, verbose, dryrun);
    forall p | p in files
      ensures Headers(step(p, false).log) == []
    {
      InfoBodyNoHeader(tool, stdout, verbose, dryrun, p);
    }
    CountedNoHeader(files, 1, step);
  }

  /**
   * However a run ends, it prints at most one header line, and only the
   * keys of the input file or of the first CHD file of the directory: the
   * output is a single table.
   */
  lemma InfoHeaderOnce(fs: FileSystem, tool: Path, entries: seq<Path>, input: Path, stdout: Stdout, verbose: bool, dryrun: bool)
    ensures var h := Headers(InfoRun(fs, tool, entries, input, stdout, verbose, dryrun).log);
      var files := Matching(fs, entries, {".chd"});
      h == [] ||
      (IsFile(fs, input) && h == [Column(InfoRows(stdout(InfoCommandFor(tool, input, verbose))), 0)]) ||
      (!IsFile(fs, input) && files != [] && h == [Column(InfoRows(stdout(InfoCommandFor(tool, files[0], verbose))), 0)])
  {
    var files := Matching(fs, entries, {".chd"});
    if IsFile(fs, input) {
      InfoFirstHeader(tool, stdout, verbose, dryrun, input);
    } else if IsDir(fs, input) && files != [] {
      var step := InfoStep(tool, stdout, verbose, dryrun);
      var head := step(files[0], true);
      var rest := Counted(files[1..], 1, step);
      assert InfoEach(tool, stdout, verbose, dryrun, files) == Then(head, rest);
      InfoFirstHeader(tool, stdout, verbose, dryrun, files[0]);
      InfoEachTailNoHeader(tool, stdout, verbose, dryrun, files[1..]);
      TableAppend(head.log, rest.log);
    }
  }

  /** The files of a directory walk are CHD files. */
  lemma MatchingChd(fs: FileSystem, entries: seq<Path>)
    ensures forall p :: p in Matching(fs, entries, {".chd"}) ==> NormSuffix(p) == ".chd"
  {
    forall p | p in Matching(fs, entries, {".chd"})
      ensures NormSuffix(p) == ".chd"
    {
      assert NormSuffix(p) in {".chd"};
    }
  }

  /** The walk over well-formed CHD files. */
  lemma InfoEachTable(tool: Path, stdout: Stdout, verbose: bool, files: seq<Path>)
    requires forall p :: p in files ==> NormSuffix(p) == ".chd"
    requires forall p :: p in files ==> WellFormed(InfoRows(stdout(InfoCommandFor(tool, p, verbose))))
    ensures var o := InfoEach(tool, stdout, verbose, false, files);
      && o.failure.None?
      && Spawned(o.log) == ConcatMap(files, p => [InfoCommandFor(tool, p, verbose)])
      && Shown(o.log) == []
      && Headers(o.log) == (if files == [] then [] else [Column(InfoRows(stdout(InfoCommandFor(tool, files[0], verbose))), 0)])
      && Values(o.log) == ConcatMap(files, p => [Column(InfoRows(stdout(InfoCommandFor(tool, p, verbose))), 1)])
  {
    var step := InfoStep(tool, stdout, verbose, false);
    var spawned := p => [InfoCommandFor(tool, p, verbose)];
    var header := p => [Column(InfoRows(stdout(InfoCommandFor(tool, p, verbose))), 0)];
    var values := p => [Column(InfoRows(stdout(InfoCommandFor(tool, p, verbose))), 1)];
    forall p, h | p in files
      ensures && step(p, h).failure.None?
              && Shown(step(p, h).log) == [] && Spawned(step(p, h).log) == spawned(p)
              && Headers(step(p, h).log) == (if h then header(p) else [])
              && Values(step(p, h).log) == values(p)
    {
      InfoBodyTable(tool, stdout, verbose, h, p);
    }
    var nothing: Path -> seq<Command> := p => [];
    CountedTable(files, 0, step, nothing, spawned, header, values);
    EmptyConcat(files, nothing);
  }

  /**
   * A directory whose CHD files all give well-formed reports prints one
   * table: the first file's keys as header, then one value line per file,
   * in enumeration order; chdman is run once per file.
   */
  lemma InfoDirectory(fs: FileSystem, tool: Path, entries: seq<Path>, input: Path, stdout: Stdout, verbose: bool)
    requires IsDir(fs, input) && !IsFile(fs, input)
    requires forall p :: p in Matching(fs, entries, {".chd"}) ==>
               WellFormed(InfoRows(stdout(InfoCommandFor(tool, p, verbose))))
    ensures var o := InfoRun(fs, tool, entries, input, stdout, verbose, false);
      var files := Matching(fs, entries, {".chd"});
      && o.failure.None?
      && Spawned(o.log) == ConcatMap(files, p => [InfoCommandFor(tool, p, verbose)])
      && Shown(o.log) == []
      && Headers(o.log) == (if files == [] then [] else [Column(InfoRows(stdout(InfoCommandFor(tool, files[0], verbose))), 0)])
      && Values(o.log) == ConcatMap(files, p => [Column(InfoRows(stdout(InfoCommandFor(tool, p, verbose))), 1)])
  {
    MatchingChd(fs, entries);
    InfoEachTable(tool, stdout, verbose, Matching(fs, entries, {".chd"}));
  }

  /** Under dry run a walk over CHD files only prints their command lines. */
  lemma InfoEachDryRun(tool: Path, stdout: Stdout, verbose: bool, files: seq<Path>)
    requires forall p :: p in files ==> NormSuffix(p) == ".chd"
    ensures var o := InfoEach(tool, stdout, verbose, true, files);
      && o.failure.None?
      && Shown(o.log) == ConcatMap(files, p => [InfoCommandFor(tool, p, verbose)])
      && Spawned(o.log) == [] && Headers(o.log) == [] && Values(o.log) == []
  {
    var step := InfoStep(tool, stdout, verbose, true);
    var shown := p => [InfoCommandFor(tool, p, verbose)];
    forall p, h | p in files
      ensures && step(p, h).failure.None?
              && Shown(step(p, h).log) == shown(p) && Spawned(step(p, h).log) == []
              && Headers(step(p, h).log) == (if h then [] else [])
              && Values(step(p, h).log) == []
    {
      InfoBodyDryRun(tool, stdout, verbose, h, p);
    }
    var noCommand: Path -> seq<Command> := p => [];
    var noRow: Path -> seq<seq<string>> := p => [];
    CountedTable(files, 0, step, shown, noCommand, noRow, noRow);
    EmptyConcat(files, noCommand);
    EmptyConcat(files, noRow);
  }

  /**
   * Under dry run `run_info` runs nothing and prints no table line, only
   * command lines: one per CHD file of a directory, in enumeration order.
   */
  lemma InfoDryRun(fs: FileSystem, tool: Path, entries: seq<Path>, input: Path, stdout: Stdout, verbose: bool)
    ensures var o := InfoRun(fs, tool, entries, input, stdout, verbose, true);
      && Spawned(o.log) == [] && Headers(o.log) == [] && Values(o.log) == []
      && (IsDir(fs, input) && !IsFile(fs, input) ==>
            o.failure.None? && Shown(o.log) == ConcatMap(Matching(fs, entries, {".chd"}), p => [InfoCommandFor(tool, p, verbose)]))
  {
    if IsFile(fs, input) {
      InfoBodyDryRun(tool, stdout, verbose, true, input);
    } else if IsDir(fs, input) {
      MatchingChd(fs, entries);
      InfoEachDryRun(tool, stdout, verbose, Matching(fs, entries, {".chd"}));
    }
  }

  /** A CHD file can only make `run_info` raise on a malformed report, after chdman has run. */
  lemma InfoBodyFailure(tool: Path, stdout: Stdout, verbose: bool, printHeader: bool, dryrun: bool, input: Path)
    requires NormSuffix(input) == ".chd"
    ensures var r := InfoBody(tool, stdout, verbose, printHeader, dryrun, input);
      r.failure.Some? ==> r.failure.value.MalformedInfo? && !dryrun
  {
  }

  /**
   * The argument check of `run_info` that fails, if any: a regular input
   * whose extension is not `.chd`, or an input that is neither a file nor a
   * directory.
   */
  function InfoArgError(fs: FileSystem, input: Path): Option<Error> {
    if IsFile(fs, input) then
      if NormSuffix(input) != ".chd" then Some(NotChd(input)) else None
    else if IsDir(fs, input) then None
    else Some(InputNotFound(input))
  }

  /**
   * A run stops on an argument error exactly when one of the checks fails,
   * under dry run or not; it then raises that check's error and has done
   * nothing at all.
   */
  lemma InfoValidatesFirst(fs: FileSystem, tool: Path, entries: seq<Path>, input: Path, stdout: Stdout, verbose: bool, dryrun: bool)
    ensures var o := InfoRun(fs, tool, entries, input, stdout, verbose, dryrun);
      o.failure.Some? && IsValidation(o.failure.value) <==> InfoArgError(fs, input).Some?
    ensures InfoArgError(fs, input).Some? ==>
      InfoRun(fs, tool, entries, input, stdout, verbose, dryrun) == Outcome([], InfoArgError(fs, input))
  {
    if IsFile(fs, input) && NormSuffix(input) == ".chd" {
      InfoBodyFailure(tool, stdout, verbose, true, dryrun, input);
    } else if !IsFile(fs, input) && IsDir(fs, input) {
      var files := Matching(fs, entries, {".chd"});
      var step := InfoStep(tool, stdout, verbose, dryrun);
      MatchingChd(fs, entries);
      forall p, h | p in files && step(p, h).failure.Some?
        ensures !IsValidation(step(p, h).failure.value)
      {
        InfoBodyFailure(tool, stdout, verbose, h, dryrun, p);
      }
      CountedFailure(files, 0, step, IsValidation);
    }
  }
}
