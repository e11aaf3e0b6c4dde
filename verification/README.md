# chdman helper: a Dafny model of its decision layer

`chdman_helper.py` is a small command-line front end to MAME's `chdman`. It has
three operations:

- `compress` turns a disc image (`.cue`, `.gdi`, `.iso`), or every disc image
  under a directory, into a CHD file with `chdman create<format>`;
- `decompress` turns a CHD file, or every CHD file under a directory, back into
  a disc image with `chdman extract<format>`. The format is read from the
  `Metadata:` lines that `chdman info` prints;
- `info` runs `chdman info` on one CHD file, or on every CHD file of a
  directory, and prints the report as one tab-separated table.

This project models what each operation decides:

- which paths it accepts;
- which exception it raises and when;
- which output path it picks;
- which format it asks for;
- which command vectors it prints and runs, and in what order;
- how the `info` report becomes a table.

The modules:

- `Text` (`text.dfy`): the Python string operations the script relies on, namely
  `strip`, `lower`, `upper`, `split`, `startswith`, `in` and `rfind`.
- `PurePaths` (`paths.dfy`): the POSIX `pathlib` operations it uses, namely
  `name`, `suffix`, `stem`, `/`, `parent` and `with_suffix`. The `ValueError`
  of `with_suffix` on an empty name is modelled as `None`.
- `Chdman` (`chdman.dfy`): the shared parts:
  - the four constants;
  - the filesystem as a map from paths to files (with sizes) and directories;
  - the output handling both converters open with;
  - the event log (`mkdir`, printed command lines, chdman runs, table lines);
  - the `rglob('*.*')` filter, and the directory walk written as a loop
    (`Walk`).
- `Compress`, `Decompress` and `Info`: one module per operation. Each holds:
  - the operation as a function (`CompressRun`, `DecompressRun`, `InfoRun`);
  - a method with the source's loops that is proved equal to that function
    (`RunCompress`, `RunDecompress` with the `ScanFormat` loop, and `RunInfo`
    with the counting loop `CountedWalk`);
  - the lemmas that state what the operation promises.

A run is an `Outcome`: the ordered log of what it did, and the exception that
ended it, if any. Several facts are therefore statements about that log:

- that an argument error comes before any command;
- that a dry run runs no chdman command (for `compress`), or runs only
  `chdman info` (for `decompress`);
- that a batch stops at the first file that raises.

## Model

| member | source | states |
|---|---|---|
| Text.TrimStartSpec | chdman_helper.py:70 | `lstrip()`: the result is a suffix of the input, everything dropped is whitespace, and the result does not start with whitespace |
| Text.TrimEndSpec | chdman_helper.py:70 | `rstrip()`: the result is a prefix of the input, everything dropped is whitespace, and the result does not end with whitespace |
| Text.StripSpec | chdman_helper.py:70 | `strip()` leaves no whitespace at either end and leaves an already stripped string unchanged |
| Text.UpperWord | chdman_helper.py:141 | a word of capitals and digits is unchanged by `strip().upper()` |
| Text.RFindSpec | chdman_helper.py:70 | `rfind`: -1 exactly when the character is absent, otherwise an index holding it with no occurrence after it |
| Text.Split | chdman_helper.py:141 | `split` always yields at least one piece; what the pieces are is stated by `Text.SplitJoin` and `Text.SplitAtFirst` |
| Text.SplitJoin | chdman_helper.py:141 | joining the pieces of `split(sep)` with `sep` gives back the string |
| Text.SplitHasSecond | chdman_helper.py:141 | `split(sep)[1]` exists exactly when `sep` occurs in the string; otherwise the IndexError the scan swallows |
| Text.SplitAtFirst | chdman_helper.py:141 | the first piece of `split(sep)` is everything before the first occurrence; the rest is the split of what follows it |
| Text.SplitHeadPrefix | chdman_helper.py:141 | the first piece extends at least to the first occurrence of the separator |
| Text.SplitCharCount | chdman_helper.py:189 | splitting on one character gives one more piece than there are occurrences |
| PurePaths.SuffixOfSpec | chdman_helper.py:70 | `suffix` is non-empty exactly when the last dot of the name is neither its first nor its last character; it starts with a dot and holds no other dot; stem followed by suffix is the name |
| PurePaths.Join | chdman_helper.py:85 | `p / s` has name `s` and parent `p`; "" and "." leave `p` unchanged |
| PurePaths.WithSuffix | chdman_helper.py:85 | `with_suffix(s)` fails exactly on an empty name; otherwise it keeps the parent and names the file stem + `s` |
| PurePaths.ParentAndName | chdman_helper.py:155 | a path with a name is its parent extended by that name |
| PurePaths.InDirectory | chdman_helper.py:85 | a path whose parent is the one-name directory `dir` is `dir / name` |
| PurePaths.StemNonEmpty | chdman_helper.py:85 | a non-empty name has a non-empty stem |
| PurePaths.NoDotNoSuffix | chdman_helper.py:85 | a name without a dot has no suffix and is its own stem |
| PurePaths.StemSuffixOfAppend | chdman_helper.py:85 | appending a one-dot suffix to a stem gives back that stem and that suffix |
| PurePaths.WithSuffixSuffix | chdman_helper.py:150 | after `with_suffix(s)` the suffix is `s` and the stem is the old stem: the old last suffix is replaced |
| Chdman.InfoCommand | chdman_helper.py:135 | the info vector is exactly the tool, `info`, `--input` and the input path |
| Chdman.ShownAppend | chdman_helper.py:96 | the printed and the run commands of two logs in sequence are those of the first followed by those of the second |
| Chdman.NoCommandShowsNothing | chdman_helper.py:68-74 | a log without command events shows and runs nothing |
| Chdman.LaunchCommands | chdman_helper.py:95-99 | a launched command is printed once, and run once unless under dry run |
| Chdman.LaunchOrFail | chdman_helper.py:95-99 | a planned command succeeds exactly when the plan does; a failed plan logs nothing; under dry run only echoes are logged; every echo or run is of the planned command |
| Chdman.OutputPrelude | chdman_helper.py:68-74 | the output handling fails exactly when the output is an existing file, and never prints or runs a command |
| Chdman.ShownFromEcho | chdman_helper.py:96 | every printed command comes from an echo event and every run command from a spawn event |
| Chdman.ThenEvents | chdman_helper.py:66-115 | an event property of both parts holds of their sequence |
| Chdman.PlannedEchoes | chdman_helper.py:68-96 | after output handling, every printed line is the planned command |
| Chdman.ProbeThenLaunch | chdman_helper.py:135-159 | an info probe followed by a plan: the probe is printed and run; then the planned command is printed, and run unless under dry run, or the plan's error ends the run |
| Chdman.ProbeDryRun | chdman_helper.py:135-159 | under dry run, a probe followed by a plan runs the probe and nothing else |
| Chdman.ThenCommands | chdman_helper.py:66-75 | a prefix without commands adds no commands, and when it raises, nothing after it happens |
| Chdman.NoSpawnRunsNothing | chdman_helper.py:97 | a log without spawns runs nothing |
| Chdman.Matching | chdman_helper.py:105-106 | the walk visits exactly the enumerated entries that are regular files named `*.*` with a wanted extension |
| Chdman.MatchingAppend | chdman_helper.py:105-106 | filtering commutes with concatenation, so enumeration order is kept |
| Chdman.MatchingMultiplicity | chdman_helper.py:105-106 | a selected entry is visited exactly as often as it is enumerated, and any other entry never |
| Chdman.MatchingSnoc | chdman_helper.py:165-166 | one more enumerated entry adds one more file, exactly when it passes the filter |
| Chdman.EachOne | chdman_helper.py:105-113 | a walk over one file is that file's step |
| Chdman.EachAppend | chdman_helper.py:105-113 | a walk over two lists is the walk over the first, then the second |
| Chdman.EachFailure | chdman_helper.py:105-113 | a walk raises only an exception one of its steps raises |
| Chdman.EachNoValidation | chdman_helper.py:105-113 | a walk raises an argument error only if one of its steps does |
| Chdman.EachEvents | chdman_helper.py:105-113 | a property of every step's events holds of the walk's events |
| Chdman.EachShown | chdman_helper.py:105-113 | when no step raises, the walk succeeds and prints the steps' commands in order |
| Chdman.EachMatchingSnoc | chdman_helper.py:105-113 | one more enumerated entry adds one more step, exactly when it passes the filter |
| Chdman.EachMatchingStops | chdman_helper.py:105-113 | once the walk has raised, later entries change nothing |
| Chdman.Walk | chdman_helper.py:105-113 | the `for p in rglob` loop, stopping at the first exception, equals the walk over the matching entries |
| Chdman.KnownExtensions | chdman_helper.py:14 | the extensions the script gives to files it names are a dot followed by lower-case letters: `.cue` and `.iso` from the format table, and also `.chd` (line 70) and `.bin` (line 155). `.gdi` is only ever compared against, so it is not needed here |
| Chdman.NormalExtension | chdman_helper.py:70 | such an extension is unchanged by `strip().lower()` and has a single dot |
| Chdman.NormSuffixWithSuffix | chdman_helper.py:85 | a path given such an extension by `with_suffix` has exactly that extension |
| Chdman.NamedFile | chdman_helper.py:82 | a file named `<stem><ext>` with a known extension has that stem and that extension |
| Chdman.PlainName | chdman_helper.py:82 | a name without a dot has no extension and is its own stem |
| Chdman.NormSuffixOf | chdman_helper.py:82 | a path whose suffix is such an extension has it as its normalised extension |
| Compress.ResolveFormat | chdman_helper.py:88-92 | never "auto". An explicit format is kept. Under "auto": "cd" for `.cue`/`.gdi`; otherwise "cd" exactly when smaller than 783216000 bytes, else "dvd" |
| Compress.CompressTarget | chdman_helper.py:82-85 | an output naming a CHD file is the target itself. Any target has extension `.chd`. Otherwise, when the input's stem is neither "" nor ".", the target sits in the output directory, named after the input's stem with its last suffix replaced by `.chd`. A stem of "." puts it beside the output directory (`Compress.CompressTargetBeside`). No target only for an empty name |
| Compress.CreateCommand | chdman_helper.py:95 | exactly six elements: the tool, `create` + format, `--input`, the input, `--output`, the target |
| Compress.CompressPlan | chdman_helper.py:78-95 | raises `BadExtension` exactly when the input is not a disc image; a disc image is planned exactly when it has a target, and otherwise fails only on the empty name; a plan is a create command in the resolved format, from the input to the target |
| Compress.RunCompress | chdman_helper.py:66-115 | the method with the directory loop equals `CompressRun` |
| Compress.CompressStepFailure | chdman_helper.py:105-113 | a recursive call on a matching file can fail only for lack of a target name |
| Compress.CompressValidatesFirst | chdman_helper.py:68-115 | a run stops on an argument error exactly when one of the script's checks fails (existing output file, not a disc image, directory paired with a `.chd` output, missing input), with that check's error; nothing has then been printed or run |
| Compress.CompressRestArgError | chdman_helper.py:77-115 | once the output is handled, the input checks raise exactly when they fail, and nothing else raises an argument error |
| Compress.CompressRejects | chdman_helper.py:68-115 | each argument error with the whole outcome: an existing output file stops the run at once; a wrong extension or a missing input stops it after only the output directory's `mkdir`; a directory paired with a `.chd` output stops it after nothing |
| Compress.CompressRestValidation | chdman_helper.py:76-115 | an argument error after the output handling leaves an empty log |
| Compress.CompressWalkFailure | chdman_helper.py:102-113 | a directory walk can only stop on a missing target name |
| Compress.CompressBodyCommands | chdman_helper.py:77-99 | one image is printed as one create command, run unless under dry run |
| Compress.CompressSingleFile | chdman_helper.py:66-99 | one image gives exactly `[chdman, 'create'+f, '--input', in, '--output', target]`, with f not "auto" and the target a `.chd`; it is run unless under dry run |
| Compress.CompressTargetCollision | chdman_helper.py:85 | `game.disc1.cue` and `game.disc2.cue`, from any directories, both map to `<output>/game.chd` |
| Compress.CompressDirectory | chdman_helper.py:102-113 | a directory prints exactly one create command per matching image, in enumeration order, each writing into the output directory, when no image's stem is "." (such an image writes beside it, as `Compress.CompressTargetBeside` shows) |
| Compress.CompressTargetBeside | chdman_helper.py:85 | an input whose stem is "." (named `..cue`, say) adds no component, so the target is the output directory's own stem with `.chd`, beside the output directory |
| Compress.CompressDotCueExample | chdman_helper.py:85 | `<dir>/..cue` compressed into `out` is written to `out.chd` |
| Compress.CompressDirectoryFormat | chdman_helper.py:88-113 | with an explicit format, every printed command asks for that format |
| Compress.CompressFileFormat | chdman_helper.py:88-96 | with an explicit format, every line one recursive call prints asks for it |
| Compress.CompressDryRun | chdman_helper.py:97-99 | under dry run chdman is never run |
| Compress.CueTarget | chdman_helper.py:82-85 | into a one-name directory, an image with a dot-free stem becomes `<dir>/<stem>.chd` |
| Compress.CompressCueExample | chdman_helper.py:82-92 | `<game>.cue` of any size is a CD, compressed to `<dir>/<game>.chd` |
| Compress.CompressIsoExample | chdman_helper.py:88-92 | a 4.7 GB `.iso` under "auto" is a DVD |
| Decompress.TagOf | chdman_helper.py:141 | the tag expression yields a value exactly when the line holds `Tag='` |
| Decompress.LineFormat | chdman_helper.py:139-144 | a line names a format exactly when it starts with `Metadata:` and its tag is `CHT2` or `DVD`, and then names that tag's format |
| Decompress.TagScan | chdman_helper.py:138-144 | a found format is "cd" or "dvd" and has an image extension |
| Decompress.TagScanFirst | chdman_helper.py:138-144 | the scan finds nothing exactly when no line names a format; otherwise it finds the format of the first line that does |
| Decompress.TagScanNone | chdman_helper.py:138-145 | the scan finds nothing exactly when no line names a format |
| Decompress.TagScanSome | chdman_helper.py:138-144 | a format found is that of some line, and every earlier line names none |
| Decompress.TagScanAppend | chdman_helper.py:142 | lines after the first naming a format are never looked at |
| Decompress.ScanFormat | chdman_helper.py:134-144 | the loop with `break` computes `TagScan` |
| Decompress.TagOfLine | chdman_helper.py:141 | the tag is the text between the first `Tag='` and the next quote, stripped and upper-cased |
| Decompress.AfterFirstTag | chdman_helper.py:141 | the second piece of `split("Tag='")` starts with the tag and its closing quote |
| Decompress.TagRunsToQuote | chdman_helper.py:141 | a tag without quote or `=` holds no `Tag='` up to its closing quote |
| Decompress.QuoteEndsTag | chdman_helper.py:141 | `split("'")[0]` of the text after `Tag='` is the tag |
| Decompress.MetadataLine | chdman_helper.py:138-141 | a blank-padded `Metadata:` line names the format of its tag, or none for an unknown tag |
| Decompress.MetadataPrefix | chdman_helper.py:139 | `Metadata:` followed by blanks starts the line and holds no `Tag='` |
| Decompress.KnownTags | chdman_helper.py:15 | every tag of the table (`CHT2`, `DVD`) survives `strip().upper()` unchanged |
| Decompress.MetadataTag | chdman_helper.py:138-144 | a blank-padded `Metadata:` line carrying a known tag names that tag's format |
| Decompress.MetadataExamples | chdman_helper.py:15 | the `CHT2` metadata line names "cd" and the `DVD` line "dvd" |
| Decompress.DecompressTarget | chdman_helper.py:147-150 | an output naming a disc image is the target itself; otherwise the target has the format's extension and, when the input's stem is neither "" nor ".", sits in the output directory, named after the input's stem with its last suffix replaced. A stem of "." puts it beside the output directory (`Decompress.DecompressTargetBeside`). No target only for an empty name |
| Decompress.DecompressTargetBeside | chdman_helper.py:150 | an input whose stem is "." (named `..chd`, say) adds no component, so the image is the output directory's own stem with the format's extension, beside the output directory |
| Decompress.DecompressDotChdExample | chdman_helper.py:150 | `<dir>/..chd` holding a DVD, decompressed into `out`, is written to `out.iso` |
| Decompress.ImageExt | chdman_helper.py:14 | `.cue` for "cd", `.iso` for "dvd", both disc image extensions |
| Decompress.BinPath | chdman_helper.py:155 | the data track sits beside the cue sheet, named after its stem with its last suffix replaced by `.bin` |
| Decompress.ExtractCommand | chdman_helper.py:153-155 | six elements `[chdman, 'extract'+fmt, '--input', in, '--output', target]`, plus `['--outputbin', bin]` exactly for a CD; fails only for a CD whose bin path has no name |
| Decompress.ExtractPlan | chdman_helper.py:145-155 | fails with "unable to infer" exactly when the scan finds nothing, otherwise only on an empty name; with a scanned format it succeeds exactly when the image and (for a CD) its data track have names; the command is the tool, `extract`+format, `--input` with the CHD file, `--output` with the image chosen by `DecompressTarget`, and for a CD `--outputbin` with `BinPath` of that image: 8 elements for a CD, 6 otherwise |
| Decompress.DecompressOne | chdman_helper.py:129-159 | the method with the scan loop equals `DecompressBody` |
| Decompress.RunDecompress | chdman_helper.py:118-174 | the method with the directory loop equals `DecompressRun` |
| Decompress.DecompressBodyCommands | chdman_helper.py:133-159 | the info command is printed and run even under dry run; then the extract command is printed, and run unless under dry run, or the planning error ends the run |
| Decompress.DecompressFileCommands | chdman_helper.py:118-159 | the same for one recursive call: the output handling adds no command |
| Decompress.DecompressSingleFile | chdman_helper.py:129-159 | one CHD file: with no format the run raises after the info command alone; with a plan it prints the info command, then the full extract vector (from the CHD file to its target, plus the `.bin` data track for a CD), and runs extract unless under dry run |
| Decompress.DecompressStepFailure | chdman_helper.py:165-172 | a recursive call on a CHD file fails only on an unknown format or an empty name |
| Decompress.DecompressWalkFailure | chdman_helper.py:162-172 | a directory walk never stops on an argument error |
| Decompress.DecompressRestValidation | chdman_helper.py:128-174 | an argument error after the output handling leaves an empty log |
| Decompress.DecompressValidatesFirst | chdman_helper.py:118-174 | a run stops on an argument error exactly when one of the script's checks fails (existing output file, not a `.chd` file, directory paired with a disc-image output, missing input), with that check's error; nothing has then been printed or run, not even `chdman info` |
| Decompress.DecompressRestArgError | chdman_helper.py:129-174 | once the output is handled, the input checks raise exactly when they fail, and nothing else raises an argument error |
| Decompress.DecompressRejects | chdman_helper.py:118-174 | each argument error with the whole outcome: an existing output file stops the run at once; a file that is not `.chd` or a missing input stops it after only the output directory's `mkdir`; a directory paired with a disc-image output stops it after nothing |
| Decompress.DecompressBodyDryRun | chdman_helper.py:129-159 | under dry run one file runs only its info command |
| Decompress.DecompressFileDryRun | chdman_helper.py:118-159 | the same for one recursive call |
| Decompress.DecompressDryRun | chdman_helper.py:118-174 | under dry run every command run is an info command |
| Decompress.DecompressDirectory | chdman_helper.py:162-172 | a directory whose CHD files all yield a plan prints info then extract for each, in enumeration order, and succeeds |
| Decompress.DecompressCueBin | chdman_helper.py:150-155 | into a directory, a CD becomes `<stem minus last suffix>.cue` with its `.bin` beside it, named after the cue sheet's stem minus its last suffix |
| Decompress.TargetInDirectory | chdman_helper.py:147-150 | into a one-name directory, a CHD file with a dot-free stem becomes `<dir>/<stem>` plus the format's extension |
| Decompress.BinBeside | chdman_helper.py:155 | the data track of `<dir>/<game>.cue` is `<dir>/<game>.bin` |
| Decompress.DecompressCueExample | chdman_helper.py:147-155 | `<game>.chd` into `<dir>` gives `<dir>/<game>.cue` and `<dir>/<game>.bin` |
| Info.InfoCommandFor | chdman_helper.py:182-184 | the info vector, with `--verbose` appended exactly when asked for |
| Info.Fields | chdman_helper.py:189 | a row has one more field than its line has colons |
| Info.FieldsStripped | chdman_helper.py:189 | every field of a row is stripped of surrounding whitespace |
| Info.InfoLineHasPair | chdman_helper.py:189 | a kept line (one holding ": ") gives a row of at least two fields |
| Info.InfoRows | chdman_helper.py:189 | one row per kept line: every kept line's row is in the table and every row comes from a kept line; every row has at least two fields |
| Info.InfoRowsAppend | chdman_helper.py:189 | rows keep the order of their lines |
| Info.Column | chdman_helper.py:191-192 | the key or value column has one entry per row |
| Info.RowsFromColumns | chdman_helper.py:191-192 | the header line and the value line together give back the table |
| Info.KeyValueSplit | chdman_helper.py:189 | `key:value` with no other colon splits into key and value |
| Info.KeyValueFields | chdman_helper.py:189 | `key:value` gives the fields `[key.strip(), value.strip()]` |
| Info.KeyValueLine | chdman_helper.py:189 | the report line `key: value` is kept as the row `[key, value]`, stripped |
| Info.TableAppend | chdman_helper.py:190-192 | the header and value lines of two logs in sequence are those of the first followed by the second |
| Info.InfoBodyTable | chdman_helper.py:179-192 | a CHD file, not under dry run: chdman runs without its command being printed. A malformed report raises and prints no line; otherwise the keys line (when asked for) and the values line are printed |
| Info.InfoBodyDryRun | chdman_helper.py:179-186 | under dry run only the command line is printed, and a non-CHD file raises |
| Info.CountedAppend | chdman_helper.py:196-206 | the counted walk over two lists is the walk over the first, then the second with the counter advanced |
| Info.CountedOne | chdman_helper.py:199-206 | a counted walk over one file is that file's step |
| Info.CountedMatchingSnoc | chdman_helper.py:197-206 | one more entry adds one more step (header asked for only if no file came before) and advances the counter exactly when it passes the filter |
| Info.CountedMatchingStops | chdman_helper.py:197-206 | once the counted walk has raised, later entries change nothing |
| Info.CountedTable | chdman_helper.py:196-206 | the walk prints the steps' commands and value lines in order, and a header only from the first step |
| Info.CountedWalk | chdman_helper.py:196-206 | the loop with `count` equals the counted walk over the matching entries |
| Info.RunInfo | chdman_helper.py:177-208 | the method with the counting loop equals `InfoRun` |
| Info.CountedNoHeader | chdman_helper.py:203 | once the counter is past 0, no step prints a header |
| Info.CountedFailure | chdman_helper.py:196-206 | a counted walk raises only what one of its steps raises |
| Info.InfoBodyNoHeader | chdman_helper.py:190-191 | a file asked for no header prints none |
| Info.InfoFirstHeader | chdman_helper.py:190-191 | the header a file prints is its own keys line |
| Info.InfoEachTailNoHeader | chdman_helper.py:203 | the files after the first print no header |
| Info.InfoHeaderOnce | chdman_helper.py:177-208 | however a run ends, it prints at most one header: the keys of the input file, or of the first CHD file of the directory |
| Info.MatchingChd | chdman_helper.py:198 | every file of the directory walk is a `.chd` file |
| Info.InfoEachTable | chdman_helper.py:196-206 | over well-formed reports, chdman runs once per file in order, nothing is printed as a command, the header is the first file's keys, and there is one values line per file |
| Info.InfoDirectory | chdman_helper.py:195-206 | a directory with well-formed reports prints one table: the first file's header, then one values line per file in enumeration order |
| Info.InfoEachDryRun | chdman_helper.py:185-186 | under dry run the walk prints one command line per file and runs nothing |
| Info.InfoDryRun | chdman_helper.py:177-208 | under dry run nothing is run and no table line is printed; a directory prints one info command per CHD file |
| Info.InfoBodyFailure | chdman_helper.py:185-192 | a CHD file raises only on a malformed report, and never under dry run |
| Info.InfoValidatesFirst | chdman_helper.py:177-208 | a run stops on an argument error exactly when the input is a file that is not `.chd` or does not exist, under dry run or not; it then raises that error and has done nothing |

## Left out

- Running chdman, printing and the filesystem are modelled as values, not performed:
  - `subprocess.run` is a `Spawn` event, and chdman's standard output is a parameter (`Stdout`), already split into lines;
  - `print` is an `Echo`, `Newline`, `HeaderRow` or `ValueRow` event;
  - `mkdir` is a `MakeDirs` event.
- Printing a command renders it with `' '.join(str(x) ...)`. The model keeps the command as a vector. The text of `str(path)` is not modelled.
- The directory listing is a parameter. The sequence `rglob('*.*')` enumerates is given as `entries`. The filesystem is a map that does not change during a run, so directories created by `mkdir`, or files written by chdman, are not seen by later steps.
- Argument parsing, the search for a default `chdman*.exe` and the dispatch in `main` (lines 18-63 and 210-240) are not part of this model. Neither is the exception raised when no command is given.
- Lines 69 and 121 format their message from the undefined name `args`. In Python that raises a `NameError` instead of the intended `ValueError`. Both are modelled as the `OutputFileExists` error: the run stops there, before anything else, either way.
- Case mapping in `lower()` and `upper()` is modelled for ASCII letters only. Python maps every Unicode letter.
- Paths follow POSIX `pathlib` only. Windows drive letters and backslashes are not modelled.
- The metadata scan catches every exception (`except: pass`). The model covers exactly the two that the expression can raise: the missing second piece (`IndexError`) and the unknown tag (`KeyError`).
- `Compress.CompressCueExample`, `Compress.CompressIsoExample` and `Decompress.DecompressCueExample` are examples over generic names (`<game>`, `<dir>`), not fixed strings.
- There is no end-to-end example that runs a whole directory through the model. The directory lemmas state the general case instead.
- `Decompress.DecompressTarget` and `Decompress.ImageExt` only accept the formats "cd" and "dvd". Those are the only values the tag table yields. `FORMAT_TO_EXT` is still modelled in full.
- The format list `CHDMAN_COMPRESS_FORMATS` is a constant of the model. The command line uses it only in help text. The script does not check `--format` against it, so the model does not either.
- `info` splits each kept report line on every colon, so a line with two or more colons (a time of day, a Windows path) makes the unpacking into key and value raise. This is the `MalformedInfo` error.
- Decoding chdman's output as text (lines 138 and 189) can raise `UnicodeDecodeError`, outside any `try`. The model takes the output as already decoded lines, so this failure is not modelled.
- Creating the output directory (lines 74 and 126) can fail, for example on missing permissions or when a parent is a file. The model treats `mkdir` as always succeeding.
- Running chdman (lines 98, 137, 158 and 188) raises `FileNotFoundError` or `PermissionError` when the chdman path is missing or not executable, and reading an image's size (line 89) can raise when the file vanishes or cannot be read. The model's `Spawn` and `SizeOf` always succeed, so these failures are not modelled.
- `Info.SplitAbsent` and `Info.CharAbsent` are proof helpers about strings without the separator; they model no line of the script on their own.
