# DWIprocess in Dafny

`DWIprocess.py` drives pre-processing of diffusion-weighted MRI scans. It
takes a subject identifier of one to six digits from an input file name
(`003-dwi.nii.gz` gives `003`). It fills that identifier into a fixed,
ordered table of seven MRtrix commands: `mrconvert`, `dwidenoise`,
`dwipreproc`, `dwibiascorrect`, `dwi2mask`, `dwi2response` and `dwi2fod`.
It then prints the seven command lines (check mode, `-c`) or runs them.

In execute mode it also does these things, in order:

- creates `<outputdir>/<prefix>`;
- copies the subject's files there;
- changes into that directory;
- launches each command, cut on single spaces, one after another;
- stops at the first command whose launch raises.

`main` picks the output directory from `-o`, `-d` or `-f`. With `-d` it runs
the subject procedure for every `.gz` file of the directory. With `-f` it
runs it for one file.

The model has one module per concern:

| module | file | what it holds |
|---|---|---|
| `Wrappers` | `wrappers.dfy` | `Option`, `Min` |
| `PyStr` | `pystr.dfy` | Python's `str.replace`, `str.split(" ")` with its `join` partner, `startswith` / `endswith` |
| `PyPath` | `pypath.dfy` | `posixpath.basename`, `dirname`, `join` and `splitext` |
| `Listing` | `listing.dfy` | a directory listing, with `isfile` for each name, and the list-comprehension filter over it |
| `Prefix` | `prefix.dfy` | `get_filenameprefix` (the regular expression `^(\d{1,6})(.*).nii.gz$`) and `checkvalidinput` |
| `Programs` | `programs.dfy` | the seven-step table and `create_programlist` |
| `Processing` | `processing.dfy` | `processinputfile`: choosing the prefix, staging, and the run / check loop |
| `Driver` | `driver.dfy` | `main`: choosing the output directory, the `.gz` filter, and the batch / single-file dispatch |

The filesystem and the child processes are not executed. What they answer is a
parameter: `Processing.Env` supplies `os.path.exists`, `os.listdir` + `isfile`,
`os.stat().st_size`, and, per input file, the sequence of launch outcomes.
What the program does to them is part of the result (`Processing.Report`,
`Driver.MainReport`):

- the directory it creates;
- the `(source, destination)` pairs it copies;
- the command lines it prints, without the headers, the `Executing program: n :`
  prefix, the child's output or the error messages;
- the argument vectors it hands to `Popen`.

Points of the program's behaviour that the model keeps as they are:

- A command that exits with a non-zero status does not stop the loop; only an
  exception out of `Popen`/`communicate` does (`DWIprocess.py:145-157`).
- Commands are cut with `split(" ")`, so the double spaces of the table become
  empty arguments (`Programs.MaskTokens`).
- The staged files are those whose names start with the prefix
  (`DWIprocess.py:130`). The reversed-phase pair `AP<p>.nii.gz` /
  `PA<p>.nii.gz` that step 3 reads is therefore never copied
  (`Processing.PhasePairNotStaged`).
- A `.gz` name without a prefix does not skip only that subject: `.group(1)`
  on `None` raises, which ends the whole batch (`Driver.Batch`). A launch
  failure in one subject lets later subjects run.
- An invalid `-d` directory only prints a message; it does not exit with an
  error. With neither `-d` nor `-f`, `sys.exit(0)` exits with status 0.
- Step 2 is `dwidenoise -noise <p>-dwi.mif <p>-dwi-denoised.mif  <p>-noise.mif`,
  exactly as the table orders it. The comment at `DWIprocess.py:15` puts
  `-noise` after the two files.
- Step 7 is `dwi2fod csd  <p>-dwi-biascorrected.mif <p>-response.txt <p>-fod.mif  -mask <p>-dwi-mask.mif`.

Proof helpers have no row below: the concatenation identities
`Programs.PreprocText`, `Programs.FodText` and `Programs.MrconvertText`; the
unfoldings `Programs.InputArgsOne`, `Programs.CommandWithPre`,
`Programs.CommandWithoutPre`, `Programs.ProgramListByStep`,
`Programs.ArgvWithoutPre` and `Programs.FormattedOne`; the per-step facts
behind `Processing.StepSpaceFree`; `Driver.SubjectApplied` and
`Driver.NoneRaisedSnoc`.

## Model

| member | source | states |
|---|---|---|
| PyStr.StartsWith | DWIprocess.py:130 | `str.startswith`: the pattern is a prefix of the string |
| PyStr.Replace | DWIprocess.py:99 | `str.replace`: a left-to-right scan that substitutes each non-overlapping occurrence and, for an empty pattern, inserts at every gap; its laws are the rows below |
| PyStr.InsertEverywhere | DWIprocess.py:200 | `replace` with an empty pattern puts the replacement at each of the `\|s\|+1` gaps: the length is `\|s\| + (\|s\|+1)·\|sub\|` |
| PyStr.ReplaceByItself | DWIprocess.py:200 | replacing a pattern by itself gives the string back |
| PyStr.InsertNothing | DWIprocess.py:200 | inserting the empty string everywhere gives the string back |
| PyStr.ReplaceAbsent | DWIprocess.py:99 | a pattern that occurs nowhere leaves the string unchanged |
| PyStr.ShiftOccurrence | DWIprocess.py:99 | an occurrence in a suffix is an occurrence in the whole string, shifted by the cut |
| PyStr.ReplaceAppend | DWIprocess.py:99 | when no occurrence straddles the seam, `replace` distributes over concatenation |
| PyStr.Split | DWIprocess.py:143 | `split(" ")` yields at least one piece and no piece contains the separator |
| PyStr.SplitNoSeparator | DWIprocess.py:143 | a string without the separator splits into itself alone |
| PyStr.SplitAppend | DWIprocess.py:143 | splitting `a + " " + b` is splitting `a` followed by splitting `b` |
| PyStr.JoinSplit | DWIprocess.py:143 | joining the pieces with the separator restores the string |
| PyStr.SplitJoin | DWIprocess.py:143 | splitting a join of separator-free pieces restores the pieces |
| PyPath.RFind | DWIprocess.py:115 | the index of the last `/`, or -1: it holds a `/` and nothing after it is one |
| PyPath.Basename | DWIprocess.py:115 | the base name contains no `/` and is a suffix of the path |
| PyPath.RStrip | DWIprocess.py:117 | `rstrip('/')` removes the trailing `/` and only those, as `dirname` does to the head |
| PyPath.Dirname | DWIprocess.py:117 | `posixpath.dirname`: everything up to the last `/`, trailing slashes stripped unless the head is slashes only |
| PyPath.DirnameIsDirLike | DWIprocess.py:117 | every `dirname` is empty, ends in a non-slash, or is slashes only |
| PyPath.Join | DWIprocess.py:127-132 | `posixpath.join` of two parts: an absolute second part wins, otherwise the parts are joined with exactly one added `/` unless the first is empty or ends in `/` |
| PyPath.SplitExt | DWIprocess.py:214 | root and extension concatenate back to the path |
| PyPath.GzExtension | DWIprocess.py:214 | `splitext(f)[1] == '.gz'` exactly when `f` ends in `.gz` and a non-dot character precedes it in the last component |
| PyPath.RFindAbsent | DWIprocess.py:115 | with no `/`, the search finds none |
| PyPath.RFindLast | DWIprocess.py:115 | the last `/` is found at its own index |
| PyPath.JoinSplitsBack | DWIprocess.py:127-132 | `join(d, n)` for a plain name `n` and any directory `dirname` can return (the root `/` included) has base name `n` and directory `d` |
| PyPath.RootJoinSplitsBack | DWIprocess.py:127-132 | the same for a directory of slashes only |
| Listing.RegularFilesWhere | DWIprocess.py:130 | the selected names are at most the listing and all satisfy the condition |
| Listing.SelectedIff | DWIprocess.py:130 | a name is selected exactly when it is a regular file of the listing and satisfies the condition |
| Listing.SelectAppend | DWIprocess.py:214 | the selection of a concatenated listing is the concatenation of the selections, in order |
| Prefix.LeadingDigits | DWIprocess.py:30 | the run of ASCII digits at the start of the name, and nothing longer |
| Prefix.TailMatches | DWIprocess.py:30 | `(.*).nii.gz$` matches the rest of the name: at least seven characters, ending in any character, `nii`, any character, `gz` |
| Prefix.MatchesWithGroup | DWIprocess.py:30 | the whole pattern matches with group 1 of length `j`: `1 <= j <= 6`, the first `j` characters are digits and the rest matches `(.*).nii.gz$` |
| Prefix.Backtrack | DWIprocess.py:30-32 | greedy backtracking over `\d{1,6}`: the longest group length at most `j` for which the rest matches, or none |
| Prefix.GetFilenamePrefix | DWIprocess.py:24-32 | a prefix exists exactly when the pattern matches; it is a prefix of the name, and the longest group the match admits |
| Prefix.TailIff | DWIprocess.py:30 | `(.*).nii.gz$` matches a tail exactly when it leaves 7 characters and the name ends like `?nii?gz` |
| Prefix.DigitsIff | DWIprocess.py:30 | the first `j` characters are digits exactly when `j` is within the leading digits |
| Prefix.MatchIff | DWIprocess.py:30 | a group of length `j` matches exactly when `1 <= j <= min(6, leading digits)`, `j <= len-7` and the name ends like `?nii?gz` |
| Prefix.MatchExactlyWhen | DWIprocess.py:30-32 | a match exists exactly when the bound is at least 1 and the name ends like `?nii?gz` |
| Prefix.GroupLength | DWIprocess.py:30-32 | the group is `min(6, leading digits, len-7)` long |
| Prefix.PrefixClosedForm | DWIprocess.py:24-32 | closed form of the function: that many leading characters, or none |
| Prefix.PrefixShape | DWIprocess.py:24-32 | a prefix is 1 to 6 digits and starts the name |
| Prefix.LeadingDigitsAre | DWIprocess.py:30 | a digit run ended by a non-digit or the end is the leading-digit count |
| Prefix.Prefix003 | DWIprocess.py:14 | `003-dwi.nii.gz` gives `003` |
| Prefix.PrefixSevenDigits | DWIprocess.py:30 | seven leading digits give the first six |
| Prefix.PrefixBacksOff | DWIprocess.py:30 | the group gives back digits when the `.nii.gz` tail needs them (`.` is any character) |
| Prefix.PrefixNoMatch | DWIprocess.py:30-32 | `abc.nii.gz`, `dwi.nii` and `AP003.nii.gz` do not match |
| Prefix.Allowed | DWIprocess.py:165 | the character class `[a-zA-Z0-9\-\\/\._]`: an ASCII letter or digit, `-`, `\`, `/`, `.` or `_` |
| Prefix.RunEnd | DWIprocess.py:165 | the end of a run of allowed characters |
| Prefix.SearchRun | DWIprocess.py:165 | `re.search` of `[a-zA-Z0-9\-\\/._]+`: the first, maximal run of allowed characters, or none when there is none |
| Prefix.CheckValidInput | DWIprocess.py:164-168 | true exactly when some character is a letter, digit, `-`, `\`, `/`, `.` or `_` |
| Prefix.CheckValidInputExamples | DWIprocess.py:164-168 | the empty name and `;; \|` are rejected; `a;b` and a full path are accepted |
| Programs.STEPS | DWIprocess.py:66-87 | the seven entries of `programs` in key order `'1'` to `'7'`, each with the same program, `pre`, options, input-file templates and output-file template as the dictionary |
| Programs.MRCONVERT | DWIprocess.py:66-68 | entry `'1'`: `mrconvert`, no `pre`, `-fslgrad`, inputs `%s.bvec`, `%s.bval`, `%s-dwi.nii.gz`, output `%s-dwi.mif` |
| Programs.DWIDENOISE | DWIprocess.py:69-71 | entry `'2'`: `dwidenoise`, no `pre`, `-noise`, inputs `%s-dwi.mif`, `%s-dwi-denoised.mif`, output `%s-noise.mif` |
| Programs.DWIPREPROC | DWIprocess.py:72-74 | entry `'3'`: `dwipreproc`, `pre` `AP %s-dwi-denoised.mif`, `-rpe_pair`, inputs `AP%s.nii.gz`, `PA%s.nii.gz`, output `%s-dwi-processed.mif` |
| Programs.DWIBIASCORRECT | DWIprocess.py:75-77 | entry `'4'`: `dwibiascorrect`, no `pre`, `-fsl`, input `%s-dwi-processed.mif`, output `%s-dwi-biascorrected.mif` |
| Programs.DWI2MASK | DWIprocess.py:78-80 | entry `'5'`: `dwi2mask`, no `pre`, empty options, input `%s-dwi-biascorrected.mif`, output `%s-dwi-mask.mif` |
| Programs.DWI2RESPONSE | DWIprocess.py:81-83 | entry `'6'`: `dwi2response`, no `pre`, `tournier`, input `%s-dwi-biascorrected.mif`, output `%s-response.txt` |
| Programs.DWI2FOD | DWIprocess.py:84-86 | entry `'7'`: `dwi2fod`, `pre` `csd`, empty options, inputs `%s-dwi-biascorrected.mif`, `%s-response.txt`, `%s-fod.mif`, output `-mask %s-dwi-mask.mif` |
| Programs.Format | DWIprocess.py:94 | `template % prefix` for a template with one `%s`: the prefix stands in the placeholder's place |
| Programs.FormatIsReplace | DWIprocess.py:94-99 | for the table's templates, `%` formatting and `.replace('%s', p)` agree |
| Programs.NoPercentNoSlot | DWIprocess.py:99 | text without `%` holds no `%s` |
| Programs.InputArgs | DWIprocess.py:92-95 | the `inputfiles` string the `+=` loop accumulates: each template expanded and followed by one space; its one-turn law is `InputArgsSnoc` |
| Programs.InputArgsSnoc | DWIprocess.py:92-95 | each input file adds its expansion and one space to the input string |
| Programs.Command | DWIprocess.py:97-102 | `process_string` of one entry: program, expanded `pre` when present, options, input string, output file, joined by single spaces |
| Programs.ProgramList | DWIprocess.py:89-106 | the return value of `create_programlist`: no lines for an empty prefix, else one `Command` per table entry in order; spelled out by `ProgramListSpelledOut` |
| Programs.CreateProgramList | DWIprocess.py:89-106 | an empty prefix gives no lines; any other prefix gives the expansion of the seven-step table |
| Programs.ExpandSteps | DWIprocess.py:90-103 | the two accumulating loops give, for each table entry in order, its program, `pre`, options, input files (each followed by a space) and output file, joined by spaces |
| Programs.CommandStartsWithProgram | DWIprocess.py:100-102 | every command line begins with its program and a space |
| Programs.ProgramListShape | DWIprocess.py:89-106 | seven lines for a non-empty prefix, none for the empty one, each line starting with its step's program |
| Programs.Formatted | DWIprocess.py:93-94 | one expansion per input template |
| Programs.Argv | DWIprocess.py:143 | the argument vector of one entry, field by field; `CommandTokens` proves it is what `split(" ")` of the line gives |
| Programs.InputTokens | DWIprocess.py:92-95 | without spaces in prefix or templates, the input string splits into the expansions plus one empty piece |
| Programs.CommandTokens | DWIprocess.py:98-103 | split into arguments, a command line is its step's argument vector (program, pre, options, inputs, an empty piece, output) |
| Programs.PreTokens | DWIprocess.py:100 | the same for a step with a `pre` field |
| Programs.NoPreTokens | DWIprocess.py:102 | the same for a step without one |
| Programs.SplitFourFields | DWIprocess.py:102 | four fields joined by spaces split field by field |
| Programs.SplitFiveFields | DWIprocess.py:100 | five fields joined by spaces split field by field |
| Programs.FirstLineHead | DWIprocess.py:66-68 | step 1 begins `mrconvert -fslgrad `, then the prefix, then `.` |
| Programs.ExpansionInjective | DWIprocess.py:89-103 | two dot-free prefixes with the same program list are the same prefix |
| Programs.DependencyChain | DWIprocess.py:66-86 | each step's output is the next consumer's input: mif → denoise, processed → biascorrect, biascorrected → mask/response/fod, response → fod, mask → `-mask` of fod |
| Programs.DenoisedReachesPreproc | DWIprocess.py:72 | step 3's `pre` names step 2's denoised file |
| Programs.InputArgsTwo | DWIprocess.py:92-95 | the input string of two templates |
| Programs.InputArgsThree | DWIprocess.py:92-95 | the input string of three templates |
| Programs.CsdUnchanged | DWIprocess.py:84 | step 7's `pre` has no placeholder and stays `csd` |
| Programs.FodParts | DWIprocess.py:84-86 | step 7's line in its parts |
| Programs.MrconvertLine | DWIprocess.py:66-68 | step 1's line, spelled out |
| Programs.DenoiseLine | DWIprocess.py:69-71 | step 2's line, spelled out |
| Programs.PreprocLine | DWIprocess.py:72-74 | step 3's line, spelled out |
| Programs.BiasCorrectLine | DWIprocess.py:75-77 | step 4's line, spelled out |
| Programs.MaskLine | DWIprocess.py:78-80 | step 5's line, spelled out |
| Programs.ResponseLine | DWIprocess.py:81-83 | step 6's line, spelled out |
| Programs.FodLine | DWIprocess.py:84-86 | step 7's line, spelled out |
| Programs.ProgramListSpelledOut | DWIprocess.py:64-106 | the whole program list for a non-empty prefix, as seven literal lines in order |
| Programs.MaskWords | DWIprocess.py:78 | `dwi2mask` is one word and its empty options one empty argument |
| Programs.MaskInputs | DWIprocess.py:79 | step 5 reads the bias-corrected file |
| Programs.MaskOutput | DWIprocess.py:80 | step 5's output is one argument |
| Programs.MaskArgv | DWIprocess.py:78-80 | step 5's argument vector, with its two empty arguments |
| Programs.MaskTokens | DWIprocess.py:143 | `split(" ")` of line 5 passes two empty arguments to `dwi2mask` |
| Processing.FirstFailure | DWIprocess.py:145-157 | the index of the first launch that raises: every earlier one ran |
| Processing.Attempts | DWIprocess.py:136-157 | at least one of a non-empty list is started; none before the last started one failed; fewer than all only when the last one failed |
| Processing.StopsAtFirstFailure | DWIprocess.py:149-157 | when launch `k` is the first to raise, exactly `k+1` commands are started |
| Processing.NoFailureRunsAll | DWIprocess.py:137-148 | with no launch raising, all commands are started |
| Processing.ExitCodesIgnored | DWIprocess.py:146-148 | exit codes do not influence where the loop stops; only launch failures do |
| Processing.SplitAll | DWIprocess.py:143 | one argument vector per launched line |
| Processing.RunProgramList | DWIprocess.py:136-157 | check mode prints every line and launches nothing; execute mode announces and launches the lines up to and including the first failed launch, each as its `split(" ")` |
| Processing.StagedFiles | DWIprocess.py:130 | every staged name starts with the prefix |
| Processing.StagedIff | DWIprocess.py:130 | a name is staged exactly when it is a regular file of the input's directory and starts with the prefix |
| Processing.PhasePairNotStaged | DWIprocess.py:73 | `AP<p>.nii.gz` and `PA<p>.nii.gz` are never staged |
| Processing.StagedExample | DWIprocess.py:130 | from `003.bvec, 004.bvec, AP003.nii.gz, 003-dwi.nii.gz` and a directory `003-old`, prefix `003` stages `003.bvec`, `003-dwi.nii.gz` |
| Processing.CopyPlan | DWIprocess.py:131-132 | one copy per staged name |
| Processing.CopiesKeepNames | DWIprocess.py:131-132 | each copy goes from the input directory to the subject directory under the same name |
| Processing.CopyFiles | DWIprocess.py:131-132 | the copy loop performs the copy plan in order |
| Processing.Process | DWIprocess.py:108-162 | `processinputfile` as a value: skipped, raising for want of a prefix, or the prefix, its seven lines, the working directory, the copies, the announced lines and the launched vectors; characterised by the lemmas below |
| Processing.ProcessInputFile | DWIprocess.py:108-162 | the step-by-step subject procedure yields the report of `Process` |
| Processing.SkippedIff | DWIprocess.py:114 | nothing happens exactly when the path fails `checkvalidinput` or does not exist |
| Processing.NoPrefixIff | DWIprocess.py:114-119 | the subject raises exactly when a valid, existing path has a base name the pattern rejects; a processed subject has a non-empty prefix |
| Processing.CheckModeOnlyPrints | DWIprocess.py:122-140 | check mode prints all seven lines and makes, copies and launches nothing |
| Processing.ExecuteModeStagesAndRuns | DWIprocess.py:124-157 | execute mode works in `<outputdir>/<prefix>`, copies the staged files, and launches the first `n` lines split on spaces, `1 <= n <= 7` |
| Processing.StepThreeFails | DWIprocess.py:145-157 | a failed launch at step 3 stops after three commands; non-zero exits before it and missing outcomes do not stop |
| Processing.LaunchedAreArgvs | DWIprocess.py:143-146 | the `i`-th launched vector is the `i`-th step's argument vector |
| Processing.StepSpaceFree | DWIprocess.py:66-86 | no input template of the table holds a space around its placeholder, so splitting the input string separates the input files only |
| Driver.Given | DWIprocess.py:196-201 | Python truthiness of an optional argument, as the tests at :196-201, :209 and :221 use it: given and not empty |
| Driver.OutOf | DWIprocess.py:200 | `d.replace(basename(d), 'out')` |
| Driver.OutputDir | DWIprocess.py:196-205 | `-o` if given, else `-d` renamed, else `dirname(-f)` renamed, else `temp`; characterised by the lemmas below |
| Driver.Head | DWIprocess.py:200 | a path is its head followed by its base name; the head is empty or ends in `/` |
| Driver.LastComponentBecomesOut | DWIprocess.py:200 | the last component becomes `out`, and occurrences of its name in the head are replaced too |
| Driver.SiblingOut | DWIprocess.py:198-200 | when the base name does not occur in the head, the output is the sibling `out` directory |
| Driver.EmptyBasenameOut | DWIprocess.py:201-203 | an empty base name (a trailing `/` or an empty directory name) puts `out` into every gap: length `4\|d\|+3` |
| Driver.OutputDirNonEmpty | DWIprocess.py:196-205 | the chosen output directory is never empty |
| Driver.ExplicitOutputWins | DWIprocess.py:196-197 | `-o` is used as given |
| Driver.DirnameBeforeFilename | DWIprocess.py:198-200 | with `-d` and no `-o`, `-f` does not matter |
| Driver.FilenameThenTemp | DWIprocess.py:201-205 | with only `-f` the file's directory is renamed to `out`; with nothing, `temp` |
| Driver.OutOfExamples | DWIprocess.py:198-203 | `/data/subjects` → `/data/out`, `/data/data` → `/out/out`, an empty directory → `out` |
| Driver.SubjectsOut | DWIprocess.py:198-200 | `/data/subjects` gives the sibling `/data/out` |
| Driver.DataDataOut | DWIprocess.py:198-200 | `/data/data` gives `/out/out`: every `data` is replaced, not only the last component |
| Driver.IsGz | DWIprocess.py:214 | `os.path.splitext(f)[1] == '.gz'`; `GzExtension` states exactly when it holds |
| Driver.GzFiles | DWIprocess.py:214 | every selected name has extension `.gz` |
| Driver.GzFilesIff | DWIprocess.py:214 | a name is selected exactly when it is a regular file of the directory ending in `.gz` after a non-dot character |
| Driver.Paths | DWIprocess.py:216 | one joined path per name |
| Driver.Batch | DWIprocess.py:215-216 | no more reports than files |
| Driver.BatchStopsOnlyAtNoPrefix | DWIprocess.py:215-216 | the batch reports each file in order; only a name without a prefix ends it early, and then it is the last report |
| Driver.BatchSnoc | DWIprocess.py:215-216 | with no earlier file raising, one more file adds its report at the end |
| Driver.BatchRest | DWIprocess.py:215-216 | files after the one that raises do not matter |
| Driver.BatchStep | DWIprocess.py:215-216 | one loop turn extends the batch by one report, and a raising one completes it |
| Driver.BatchTurn | DWIprocess.py:215-216 | the same, stated on the files |
| Driver.ProcessAll | DWIprocess.py:215-216 | the loop over the `.gz` files produces the batch, stopping when a subject raises |
| Driver.MainRun | DWIprocess.py:170-226 | `main` as a value: the output directory, whether it is created, and the batch over the `.gz` files of `-d`, its rejection, the single subject of `-f`, or no input |
| Driver.RunMain | DWIprocess.py:170-226 | `main`, step by step, produces the report of `MainRun` |
| Driver.BatchQuiet | DWIprocess.py:215-216 | when every subject keeps quiet, every report of the batch does |
| Driver.CheckModeRunsNothing | DWIprocess.py:122-140 | with `-c`, no subject directory is made, no file copied and no program launched, in both modes of `main` |

## Left out

- Printing is modelled only as the command lines printed (`Report.announced`): the `******Checking`/`Running programlist` headers (`DWIprocess.py:123,125`), the `Executing program: n :` prefix (`:142`), the child's output (`:148`), the error messages (`:150,153,156,161,219,225`) and `Loop through directory` (`:213`) are left out. `Popen`/`communicate` are not executed: the model records the argument vectors and takes each launch's outcome (an exit code, or `Popen` raising) as a parameter.
- `os.makedirs`, `shutil.copy2` and `os.chdir` act on a filesystem that is not modelled. Their effects are results, and the filesystem answers (`Env`) are fixed for the whole run. So the model does not capture how a created directory or a changed working directory affects later `exists`/`listdir` answers and later relative paths.
- `listdir('')` raising for a bare file name with no directory is not modelled; the listing of `""` is whatever `Env` answers.
- `file_check` (`DWIprocess.py:34-49`) is never called, so it is not modelled.
- `argparse` is not modelled: `Driver.Args` holds the parsed options. `sys.exit` is not modelled as an exit: the `sys.exit(0)` at :226 becomes the report `NoInput`, and the one at :162 is unreachable (`Processing.NoPrefixIff`). `NoPrefix` is not an exit either: it is the `AttributeError` from `.group(1)` at :32, which ends `main`.
- `Prefix.GetFilenamePrefix`: `\d` matches ASCII digits only, and `$` matches only at the end of the name, not before a trailing newline. Non-ASCII decimal digits and names ending in a newline are outside the model.
- `PyPath`: only POSIX paths are modelled.
- `Processing.Env.outcomes`: a command with no recorded outcome is treated as having run.
- Exceptions other than the launch failures caught at `DWIprocess.py:149-157` are not modelled, for example from `copy2` or `makedirs`.
