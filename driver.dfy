/**
 * `main`: the choice of output directory, then either every `.gz` file of a
 * directory or one named file, each handed to `processinputfile`.
 */
module Driver {
  import opened Wrappers
  import opened PyStr
  import opened PyPath
  import opened Listing
  import opened Prefix
  import opened Processing

  /** The parsed command line: `-d`, `-f` and `-o` (absent or a string) and the `-c` switch. */
  datatype Args = Args(
    inputdir: Option<string>,
    inputfile: Option<string>,
    outputdir: Option<string>,
    checkconfig: bool)

  /** Python truthiness of an optional string: given and not empty. */
  predicate Given(a: Option<string>) { a.Some? && a.value != [] }

  /** `d.replace(os.path.basename(d), 'out')` */
  function OutOf(d: string): string { Replace(d, Basename(d), "out") }

  /** The output directory: `-o`, else derived from `-d`, else from `-f`'s directory, else `temp`. */
  function OutputDir(args: Args): string {
    if Given(args.outputdir) then args.outputdir.value
    else if Given(args.inputdir) then OutOf(args.inputdir.value)
    else if Given(args.inputfile) then OutOf(Dirname(args.inputfile.value))
    else "temp"
  }

  /** The directory part of a path, up to and including its last `/`. */
  function Head(d: string): (h: string)
    ensures d == h + Basename(d)
    ensures h == [] || h[|h| - 1] == '/'
  {
    d[..RFind(d, '/') + 1]
  }

  /**
   * With a non-empty base name, the last component becomes `out` and the base
   * name is also replaced wherever it occurs in the directory part.
   */
  lemma LastComponentBecomesOut(d: string)
    requires Basename(d) != []
    ensures OutOf(d) == Replace(Head(d), Basename(d), "out") + "out"
  {
    var h, b := Head(d), Basename(d);
    assert forall j :: 0 <= j < |h| ==> !Straddles(h, b, b, j);
    ReplaceAppend(h, b, b, "out");
    assert b <= b && b[|b|..] == [];
  }

  /** When the base name does not occur earlier, the result is the sibling directory `out`. */
  lemma SiblingOut(d: string)
    requires Basename(d) != []
    requires forall j :: 0 <= j < |Head(d)| ==> !OccursAt(Head(d), Basename(d), j)
    ensures OutOf(d) == Head(d) + "out"
  {
    LastComponentBecomesOut(d);
    ReplaceAbsent(Head(d), Basename(d), "out");
  }

  /** With an empty base name (no path, or a trailing `/`), `out` goes around every character. */
  lemma EmptyBasenameOut(d: string)
    requires Basename(d) == []
    ensures OutOf(d) == InsertEverywhere(d, "out")
    ensures |OutOf(d)| == 4 * |d| + 3
  {
  }

  /** The output directory is never the empty string. */
  lemma OutputDirNonEmpty(args: Args)
    ensures OutputDir(args) != []
  {
    var d := if Given(args.inputdir) then args.inputdir.value
      else if Given(args.inputfile) then Dirname(args.inputfile.value) else [];
    if !Given(args.outputdir) && (Given(args.inputdir) || Given(args.inputfile)) {
      if Basename(d) == [] {
        EmptyBasenameOut(d);
      } else {
        LastComponentBecomesOut(d);
      }
    }
  }

  /** `-o` wins over everything else. */
  lemma ExplicitOutputWins(args: Args)
    requires Given(args.outputdir)
    ensures OutputDir(args) == args.outputdir.value
  {
  }

  /** A missing or empty `-o` defers to `-d`, and then `-f` plays no part. */
  lemma DirnameBeforeFilename(args: Args, f: Option<string>)
    requires !Given(args.outputdir) && Given(args.inputdir)
    ensures OutputDir(args) == OutputDir(args.(inputfile := f))
    ensures OutputDir(args) == OutOf(args.inputdir.value)
  {
  }

  /** With neither `-o` nor `-d`, the directory of `-f` decides; with none of the three, `temp`. */
  lemma FilenameThenTemp(args: Args)
    requires !Given(args.outputdir) && !Given(args.inputdir)
    ensures Given(args.inputfile) ==> OutputDir(args) == OutOf(Dirname(args.inputfile.value))
    ensures !Given(args.inputfile) ==> OutputDir(args) == "temp"
  {
  }

  lemma OutOfExamples(a: string, b: string, c: string)
    requires a == "/data/subjects" && b == "/data/data" && c == ""
    ensures OutOf(a) == "/data/out"
    ensures OutOf(b) == "/out/out"
    ensures OutOf(c) == "out"
  {
    SubjectsOut(a);
    DataDataOut(b);
  }

  lemma SubjectsOut(a: string)
    requires a == "/data/subjects"
    ensures OutOf(a) == "/data/out"
  {
    assert Basename(a) == "subjects" && Head(a) == "/data/";
    SiblingOut(a);
  }

  lemma DataDataOut(b: string)
    requires b == "/data/data"
    ensures OutOf(b) == "/out/out"
  {
    assert Basename(b) == "data" && Head(b) == "/data/";
    LastComponentBecomesOut(b);
    assert Replace("/data/", "data", "out") == "/out/";
  }

  /** `os.path.splitext(f)[1] == '.gz'` */
  predicate IsGz(f: string) { SplitExt(f).1 == ".gz" }

  /** `gzfiles`: the regular files of the directory whose `splitext` extension is `.gz`. */
  function GzFiles(listing: seq<Entry>): (r: seq<string>)
    ensures forall k :: 0 <= k < |r| ==> IsGz(r[k])
  {
    RegularFilesWhere(listing, IsGz)
  }

  /** A name is picked up exactly when it is a regular file ending in `.gz` with a real stem. */
  lemma GzFilesIff(listing: seq<Entry>, x: string)
    ensures x in GzFiles(listing) <==>
      (exists e :: e in listing && e.isFile && e.name == x) &&
      EndsWith(x, ".gz") && exists k :: RFind(x, '/') < k < |x| - 3 && x[k] != '.'
  {
    SelectedIff(listing, IsGz, x);
    GzExtension(x);
  }

  /** The full paths `join(inputdir, f)` of the listed names. */
  function Paths(dir: string, names: seq<string>): (r: seq<string>)
    ensures |r| == |names|
  {
    seq(|names|, i requires 0 <= i < |names| => Join(dir, names[i]))
  }

  /** `processinputfile(·, outputdir, checkflag)` for one run of `main`. */
  function Subject(outputdir: string, checkflag: bool, env: Env): string -> Report {
    inputfile => Process(inputfile, outputdir, checkflag, env)
  }

  /** Proof helper: applying `Subject` is calling `Process`. */
  lemma SubjectApplied(outputdir: string, checkflag: bool, env: Env, inputfile: string)
    ensures Subject(outputdir, checkflag, env)(inputfile) == Process(inputfile, outputdir, checkflag, env)
  {
  }

  /**
   * The reports of the batch loop: one per file in order, until a file name
   * without a prefix raises out of `processinputfile` and ends `main`.
   */
  function Batch(paths: seq<string>, subject: string -> Report): (r: seq<Report>)
    ensures |r| <= |paths|
  {
    if paths == [] then []
    else
      var first := subject(paths[0]);
      if first.NoPrefix? then [first] else [first] + Batch(paths[1..], subject)
  }

  /**
   * Only a missing prefix ends the batch: every file is processed in order,
   * a launch failure in one subject leaves the others running, and when fewer
   * reports than files come back the last one is the `NoPrefix` that raised.
   */
  lemma {:induction false} BatchStopsOnlyAtNoPrefix(paths: seq<string>, subject: string -> Report)
    ensures var r := Batch(paths, subject);
      (forall i :: 0 <= i < |r| ==> r[i] == subject(paths[i])) &&
      (forall i :: 0 <= i < |r| - 1 ==> !r[i].NoPrefix?) &&
      (|r| < |paths| ==> |r| > 0 && r[|r| - 1].NoPrefix?) &&
      ((forall i :: 0 <= i < |paths| ==> !subject(paths[i]).NoPrefix?) ==> |r| == |paths|)
  {
    if paths != [] && !subject(paths[0]).NoPrefix? {
      BatchStopsOnlyAtNoPrefix(paths[1..], subject);
    }
  }

  lemma {:induction false} BatchSnoc(paths: seq<string>, p: string, subject: string -> Report)
    requires forall i :: 0 <= i < |paths| ==> !subject(paths[i]).NoPrefix?
    ensures Batch(paths + [p], subject) == Batch(paths, subject) + [subject(p)]
  {
    if paths == [] {
      assert paths + [p] == [p];
    } else {
      assert (paths + [p])[1..] == paths[1..] + [p];
      BatchSnoc(paths[1..], p, subject);
    }
  }

  /** Once a file raises, the files after it do not matter. */
  lemma {:induction false} BatchRest(paths: seq<string>, k: nat, subject: string -> Report)
    requires k < |paths| && subject(paths[k]).NoPrefix?
    requires forall i :: 0 <= i < k ==> !subject(paths[i]).NoPrefix?
    ensures Batch(paths, subject) == Batch(paths[..k + 1], subject)
  {
    if k > 0 {
      assert paths[..k + 1][1..] == paths[1..][..k];
      BatchRest(paths[1..], k - 1, subject);
    }
  }

  /** Proof helper for the batch loop: a report that did not raise keeps the invariant. */
  lemma NoneRaisedSnoc(reports: seq<Report>, r: Report)
    requires forall i :: 0 <= i < |reports| ==> !reports[i].NoPrefix?
    requires !r.NoPrefix?
    ensures forall i :: 0 <= i < |reports + [r]| ==> !(reports + [r])[i].NoPrefix?
  {
  }

  /** One turn of the batch loop, for any per-file function. */
  lemma BatchStep(paths: seq<string>, k: nat, subject: string -> Report, reports: seq<Report>, r: Report)
    requires k < |paths| && reports == Batch(paths[..k], subject) && |reports| == k
    requires forall i :: 0 <= i < |reports| ==> !reports[i].NoPrefix?
    requires r == subject(paths[k])
    ensures r.NoPrefix? ==> Batch(paths, subject) == reports + [r]
    ensures reports + [r] == Batch(paths[..k + 1], subject)
  {
    BatchStopsOnlyAtNoPrefix(paths[..k], subject);
    assert forall i :: 0 <= i < k ==> paths[..k][i] == paths[i];
    BatchTurn(paths, k, subject);
  }

  lemma BatchTurn(paths: seq<string>, k: nat, subject: string -> Report)
    requires k < |paths|
    requires forall i :: 0 <= i < k ==> !subject(paths[i]).NoPrefix?
    ensures subject(paths[k]).NoPrefix? ==> Batch(paths, subject) == Batch(paths[..k], subject) + [subject(paths[k])]
    ensures Batch(paths[..k], subject) + [subject(paths[k])] == Batch(paths[..k + 1], subject)
  {
    var before, next := paths[..k], paths[..k + 1];
    assert forall i :: 0 <= i < |before| ==> !subject(before[i]).NoPrefix? by {
      forall i | 0 <= i < |before| ensures !subject(before[i]).NoPrefix? {
        assert before[i] == paths[i];
      }
    }
    BatchSnoc(before, paths[k], subject);
    assert next == before + [paths[k]];
    if subject(paths[k]).NoPrefix? {
      BatchRest(paths, k, subject);
    }
  }

  /** The `for inputfile in gzfiles` loop. */
  method ProcessAll(paths: seq<string>, outputdir: string, checkflag: bool, env: Env)
    returns (reports: seq<Report>)
    ensures reports == Batch(paths, Subject(outputdir, checkflag, env))
  {
    ghost var subject := Subject(outputdir, checkflag, env);
    reports := [];
    var k := 0;
    while k < |paths|
      invariant k <= |paths| && |reports| == k
      invariant forall i :: 0 <= i < |reports| ==> !reports[i].NoPrefix?
      invariant reports == Batch(paths[..k], subject)
    {
      var r := ProcessInputFile(paths[k], outputdir, checkflag, env);
      SubjectApplied(outputdir, checkflag, env, paths[k]);
      BatchStep(paths, k, subject, reports, r);
      if r.NoPrefix? {
        return reports + [r];
      }
      NoneRaisedSnoc(reports, r);
      reports := reports + [r];
      k := k + 1;
    }
    assert paths[..k] == paths;
  }

  /** What `main` does after choosing and, when missing, creating the output directory. */
  datatype Run =
    | Directory(reports: seq<Report>)   // the batch over the `.gz` files of `-d`
    | DirectoryRejected                 // "Directory is not valid or does not contain any files"
    | File(report: Report)              // the single subject of `-f`
    | NoInput                           // neither `-d` nor `-f`: an error message and `sys.exit(0)`

  datatype MainReport = MainReport(outputdir: string, madeOutputDir: bool, run: Run)

  /** `main()` for parsed arguments and an environment. */
  function MainRun(args: Args, env: Env): MainReport {
    var checkflag := args.checkconfig;
    var outputdir := OutputDir(args);
    var run :=
      if Given(args.inputdir) then
        var d := args.inputdir.value;
        if CheckValidInput(d) && env.pathExists(d) && env.statSize(d) > 0
        then Directory(Batch(Paths(d, GzFiles(env.listdir(d))), Subject(outputdir, checkflag, env)))
        else DirectoryRejected
      else if Given(args.inputfile) then File(Process(args.inputfile.value, outputdir, checkflag, env))
      else NoInput;
    MainReport(outputdir, !env.pathExists(outputdir), run)
  }

  /** `main`, step by step. */
  method RunMain(args: Args, env: Env) returns (r: MainReport)
    ensures r == MainRun(args, env)
  {
    var checkflag := args.checkconfig;
    var outputdir := OutputDir(args);
    var made := !env.pathExists(outputdir);
    var run;
    if Given(args.inputdir) {
      var d := args.inputdir.value;
      if CheckValidInput(d) && env.pathExists(d) && env.statSize(d) > 0 {
        var gzfiles := GzFiles(env.listdir(d));
        var reports := ProcessAll(Paths(d, gzfiles), outputdir, checkflag, env);
        run := Directory(reports);
      } else {
        run := DirectoryRejected;
      }
    } else if Given(args.inputfile) {
      var report := ProcessInputFile(args.inputfile.value, outputdir, checkflag, env);
      run := File(report);
    } else {
      run := NoInput;
    }
    r := MainReport(outputdir, made, run);
  }

  /** A report that touched neither the file system nor any process. */
  predicate Quiet(r: Report) {
    r.Processed? ==> r.workdir.None? && !r.madeDir && r.copies == [] && r.launched == []
  }

  /** The same reports, one per directory path, for any per-file function that keeps quiet. */
  lemma BatchQuiet(paths: seq<string>, subject: string -> Report)
    requires forall i :: 0 <= i < |paths| ==> Quiet(subject(paths[i]))
    ensures forall i :: 0 <= i < |Batch(paths, subject)| ==> Quiet(Batch(paths, subject)[i])
  {
    BatchStopsOnlyAtNoPrefix(paths, subject);
  }

  /** With `-c` no subject directory is made, no file copied and no program launched. */
  lemma CheckModeRunsNothing(args: Args, env: Env)
    requires args.checkconfig
    ensures var run := MainRun(args, env).run;
      (run.Directory? ==> forall i :: 0 <= i < |run.reports| ==> Quiet(run.reports[i])) &&
      (run.File? ==> Quiet(run.report))
  {
    var outputdir := OutputDir(args);
    if Given(args.inputdir) {
      var d := args.inputdir.value;
      var paths := Paths(d, GzFiles(env.listdir(d)));
      forall i | 0 <= i < |paths|
        ensures Quiet(Process(paths[i], outputdir, true, env))
      {
        if Process(paths[i], outputdir, true, env).Processed? {
          CheckModeOnlyPrints(paths[i], outputdir, env);
        }
      }
      BatchQuiet(paths, Subject(outputdir, true, env));
    } else if Given(args.inputfile) {
      if Process(args.inputfile.value, outputdir, true, env).Processed? {
        CheckModeOnlyPrints(args.inputfile.value, outputdir, env);
      }
    }
  }
}
