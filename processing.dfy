/**
 * `processinputfile`: one subject. The input file's name gives the subject
 * prefix, the prefix gives the seven command lines, and in execute mode the
 * subject's files are staged into `<outputdir>/<prefix>` before the commands
 * are launched one after another.
 *
 * The filesystem and the processes are not modelled; what they answer is a
 * parameter (`Env`), and what the function does to them is its result.
 */
module Processing {
  import opened Wrappers
  import opened PyStr
  import opened PyPath
  import opened Listing
  import opened Prefix
  import opened Programs

  /**
   * What starting one command does, as the loop sees it: the process ran and
   * exited with some code (which the loop never looks at), or `Popen` raised.
   */
  datatype Outcome = Exited(code: int) | LaunchFailed

  /**
   * The answers of the environment: `os.path.exists`, `os.listdir` (with
   * `os.path.isfile` for each name), `os.stat(...).st_size`, and for each
   * input file the outcomes of its launched commands in order. A command with
   * no recorded outcome runs.
   */
  datatype Env = Env(
    pathExists: string -> bool,
    listdir: string -> seq<Entry>,
    statSize: string -> int,
    outcomes: string -> seq<Outcome>)

  /** The index of the first failed launch, or the length when none failed. */
  function FirstFailure(outcomes: seq<Outcome>): (k: nat)
    ensures k <= |outcomes|
    ensures forall i :: 0 <= i < k ==> outcomes[i].Exited?
    ensures k < |outcomes| ==> outcomes[k].LaunchFailed?
  {
    if outcomes == [] then 0
    else if outcomes[0].LaunchFailed? then 0
    else 1 + FirstFailure(outcomes[1..])
  }

  /** Whether the launch of command `i` raises. */
  predicate Fails(outcomes: seq<Outcome>, i: nat) {
    i < |outcomes| && outcomes[i].LaunchFailed?
  }

  /**
   * How many of `n` commands the loop starts in execute mode: all of them,
   * or up to and including the first whose launch raises.
   */
  function Attempts(n: nat, outcomes: seq<Outcome>): (a: nat)
    ensures a <= n
    ensures n > 0 ==> a > 0
    ensures forall i :: 0 <= i < a - 1 ==> !Fails(outcomes, i)
    ensures a < n ==> Fails(outcomes, a - 1)
  {
    var f := FirstFailure(outcomes);
    if f < |outcomes| && f < n then f + 1 else n
  }

  /** The loop breaks right after the first launch that raises. */
  lemma StopsAtFirstFailure(n: nat, outcomes: seq<Outcome>, k: nat)
    requires k < n && Fails(outcomes, k)
    requires forall i :: 0 <= i < k ==> !Fails(outcomes, i)
    ensures Attempts(n, outcomes) == k + 1
  {
    var f := FirstFailure(outcomes);
    if f < k {
      assert Fails(outcomes, f);
    }
  }

  /** When no launch raises, every command is started. */
  lemma NoFailureRunsAll(n: nat, outcomes: seq<Outcome>)
    requires forall i :: 0 <= i < n ==> !Fails(outcomes, i)
    ensures Attempts(n, outcomes) == n
  {
    var f := FirstFailure(outcomes);
    if f < |outcomes| && f < n {
      assert Fails(outcomes, f);
    }
  }

  /**
   * Exit codes are never inspected: two runs whose launches raise at the same
   * places start the same commands, whatever the programs exit with.
   */
  lemma {:induction false} ExitCodesIgnored(a: seq<Outcome>, b: seq<Outcome>)
    requires |a| == |b|
    requires forall i :: 0 <= i < |a| ==> (a[i].LaunchFailed? <==> b[i].LaunchFailed?)
    ensures FirstFailure(a) == FirstFailure(b)
  {
    if a != [] && !a[0].LaunchFailed? {
      ExitCodesIgnored(a[1..], b[1..]);
    }
  }

  /** The argument vectors handed to `Popen`: each line cut at single spaces. */
  function SplitAll(lines: seq<string>): (r: seq<seq<string>>)
    ensures |r| == |lines|
  {
    seq(|lines|, i requires 0 <= i < |lines| => Split(lines[i], ' '))
  }

  /**
   * The `for program in programlist` loop: `num` counts the commands
   * started, every started command is printed first, and in execute mode it
   * is launched; a launch that raises ends the loop.
   */
  method RunProgramList(programlist: seq<string>, checkflag: bool, outcomes: seq<Outcome>)
    returns (num: nat, announced: seq<string>, launched: seq<seq<string>>)
    ensures num == if checkflag then |programlist| else Attempts(|programlist|, outcomes)
    ensures announced == programlist[..num]
    ensures launched == if checkflag then [] else SplitAll(announced)
  {
    num := 0;
    announced := [];
    launched := [];
    ghost var stopped := false;
    while num < |programlist|
      invariant num <= |programlist|
      invariant !stopped
      invariant announced == programlist[..num]
      invariant launched == if checkflag then [] else SplitAll(announced)
      invariant !checkflag ==> forall i :: 0 <= i < num ==> !Fails(outcomes, i)
    {
      var program := programlist[num];
      num := num + 1;
      announced := announced + [program];
      assert announced == programlist[..num];
      if !checkflag {
        var parts := Split(program, ' ');
        launched := launched + [parts];
        if num - 1 < |outcomes| && outcomes[num - 1].LaunchFailed? {
          StopsAtFirstFailure(|programlist|, outcomes, num - 1);
          stopped := true;
          break;
        }
      }
    }
    if !checkflag && !stopped {
      NoFailureRunsAll(|programlist|, outcomes);
    }
  }

  /** `mvfiles`: the regular files of the input's directory whose names start with the prefix. */
  function StagedFiles(listing: seq<Entry>, prefix: string): (r: seq<string>)
    ensures forall k :: 0 <= k < |r| ==> StartsWith(r[k], prefix)
  {
    RegularFilesWhere(listing, f => StartsWith(f, prefix))
  }

  /** A name is staged exactly when it is a regular file of the directory that starts with the prefix. */
  lemma StagedIff(listing: seq<Entry>, prefix: string, x: string)
    ensures x in StagedFiles(listing, prefix) <==>
      StartsWith(x, prefix) && exists e :: e in listing && e.isFile && e.name == x
  {
    SelectedIff(listing, f => StartsWith(f, prefix), x);
  }

  /**
   * The reverse-phase-encoding pair that step 3 reads, `AP<prefix>.nii.gz`
   * and `PA<prefix>.nii.gz`, never starts with the (digit) prefix, so it is
   * never staged into the subject's directory.
   */
  lemma PhasePairNotStaged(listing: seq<Entry>, prefix: string)
    requires prefix != [] && AllDigits(prefix)
    ensures Format(DWIPREPROC.inputFiles[0], prefix) !in StagedFiles(listing, prefix)
    ensures Format(DWIPREPROC.inputFiles[1], prefix) !in StagedFiles(listing, prefix)
  {
    var ap, pa := Format(DWIPREPROC.inputFiles[0], prefix), Format(DWIPREPROC.inputFiles[1], prefix);
    assert ap[0] == 'A' && pa[0] == 'P' && IsDigit(prefix[0]);
    StagedIff(listing, prefix, ap);
    StagedIff(listing, prefix, pa);
  }

  /** The `shutil.copy2` calls: `(source, destination)` for each staged name, in order. */
  function CopyPlan(pathname: string, workdir: string, names: seq<string>): (r: seq<(string, string)>)
    ensures |r| == |names|
  {
    seq(|names|, i requires 0 <= i < |names| => (Join(pathname, names[i]), Join(workdir, names[i])))
  }

  /**
   * Each staged file keeps its name and lands directly in the working
   * directory; any directory `dirname` can return is accepted, the root too.
   */
  lemma CopiesKeepNames(pathname: string, workdir: string, names: seq<string>, i: nat)
    requires i < |names| && '/' !in names[i]
    requires DirLike(pathname) && DirLike(workdir)
    ensures var c := CopyPlan(pathname, workdir, names)[i];
      Basename(c.0) == names[i] && Dirname(c.0) == pathname &&
      Basename(c.1) == names[i] && Dirname(c.1) == workdir
  {
    JoinSplitsBack(pathname, names[i]);
    JoinSplitsBack(workdir, names[i]);
  }

  /** The `for mv in mvfiles` loop. */
  method CopyFiles(pathname: string, workdir: string, mvfiles: seq<string>)
    returns (copies: seq<(string, string)>)
    ensures copies == CopyPlan(pathname, workdir, mvfiles)
  {
    copies := [];
    for k := 0 to |mvfiles|
      invariant copies == CopyPlan(pathname, workdir, mvfiles[..k])
    {
      copies := copies + [(Join(pathname, mvfiles[k]), Join(workdir, mvfiles[k]))];
    }
    assert mvfiles[..|mvfiles|] == mvfiles;
  }

  /** What one call of `processinputfile` did. */
  datatype Report =
    | Skipped
      // the path failed `checkvalidinput` or does not exist: nothing at all happens
    | NoPrefix
      // no match for the file name: `.group(1)` on `None` raises `AttributeError`
    | Processed(
        prefix: string,
        programs: seq<string>,
        workdir: Option<string>,          // the directory changed into, in execute mode
        madeDir: bool,                    // whether `os.makedirs` was called for it
        copies: seq<(string, string)>,    // the staged files, as `(source, destination)`
        announced: seq<string>,           // the command lines printed, in order
        launched: seq<seq<string>>)       // the argument vectors handed to `Popen`, in order

  /** `processinputfile(inputfile, outputdir, checkflag)` */
  function Process(inputfile: string, outputdir: string, checkflag: bool, env: Env): Report {
    if !(CheckValidInput(inputfile) && env.pathExists(inputfile)) then Skipped
    else
      match GetFilenamePrefix(Basename(inputfile))
      case None => NoPrefix
      case Some(prefix) =>
        var programs := ProgramList(prefix);
        var workdir := Join(outputdir, prefix);
        var pathname := Dirname(inputfile);
        var n := if checkflag then |programs| else Attempts(|programs|, env.outcomes(inputfile));
        Processed(prefix, programs,
          if checkflag then None else Some(workdir),
          !checkflag && !env.pathExists(workdir),
          if checkflag then [] else CopyPlan(pathname, workdir, StagedFiles(env.listdir(pathname), prefix)),
          programs[..n],
          if checkflag then [] else SplitAll(programs[..n]))
  }

  /** `processinputfile`, step by step. */
  method ProcessInputFile(inputfile: string, outputdir: string, checkflag: bool, env: Env)
    returns (r: Report)
    ensures r == Process(inputfile, outputdir, checkflag, env)
  {
    if !(CheckValidInput(inputfile) && env.pathExists(inputfile)) {
      return Skipped;
    }
    var filename := Basename(inputfile);
    var found := GetFilenamePrefix(filename);
    if found.None? {
      return NoPrefix;
    }
    var filenamePrefix := found.value;
    var pathname := Dirname(inputfile);
    var programlist := CreateProgramList(filenamePrefix);
    var workdir: Option<string> := None;
    var madeDir := false;
    var copies: seq<(string, string)> := [];
    if !checkflag {
      var dir := Join(outputdir, filenamePrefix);
      madeDir := !env.pathExists(dir);
      var mvfiles := StagedFiles(env.listdir(pathname), filenamePrefix);
      copies := CopyFiles(pathname, dir, mvfiles);
      workdir := Some(dir);
    }
    var num, announced, launched := RunProgramList(programlist, checkflag, env.outcomes(inputfile));
    r := Processed(filenamePrefix, programlist, workdir, madeDir, copies, announced, launched);
  }

  /** Nothing happens for a path that is not valid or does not exist, and only then. */
  lemma SkippedIff(inputfile: string, outputdir: string, checkflag: bool, env: Env)
    ensures Process(inputfile, outputdir, checkflag, env).Skipped? <==>
      !CheckValidInput(inputfile) || !env.pathExists(inputfile)
  {
  }

  /**
   * The subject stops with an exception exactly when its existing, valid path
   * has a base name without one to six leading digits or without the
   * `.nii.gz` ending; the `sys.exit` branch for an empty prefix is never taken.
   */
  lemma NoPrefixIff(inputfile: string, outputdir: string, checkflag: bool, env: Env)
    ensures Process(inputfile, outputdir, checkflag, env).NoPrefix? <==>
      CheckValidInput(inputfile) && env.pathExists(inputfile) &&
      !(GroupBound(Basename(inputfile)) >= 1 && EndsLikeNiiGz(Basename(inputfile)))
    ensures Process(inputfile, outputdir, checkflag, env).Processed? ==>
      Process(inputfile, outputdir, checkflag, env).prefix != []
  {
    MatchExactlyWhen(Basename(inputfile));
    if GetFilenamePrefix(Basename(inputfile)).Some? {
      PrefixShape(Basename(inputfile));
    }
  }

  /** In check mode all seven lines are printed and the filesystem and processes are left alone. */
  lemma CheckModeOnlyPrints(inputfile: string, outputdir: string, env: Env)
    requires Process(inputfile, outputdir, true, env).Processed?
    ensures var r := Process(inputfile, outputdir, true, env);
      |r.announced| == 7 && r.announced == ProgramList(r.prefix) &&
      r.workdir.None? && !r.madeDir && r.copies == [] && r.launched == []
  {
    var r := Process(inputfile, outputdir, true, env);
    NoPrefixIff(inputfile, outputdir, true, env);
    ProgramListShape(r.prefix);
  }

  /**
   * In execute mode the run happens in `<outputdir>/<prefix>`, exactly the
   * staged files are copied there, and the commands are launched in table
   * order up to the first launch that raises.
   */
  lemma ExecuteModeStagesAndRuns(inputfile: string, outputdir: string, env: Env)
    requires Process(inputfile, outputdir, false, env).Processed?
    ensures var r := Process(inputfile, outputdir, false, env);
      var n := Attempts(7, env.outcomes(inputfile));
      r.workdir == Some(Join(outputdir, r.prefix)) &&
      r.copies == CopyPlan(Dirname(inputfile), Join(outputdir, r.prefix),
        StagedFiles(env.listdir(Dirname(inputfile)), r.prefix)) &&
      r.announced == ProgramList(r.prefix)[..n] &&
      |r.launched| == n && 1 <= n <= 7 &&
      forall i :: 0 <= i < n ==> r.launched[i] == Split(ProgramList(r.prefix)[i], ' ')
  {
    var r := Process(inputfile, outputdir, false, env);
    NoPrefixIff(inputfile, outputdir, false, env);
    ProgramListShape(r.prefix);
  }

  /**
   * A failed launch of step 3 stops the subject after three commands; a
   * non-zero exit of an earlier step does not.
   */
  lemma StepThreeFails(outcomes: seq<Outcome>)
    requires outcomes == [Exited(0), Exited(1), LaunchFailed, Exited(0)]
    ensures Attempts(7, outcomes) == 3
    ensures Attempts(7, outcomes[..2]) == 7
  {
    StopsAtFirstFailure(7, outcomes, 2);
    NoFailureRunsAll(7, outcomes[..2]);
  }

  /** For a digit prefix, each launched vector is the argument vector of its table step. */
  lemma LaunchedAreArgvs(inputfile: string, outputdir: string, env: Env, i: nat)
    requires Process(inputfile, outputdir, false, env).Processed?
    requires i < |Process(inputfile, outputdir, false, env).launched|
    ensures var r := Process(inputfile, outputdir, false, env);
      i < 7 && r.launched[i] == Argv(STEPS[i], r.prefix)
  {
    var r := Process(inputfile, outputdir, false, env);
    ExecuteModeStagesAndRuns(inputfile, outputdir, env);
    PrefixShape(Basename(inputfile));
    assert ' ' !in r.prefix by {
      forall k | 0 <= k < |r.prefix| ensures r.prefix[k] != ' ' {
        assert IsDigit(r.prefix[k]);
      }
    }
    ProgramListShape(r.prefix);
    assert ProgramList(r.prefix)[i] == Command(STEPS[i], r.prefix);
    StepSpaceFree(i);
    CommandTokens(STEPS[i], r.prefix);
  }

  /** No input template of the table has a space around its placeholder. */
  lemma StepSpaceFree(i: nat)
    requires i < 7
    ensures |STEPS| == 7 && SpaceFree(STEPS[i])
  {
    if i == 0 { MrconvertSpaceFree(); }
    else if i == 1 { DenoiseSpaceFree(); }
    else if i == 2 { PreprocSpaceFree(); }
    else if i == 3 { BiasCorrectSpaceFree(); }
    else if i == 4 { MaskSpaceFree(); }
    else if i == 5 { ResponseSpaceFree(); }
    else { FodSpaceFree(); }
  }

  // Proof helpers for `StepSpaceFree`, one table entry each.
  lemma MrconvertSpaceFree() ensures SpaceFree(MRCONVERT) { }
  lemma DenoiseSpaceFree() ensures SpaceFree(DWIDENOISE) { }
  lemma PreprocSpaceFree() ensures SpaceFree(DWIPREPROC) { }
  lemma BiasCorrectSpaceFree() ensures SpaceFree(DWIBIASCORRECT) { }
  lemma MaskSpaceFree() ensures SpaceFree(DWI2MASK) { }
  lemma ResponseSpaceFree() ensures SpaceFree(DWI2RESPONSE) { }
  lemma FodSpaceFree() ensures SpaceFree(DWI2FOD) { }

  /**
   * For prefix `003` the subject's own files are staged, in listing order;
   * another subject's file, the phase-encoding pair and a directory are not.
   */
  lemma StagedExample(listing: seq<Entry>)
    requires listing == [Entry("003.bvec", true), Entry("004.bvec", true),
      Entry("AP003.nii.gz", true), Entry("003-dwi.nii.gz", true), Entry("003-old", false)]
    ensures StagedFiles(listing, "003") == ["003.bvec", "003-dwi.nii.gz"]
  {
    var keep := f => StartsWith(f, "003");
    var a, b := listing[..3], listing[3..];
    assert listing == a + b;
    SelectAppend(a, b, keep);
    SelectAppend(a[..1], a[1..], keep);
    SelectAppend(b[..1], b[1..], keep);
    assert StartsWith("003.bvec", "003") && !StartsWith("004.bvec", "003") && !StartsWith("AP003.nii.gz", "003");
    assert RegularFilesWhere(a[..1], keep) == ["003.bvec"];
    assert RegularFilesWhere(a[1..], keep) == [];
    assert StartsWith("003-dwi.nii.gz", "003");
    assert RegularFilesWhere(b[..1], keep) == ["003-dwi.nii.gz"];
    assert RegularFilesWhere(b[1..], keep) == [];
  }
}
