/**
 * `create_programlist`: the fixed, ordered table of the seven processing
 * steps, and its expansion for one subject prefix into seven command lines.
 * The lines are later cut into argument vectors with `program.split(" ")`.
 */
module Programs {
  import opened Wrappers
  import opened PyStr

  /** A template string `before + "%s" + after`, kept as the text around its placeholder. */
  datatype Slot = Slot(before: string, after: string)

  /** The templates Python's `template % prefix` accepts: the `%s` is their only `%`. */
  type Template = Slot
  predicate Plain(t: Template) { '%' !in t.before && '%' !in t.after }

  /** The template as it is written in the source. */
  function Text(t: Template): string { t.before + "%s" + t.after }

  /** `Text(t) % p`: the prefix takes the place of the one `%s`. */
  function Format(t: Template, p: string): string { t.before + p + t.after }

  /** For these templates `%` formatting agrees with `.replace('%s', p)`, the form used for `pre`. */
  lemma FormatIsReplace(t: Template, p: string)
    requires Plain(t)
    ensures Format(t, p) == Replace(Text(t), "%s", p)
  {
    var u, w := t.before, "%s" + t.after;
    NoPercentNoSlot(u);
    forall j | 0 <= j < |u| ensures !Straddles(u, w, "%s", j) {
      assert u[j] != '%';
      if j + 2 <= |u + w| {
        assert (u + w)[j..j + 2][0] == u[j];
      }
    }
    ReplaceAppend(u, w, "%s", p);
    ReplaceAbsent(u, "%s", p);
    assert "%s" <= w && w[2..] == t.after;
    NoPercentNoSlot(t.after);
    ReplaceAbsent(t.after, "%s", p);
    assert Text(t) == u + w;
  }

  lemma NoPercentNoSlot(s: string)
    requires '%' !in s
    ensures forall j :: 0 <= j < |s| ==> !OccursAt(s, "%s", j)
  {
    forall j | 0 <= j < |s| ensures !OccursAt(s, "%s", j) {
      assert s[j] != '%';
    }
  }

  /** One entry of the ordered dictionary `programs`. */
  datatype Step = Step(
    key: string,
    program: string,
    pre: Option<string>,
    options: string,
    inputFiles: seq<Template>,
    outputFile: Template)

  const MRCONVERT := Step("1", "mrconvert", None, "-fslgrad",
    [Slot("", ".bvec"), Slot("", ".bval"), Slot("", "-dwi.nii.gz")], Slot("", "-dwi.mif"))
  const DWIDENOISE := Step("2", "dwidenoise", None, "-noise",
    [Slot("", "-dwi.mif"), Slot("", "-dwi-denoised.mif")], Slot("", "-noise.mif"))
  const DWIPREPROC := Step("3", "dwipreproc", Some("AP " + "%s" + "-dwi-denoised.mif"), "-rpe_pair",
    [Slot("AP", ".nii.gz"), Slot("PA", ".nii.gz")], Slot("", "-dwi-processed.mif"))
  const DWIBIASCORRECT := Step("4", "dwibiascorrect", None, "-fsl",
    [Slot("", "-dwi-processed.mif")], Slot("", "-dwi-biascorrected.mif"))
  const DWI2MASK := Step("5", "dwi2mask", None, "",
    [Slot("", "-dwi-biascorrected.mif")], Slot("", "-dwi-mask.mif"))
  const DWI2RESPONSE := Step("6", "dwi2response", None, "tournier",
    [Slot("", "-dwi-biascorrected.mif")], Slot("", "-response.txt"))
  const DWI2FOD := Step("7", "dwi2fod", Some("csd"), "",
    [Slot("", "-dwi-biascorrected.mif"), Slot("", "-response.txt"), Slot("", "-fod.mif")],
    Slot("-mask ", "-dwi-mask.mif"))

  /** The table, in its fixed order `'1'` to `'7'`. */
  const STEPS: seq<Step> :=
    [MRCONVERT, DWIDENOISE, DWIPREPROC, DWIBIASCORRECT, DWI2MASK, DWI2RESPONSE, DWI2FOD]

  /** The accumulated `inputfiles` string: each expanded input followed by one space. */
  function InputArgs(ts: seq<Template>, p: string): string {
    if ts == [] then [] else Format(ts[0], p) + " " + InputArgs(ts[1..], p)
  }

  /** One turn of the accumulating loop appends one expanded input and a space. */
  lemma {:induction false} InputArgsSnoc(ts: seq<Template>, t: Template, p: string)
    ensures InputArgs(ts + [t], p) == InputArgs(ts, p) + Format(t, p) + " "
  {
    if ts != [] {
      assert (ts + [t])[1..] == ts[1..] + [t];
      InputArgsSnoc(ts[1..], t, p);
    }
  }

  /** The `process_string` built for one step. */
  function Command(step: Step, p: string): string {
    var inputfiles := InputArgs(step.inputFiles, p);
    var outputfile := Format(step.outputFile, p);
    match step.pre
    case Some(pre) =>
      step.program + " " + Replace(pre, "%s", p) + " " + step.options + " " + inputfiles + " " + outputfile
    case None =>
      step.program + " " + step.options + " " + inputfiles + " " + outputfile
  }

  /** What `create_programlist(p)` returns: nothing for an empty prefix, else one line per step. */
  function ProgramList(p: string): seq<string> {
    if p == [] then [] else seq(|STEPS|, i requires 0 <= i < |STEPS| => Command(STEPS[i], p))
  }

  /** `create_programlist`: nothing for an empty prefix, else the expansion of the table. */
  method CreateProgramList(filenamePrefix: string) returns (programlist: seq<string>)
    ensures programlist == ProgramList(filenamePrefix)
  {
    programlist := [];
    if filenamePrefix != [] {
      programlist := ExpandSteps(STEPS, filenamePrefix);
    }
  }

  /** The two accumulating loops of `create_programlist`, over the entries of a table in order. */
  method ExpandSteps(steps: seq<Step>, filenamePrefix: string) returns (programlist: seq<string>)
    ensures programlist == seq(|steps|, i requires 0 <= i < |steps| => Command(steps[i], filenamePrefix))
  {
    programlist := [];
    var n := 0;
    while n < |steps|
      invariant 0 <= n <= |steps|
      invariant programlist == seq(n, i requires 0 <= i < n => Command(steps[i], filenamePrefix))
    {
      var v := steps[n];
      var inputfiles := "";
      var k := 0;
      while k < |v.inputFiles|
        invariant 0 <= k <= |v.inputFiles|
        invariant inputfiles == InputArgs(v.inputFiles[..k], filenamePrefix)
      {
        InputArgsSnoc(v.inputFiles[..k], v.inputFiles[k], filenamePrefix);
        assert v.inputFiles[..k + 1] == v.inputFiles[..k] + [v.inputFiles[k]];
        inputfiles := inputfiles + Format(v.inputFiles[k], filenamePrefix);
        inputfiles := inputfiles + " ";
        k := k + 1;
      }
      assert v.inputFiles[..k] == v.inputFiles;
      var outputfile := Format(v.outputFile, filenamePrefix);
      var processString;
      if v.pre.Some? {
        var pre := Replace(v.pre.value, "%s", filenamePrefix);
        processString := v.program + " " + pre + " " + v.options + " " + inputfiles + " " + outputfile;
      } else {
        processString := v.program + " " + v.options + " " + inputfiles + " " + outputfile;
      }
      programlist := programlist + [processString];
      n := n + 1;
    }
  }

  /** `create_programlist` gives seven lines for a non-empty prefix, none for an empty one, in table order. */
  lemma {:induction false} ProgramListShape(p: string)
    ensures |STEPS| == 7
    ensures |ProgramList(p)| == if p == [] then 0 else 7
    ensures forall i :: 0 <= i < |ProgramList(p)| ==> StartsWith(ProgramList(p)[i], STEPS[i].program + " ")
  {
    if p != [] {
      forall i | 0 <= i < 7 ensures StartsWith(ProgramList(p)[i], STEPS[i].program + " ") {
        assert ProgramList(p)[i] == Command(STEPS[i], p);
        CommandStartsWithProgram(STEPS[i], p);
      }
    }
  }

  /** Every command line begins with its program and a space. */
  lemma CommandStartsWithProgram(step: Step, p: string)
    ensures StartsWith(Command(step, p), step.program + " ")
  {
    var rest := if step.pre.Some? then Replace(step.pre.value, "%s", p) + " " + step.options else step.options;
    assert Command(step, p) == step.program + " " + (rest + " " + InputArgs(step.inputFiles, p) + " " + Format(step.outputFile, p));
  }

  /** The expanded input file names, in order. */
  function Formatted(ts: seq<Template>, p: string): (r: seq<string>)
    ensures |r| == |ts|
  {
    if ts == [] then [] else [Format(ts[0], p)] + Formatted(ts[1..], p)
  }

  /** No template of the step has a space around its placeholder. */
  predicate SpaceFree(step: Step) {
    forall i :: 0 <= i < |step.inputFiles| ==> ' ' !in step.inputFiles[i].before && ' ' !in step.inputFiles[i].after
  }

  /**
   * The argument vector that `program.split(" ")` hands to `Popen`, field by
   * field: the expanded inputs become one token each, and the space after the
   * last of them yields an empty token, as does an empty `options` field.
   */
  function Argv(step: Step, p: string): seq<string> {
    var preTokens := match step.pre
      case Some(pre) => Split(Replace(pre, "%s", p), ' ')
      case None => [];
    Split(step.program, ' ') + preTokens + Split(step.options, ' ')
      + Formatted(step.inputFiles, p) + [[]] + Split(Format(step.outputFile, p), ' ')
  }

  lemma {:induction false} InputTokens(ts: seq<Template>, p: string)
    requires ' ' !in p
    requires forall i :: 0 <= i < |ts| ==> ' ' !in ts[i].before && ' ' !in ts[i].after
    ensures Split(InputArgs(ts, p), ' ') == Formatted(ts, p) + [[]]
  {
    if ts != [] {
      InputTokens(ts[1..], p);
      var f := Format(ts[0], p);
      assert ' ' !in f;
      SplitNoSeparator(f, ' ');
      SplitAppend(f, InputArgs(ts[1..], p), ' ');
    }
  }

  /** Splitting a command line on single spaces yields exactly the argument vector above. */
  lemma CommandTokens(step: Step, p: string)
    requires ' ' !in p && SpaceFree(step)
    ensures Split(Command(step, p), ' ') == Argv(step, p)
  {
    InputTokens(step.inputFiles, p);
    if step.pre.Some? {
      PreTokens(step, p);
    } else {
      NoPreTokens(step, p);
    }
  }

  lemma PreTokens(step: Step, p: string)
    requires step.pre.Some?
    requires Split(InputArgs(step.inputFiles, p), ' ') == Formatted(step.inputFiles, p) + [[]]
    ensures Split(Command(step, p), ' ') == Argv(step, p)
  {
    var e := Replace(step.pre.value, "%s", p);
    SplitFiveFields(step.program, e, step.options, InputArgs(step.inputFiles, p), Format(step.outputFile, p));
  }

  lemma NoPreTokens(step: Step, p: string)
    requires step.pre.None?
    requires Split(InputArgs(step.inputFiles, p), ' ') == Formatted(step.inputFiles, p) + [[]]
    ensures Split(Command(step, p), ' ') == Argv(step, p)
  {
    ArgvWithoutPre(step, p);
    SplitFourFields(step.program, step.options, InputArgs(step.inputFiles, p), Format(step.outputFile, p));
  }

  /** Fields joined by single spaces split back into the fields' own pieces. */
  lemma SplitFourFields(a: string, b: string, c: string, d: string)
    ensures Split(a + " " + b + " " + c + " " + d, ' ') == Split(a, ' ') + Split(b, ' ') + Split(c, ' ') + Split(d, ' ')
  {
    SplitAppend(a, b, ' ');
    SplitAppend(a + " " + b, c, ' ');
    SplitAppend(a + " " + b + " " + c, d, ' ');
  }

  lemma SplitFiveFields(a: string, b: string, c: string, d: string, e: string)
    ensures Split(a + " " + b + " " + c + " " + d + " " + e, ' ') ==
      Split(a, ' ') + Split(b, ' ') + Split(c, ' ') + Split(d, ' ') + Split(e, ' ')
  {
    SplitFourFields(a, b, c, d);
    SplitAppend(a + " " + b + " " + c + " " + d, e, ' ');
  }

  /** The first line starts with the program, its option and the prefix, then a dot. */
  lemma FirstLineHead(p: string)
    ensures var c := Command(MRCONVERT, p);
      |c| > 20 + |p| && c[..19] == "mrconvert -fslgrad " && c[19..19 + |p|] == p && c[19 + |p|] == '.'
  {
    var c := Command(MRCONVERT, p);
    var tail := ".bvec " + InputArgs(MRCONVERT.inputFiles[1..], p) + " " + Format(MRCONVERT.outputFile, p);
    assert c == "mrconvert -fslgrad " + p + tail;
  }

  /** Different dot-free prefixes never expand to the same program list: the commands identify the subject. */
  lemma ExpansionInjective(p: string, q: string)
    requires '.' !in p && '.' !in q
    requires ProgramList(p) == ProgramList(q)
    ensures p == q
  {
    ProgramListShape(p);
    ProgramListShape(q);
    if p != [] {
      var c := Command(MRCONVERT, p);
      assert ProgramList(p)[0] == c && ProgramList(q)[0] == Command(MRCONVERT, q);
      FirstLineHead(p);
      FirstLineHead(q);
    }
  }

  /**
   * The steps are linked only by file names: each product of a step is named
   * among the arguments of a later one, whatever the prefix.
   */
  lemma DependencyChain(p: string)
    ensures Format(MRCONVERT.outputFile, p) == Format(DWIDENOISE.inputFiles[0], p)
    ensures Format(DWIPREPROC.outputFile, p) == Format(DWIBIASCORRECT.inputFiles[0], p)
    ensures Format(DWIBIASCORRECT.outputFile, p) == Format(DWI2MASK.inputFiles[0], p)
    ensures Format(DWIBIASCORRECT.outputFile, p) == Format(DWI2RESPONSE.inputFiles[0], p)
    ensures Format(DWIBIASCORRECT.outputFile, p) == Format(DWI2FOD.inputFiles[0], p)
    ensures Format(DWI2RESPONSE.outputFile, p) == Format(DWI2FOD.inputFiles[1], p)
    ensures Format(DWI2FOD.outputFile, p) == "-mask " + Format(DWI2MASK.outputFile, p)
  {
  }

  /** The denoised volume named by step 2 reaches step 3 through its `pre` field. */
  lemma DenoisedReachesPreproc(p: string)
    ensures Replace(DWIPREPROC.pre.value, "%s", p) == "AP " + Format(DWIDENOISE.inputFiles[1], p)
  {
    var t := Slot("AP ", "-dwi-denoised.mif");
    PreprocPreIsTemplate();
    FormatIsReplace(t, p);
    assert Format(t, p) == "AP " + Format(Slot("", "-dwi-denoised.mif"), p);
    assert DWIDENOISE.inputFiles[1] == Slot("", "-dwi-denoised.mif");
  }

  /** Step 3's `pre` is a plain template around its placeholder. */
  lemma PreprocPreIsTemplate()
    ensures DWIPREPROC.pre.value == Text(Slot("AP ", "-dwi-denoised.mif"))
    ensures Plain(Slot("AP ", "-dwi-denoised.mif"))
  {
  }

  /** Proof helper: the input string of one template. */
  lemma InputArgsOne(a: Template, p: string)
    ensures InputArgs([a], p) == Format(a, p) + " "
  {
    assert [a][1..] == [];
  }

  lemma InputArgsTwo(a: Template, b: Template, p: string)
    ensures InputArgs([a, b], p) == Format(a, p) + " " + Format(b, p) + " "
  {
    assert [a, b][1..] == [b];
    InputArgsOne(b, p);
  }

  lemma InputArgsThree(a: Template, b: Template, c: Template, p: string)
    ensures InputArgs([a, b, c], p) == Format(a, p) + " " + Format(b, p) + " " + Format(c, p) + " "
  {
    assert [a, b, c][1..] == [b, c];
    InputArgsTwo(b, c, p);
  }

  /** Proof helper: a step with a `pre` field has its expansion between the program and the options. */
  lemma CommandWithPre(step: Step, p: string, e: string)
    requires step.pre.Some? && Replace(step.pre.value, "%s", p) == e
    ensures Command(step, p) == step.program + " " + e + " " + step.options + " " + InputArgs(step.inputFiles, p) + " " + Format(step.outputFile, p)
  {
  }

  /** Proof helper: the concatenation identity behind `PreprocLine`. */
  lemma PreprocText(p: string)
    ensures "dwipreproc" + " " + ("AP " + (p + "-dwi-denoised.mif")) + " " + "-rpe_pair" + " " + ("AP" + p + ".nii.gz" + " " + ("PA" + p + ".nii.gz") + " ") + " " + (p + "-dwi-processed.mif")
      == "dwipreproc AP " + p + "-dwi-denoised.mif -rpe_pair AP" + p + ".nii.gz PA" + p + ".nii.gz  " + p + "-dwi-processed.mif"
  {
  }

  /** Proof helper: the concatenation identity behind `FodLine`. */
  lemma FodText(p: string)
    ensures "dwi2fod" + " " + "csd" + " " + "" + " " + (p + "-dwi-biascorrected.mif" + " " + (p + "-response.txt") + " " + (p + "-fod.mif") + " ") + " " + ("-mask " + p + "-dwi-mask.mif")
      == "dwi2fod csd  " + p + "-dwi-biascorrected.mif " + p + "-response.txt " + p + "-fod.mif  -mask " + p + "-dwi-mask.mif"
  {
  }

  /** `'csd'` has no placeholder, so `.replace` leaves it as it is. */
  lemma CsdUnchanged(p: string)
    ensures Replace(DWI2FOD.pre.value, "%s", p) == "csd"
  {
    NoPercentNoSlot("csd");
    ReplaceAbsent("csd", "%s", p);
  }

  lemma FodParts(p: string)
    ensures Command(DWI2FOD, p) == "dwi2fod" + " " + "csd" + " " + "" + " " + InputArgs(DWI2FOD.inputFiles, p) + " " + Format(DWI2FOD.outputFile, p)
  {
    CsdUnchanged(p);
    CommandWithPre(DWI2FOD, p, "csd");
  }

  /** Proof helper: a step without a `pre` field has the options right after the program. */
  lemma CommandWithoutPre(step: Step, p: string)
    requires step.pre.None?
    ensures Command(step, p) == step.program + " " + step.options + " " + InputArgs(step.inputFiles, p) + " " + Format(step.outputFile, p)
  {
  }

  /** Proof helper: the concatenation identity behind `MrconvertLine`. */
  lemma MrconvertText(p: string)
    ensures "mrconvert" + " " + "-fslgrad" + " " + (p + ".bvec" + " " + (p + ".bval") + " " + (p + "-dwi.nii.gz") + " ") + " " + (p + "-dwi.mif")
      == "mrconvert -fslgrad " + p + ".bvec " + p + ".bval " + p + "-dwi.nii.gz  " + p + "-dwi.mif"
  {
  }

  lemma MrconvertLine(p: string)
    ensures Command(MRCONVERT, p) == "mrconvert -fslgrad " + p + ".bvec " + p + ".bval " + p + "-dwi.nii.gz  " + p + "-dwi.mif"
  {
    var ins := InputArgs(MRCONVERT.inputFiles, p);
    InputArgsThree(Slot("", ".bvec"), Slot("", ".bval"), Slot("", "-dwi.nii.gz"), p);
    assert ins == p + ".bvec" + " " + (p + ".bval") + " " + (p + "-dwi.nii.gz") + " ";
    assert Format(MRCONVERT.outputFile, p) == p + "-dwi.mif";
    CommandWithoutPre(MRCONVERT, p);
    MrconvertText(p);
  }

  lemma DenoiseLine(p: string)
    ensures Command(DWIDENOISE, p) == "dwidenoise -noise " + p + "-dwi.mif " + p + "-dwi-denoised.mif  " + p + "-noise.mif"
  {
    InputArgsTwo(Slot("", "-dwi.mif"), Slot("", "-dwi-denoised.mif"), p);
  }

  lemma PreprocLine(p: string)
    ensures Command(DWIPREPROC, p) == "dwipreproc AP " + p + "-dwi-denoised.mif -rpe_pair AP" + p + ".nii.gz PA" + p + ".nii.gz  " + p + "-dwi-processed.mif"
  {
    DenoisedReachesPreproc(p);
    var ins := InputArgs(DWIPREPROC.inputFiles, p);
    InputArgsTwo(Slot("AP", ".nii.gz"), Slot("PA", ".nii.gz"), p);
    assert ins == "AP" + p + ".nii.gz" + " " + ("PA" + p + ".nii.gz") + " ";
    assert Format(DWIPREPROC.outputFile, p) == p + "-dwi-processed.mif";
    CommandWithPre(DWIPREPROC, p, "AP " + (p + "-dwi-denoised.mif"));
    PreprocText(p);
  }

  lemma BiasCorrectLine(p: string)
    ensures Command(DWIBIASCORRECT, p) == "dwibiascorrect -fsl " + p + "-dwi-processed.mif  " + p + "-dwi-biascorrected.mif"
  {
    InputArgsOne(Slot("", "-dwi-processed.mif"), p);
  }

  lemma MaskLine(p: string)
    ensures Command(DWI2MASK, p) == "dwi2mask  " + p + "-dwi-biascorrected.mif  " + p + "-dwi-mask.mif"
  {
    InputArgsOne(Slot("", "-dwi-biascorrected.mif"), p);
  }

  lemma ResponseLine(p: string)
    ensures Command(DWI2RESPONSE, p) == "dwi2response tournier " + p + "-dwi-biascorrected.mif  " + p + "-response.txt"
  {
    InputArgsOne(Slot("", "-dwi-biascorrected.mif"), p);
  }

  lemma FodLine(p: string)
    ensures Command(DWI2FOD, p) == "dwi2fod csd  " + p + "-dwi-biascorrected.mif " + p + "-response.txt " + p + "-fod.mif  -mask " + p + "-dwi-mask.mif"
  {
    FodParts(p);
    InputArgsThree(Slot("", "-dwi-biascorrected.mif"), Slot("", "-response.txt"), Slot("", "-fod.mif"), p);
    FodText(p);
  }

  /**
   * The seven command lines for a non-empty prefix, written out in full: the
   * lines the table expands to, with the doubled spaces the trailing space of
   * `inputfiles` and an empty `options` field leave behind.
   */
  lemma ProgramListSpelledOut(p: string)
    requires p != []
    ensures ProgramList(p) == [
      "mrconvert -fslgrad " + p + ".bvec " + p + ".bval " + p + "-dwi.nii.gz  " + p + "-dwi.mif",
      "dwidenoise -noise " + p + "-dwi.mif " + p + "-dwi-denoised.mif  " + p + "-noise.mif",
      "dwipreproc AP " + p + "-dwi-denoised.mif -rpe_pair AP" + p + ".nii.gz PA" + p + ".nii.gz  " + p + "-dwi-processed.mif",
      "dwibiascorrect -fsl " + p + "-dwi-processed.mif  " + p + "-dwi-biascorrected.mif",
      "dwi2mask  " + p + "-dwi-biascorrected.mif  " + p + "-dwi-mask.mif",
      "dwi2response tournier " + p + "-dwi-biascorrected.mif  " + p + "-response.txt",
      "dwi2fod csd  " + p + "-dwi-biascorrected.mif " + p + "-response.txt " + p + "-fod.mif  -mask " + p + "-dwi-mask.mif"]
  {
    ProgramListByStep(p);
    MrconvertLine(p);
    DenoiseLine(p);
    PreprocLine(p);
    BiasCorrectLine(p);
    MaskLine(p);
    ResponseLine(p);
    FodLine(p);
  }

  /** Proof helper: for a non-empty prefix, entry `i` of the list is step `i`'s line. */
  lemma ProgramListByStep(p: string)
    requires p != []
    ensures ProgramList(p) == [Command(MRCONVERT, p), Command(DWIDENOISE, p), Command(DWIPREPROC, p),
      Command(DWIBIASCORRECT, p), Command(DWI2MASK, p), Command(DWI2RESPONSE, p), Command(DWI2FOD, p)]
  {
  }

  /** Proof helper: the argument vector of a step without `pre`, unfolded. */
  lemma ArgvWithoutPre(step: Step, p: string)
    requires step.pre.None?
    ensures Argv(step, p) == Split(step.program, ' ') + Split(step.options, ' ') + Formatted(step.inputFiles, p) + [[]] + Split(Format(step.outputFile, p), ' ')
  {
  }

  lemma MaskWords()
    ensures Split(DWI2MASK.program, ' ') == ["dwi2mask"] && Split(DWI2MASK.options, ' ') == [""]
  {
    SplitNoSeparator("dwi2mask", ' ');
  }

  /** Proof helper: one template gives one expansion. */
  lemma FormattedOne(t: Template, p: string)
    ensures Formatted([t], p) == [Format(t, p)]
  {
    assert [t][1..] == [];
  }

  lemma MaskInputs(p: string)
    ensures Formatted(DWI2MASK.inputFiles, p) == [p + "-dwi-biascorrected.mif"]
  {
    var t := Slot("", "-dwi-biascorrected.mif");
    assert DWI2MASK.inputFiles == [t];
    FormattedOne(t, p);
    assert Format(t, p) == p + "-dwi-biascorrected.mif";
  }

  lemma MaskOutput(p: string)
    requires ' ' !in p
    ensures Split(Format(DWI2MASK.outputFile, p), ' ') == [p + "-dwi-mask.mif"]
  {
    var o := p + "-dwi-mask.mif";
    assert Format(DWI2MASK.outputFile, p) == o;
    SplitNoSeparator(o, ' ');
  }

  lemma MaskArgv(p: string)
    requires ' ' !in p
    ensures Argv(DWI2MASK, p) == ["dwi2mask", "", p + "-dwi-biascorrected.mif", "", p + "-dwi-mask.mif"]
  {
    MaskWords();
    MaskInputs(p);
    MaskOutput(p);
    ArgvOfParts(DWI2MASK, p, "dwi2mask", "", p + "-dwi-biascorrected.mif", p + "-dwi-mask.mif");
  }

  /** The argument vector of a step without `pre` whose program, options, single input and output are one word each. */
  lemma ArgvOfParts(step: Step, p: string, program: string, options: string, input: string, output: string)
    requires step.pre.None?
    requires Split(step.program, ' ') == [program] && Split(step.options, ' ') == [options]
    requires Formatted(step.inputFiles, p) == [input]
    requires Split(Format(step.outputFile, p), ' ') == [output]
    ensures Argv(step, p) == [program, options, input, "", output]
  {
    ArgvWithoutPre(step, p);
  }

  /** The empty `options` field and the trailing space after the inputs give empty arguments. */
  lemma MaskTokens(p: string)
    requires p != [] && ' ' !in p
    ensures Split(ProgramList(p)[4], ' ') == ["dwi2mask", "", p + "-dwi-biascorrected.mif", "", p + "-dwi-mask.mif"]
  {
    assert ProgramList(p)[4] == Command(DWI2MASK, p);
    assert SpaceFree(DWI2MASK);
    CommandTokens(DWI2MASK, p);
    MaskArgv(p);
  }
}
