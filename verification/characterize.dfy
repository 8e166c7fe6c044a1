/** `characterize` of emixa/characterization.py: take the test name off the
    argument list, expand the remaining arguments into runs, run the
    harness once per run, classify its output and read back the binary
    error file, collecting one result per run. The harness (the `sbt`
    subprocess together with the file it writes) is a parameter. */
module Characterize {
  import opened Wrappers
  import opened BigEndian
  import opened Results
  import opened Ranges
  import opened Sweep
  import opened Console
  import opened Decoders
  import opened TwosComplement

  /** What one harness run leaves behind: the console output and the bytes
      of `./output/{name}/errors.bin`. */
  datatype RunOutput = RunOutput(stdout: string, errors: seq<Byte>)

  /** The exceptions `characterize` lets escape. `NotAnArray` is raised
      only by the code as written (`ExhaustiveCharAsWritten`); the batch
      loop below hands the exhaustive grid over as intended, so `RunAll`
      never produces it. */
  datatype Crash =
    | NoTestName                       // `args.pop(0)` on an empty list
    | ZeroStepRange                    // `range(s, s, 0)` in `parse_range`
    | BadInfoLine(info: InfoError)    // indexing the metadata line
    | UnknownFirstKind(chartype: string) // `conf` read before any assignment
    | BadErrorFile(cause: DecodeError) // reading or unpacking `errors.bin`
    | NotAnArray                       // the `ndarray` assertion of `ExhaustiveChar`

  /** A list of results, `None` after a verdict, or an exception. */
  datatype Outcome =
    | Completed(results: seq<Characterization>)
    | Aborted(verdict: Verdict)
    | Raised(crash: Crash)

  /** The result of one run: a result to append, or the end of the batch. */
  datatype Step = Next(conf: Characterization) | Halt(outcome: Outcome)

  const Kinds: set<string> := {"exhaustive", "random2d", "random3d"}

  /** The reader the test kind selects. */
  function Decode(chartype: string, bytes: seq<Byte>): (r: Result<(Data, int), DecodeError>)
    requires chartype in Kinds
    ensures r.Ok? && chartype == "exhaustive" ==> r.value.0.Exhaustive?
    ensures r.Ok? && chartype == "random2d" ==> r.value.0.Random2D?
    ensures r.Ok? && chartype == "random3d" ==> r.value.0.Random3D?
  {
    if chartype == "exhaustive" then ReadExhaustive(bytes)
    else if chartype == "random2d" then ReadRandom2D(bytes)
    else ReadRandom3D(bytes)
  }

  /** Lines 242-290 for one run. A test kind other than the three known
      ones assigns nothing, so the `conf` of the previous run is appended
      again; on the first run there is none to read. An exhaustive run
      builds its result from the decoded grid directly: as written, line
      278 would fail the `ndarray` assertion of `ExhaustiveChar` on every
      exhaustive run (`ExhaustiveAlwaysAsserts`). */
  function RunStep(name: string, ps: seq<Param>, out: RunOutput, prev: Option<Characterization>): (s: Step)
    ensures s.Halt? ==> !s.outcome.Completed?
  {
    match Classify(out.stdout, name)
    case Stop(v) => Halt(Aborted(v))
    case Crash(e) => Halt(Raised(BadInfoLine(e)))
    case Proceed(chartype, sgn, kind) =>
      if chartype in Kinds then
        match Decode(chartype, out.errors)
        case Err(e) => Halt(Raised(BadErrorFile(e)))
        case Ok((data, width)) => Next(Characterization(data, name, sgn, width, kind, ps))
      else
        match prev
        case None => Halt(Raised(UnknownFirstKind(chartype)))
        case Some(c) => Next(c)
  }

  /** The harness output of the run with parameters `ps`. */
  function Output(harness: string -> RunOutput, name: string, ps: seq<Param>): RunOutput {
    harness(Command(name, ps))
  }

  /** The loop over the runs, in order. */
  function RunAll(name: string, runs: seq<seq<Param>>, harness: string -> RunOutput,
                  prev: Option<Characterization>): (o: Outcome)
    ensures o.Completed? ==> |o.results| == |runs|
    decreases |runs|
  {
    if |runs| == 0 then Completed([])
    else
      match RunStep(name, runs[0], Output(harness, name, runs[0]), prev)
      case Halt(o) => o
      case Next(c) =>
        match RunAll(name, runs[1..], harness, Some(c))
        case Completed(rs) => Completed([c] + rs)
        case other => other
  }

  /** `characterize(args, kvargmap)`; `kvargmap` only switches printing. */
  function Characterize(args: seq<string>, harness: string -> RunOutput): (o: Outcome)
    ensures |args| == 0 ==> o == Raised(NoTestName)
    ensures |args| > 0 && ParseArgs(args[1..]).Err? ==> o == Raised(ZeroStepRange)
  {
    if |args| == 0 then Raised(NoTestName)
    else
      match ParseArgs(args[1..])
      case Err(_) => Raised(ZeroStepRange)
      case Ok(params) => RunAll(args[0], Runs(params), harness, None)
  }

  /* --------------------------------------------------------------- lemmas */

  /** A completed batch has one result per run, and result `k` is what run
      `k` produced given result `k - 1` (or `prev`) as the previous
      `conf`. */
  lemma {:induction false} RunAllSteps(name: string, runs: seq<seq<Param>>,
                                       harness: string -> RunOutput, prev: Option<Characterization>)
    requires RunAll(name, runs, harness, prev).Completed?
    ensures |RunAll(name, runs, harness, prev).results| == |runs|
    ensures forall k :: 0 <= k < |runs| ==>
      RunStep(name, runs[k], Output(harness, name, runs[k]),
              if k == 0 then prev else Some(RunAll(name, runs, harness, prev).results[k - 1]))
        == Next(RunAll(name, runs, harness, prev).results[k])
    decreases |runs|
  {
    if |runs| > 0 {
      var c := RunStep(name, runs[0], Output(harness, name, runs[0]), prev).conf;
      RunAllSteps(name, runs[1..], harness, Some(c));
      var rs := RunAll(name, runs, harness, prev).results;
      var rest := RunAll(name, runs[1..], harness, Some(c)).results;
      assert rs == [c] + rest;
      forall k | 1 <= k < |runs|
        ensures RunStep(name, runs[k], Output(harness, name, runs[k]), Some(rs[k - 1])) == Next(rs[k])
      {
        assert runs[1..][k - 1] == runs[k];
        assert rs[k] == rest[k - 1];
        if k > 1 { assert rs[k - 1] == rest[k - 2]; }
      }
    }
  }

  /** What result `k` of a completed batch holds. When run `k` reports one
      of the three known test kinds, it is that run's data, read from its
      error file, with the run's name, signedness, width, module and
      parameters. Otherwise it is result `k - 1` once more, so it carries
      the parameters of an earlier run. */
  lemma CompletedResult(name: string, runs: seq<seq<Param>>, harness: string -> RunOutput, k: nat)
    requires RunAll(name, runs, harness, None).Completed? && k < |runs|
    ensures Classify(Output(harness, name, runs[k]).stdout, name).Proceed?
    ensures var c := Classify(Output(harness, name, runs[k]).stdout, name);
      var r := RunAll(name, runs, harness, None).results[k];
      if c.chartype in Kinds then
        Decode(c.chartype, Output(harness, name, runs[k]).errors) == Ok((r.data, r.width))
        && r.name == name && r.sgn == c.sgn && r.kind == c.kind && r.params == runs[k]
      else
        k > 0 && r == RunAll(name, runs, harness, None).results[k - 1]
  {
    RunAllSteps(name, runs, harness, None);
    var rs := RunAll(name, runs, harness, None).results;
    var prev := if k == 0 then None else Some(rs[k - 1]);
    assert RunStep(name, runs[k], Output(harness, name, runs[k]), prev) == Next(rs[k]);
    StepNext(name, runs[k], Output(harness, name, runs[k]), prev, rs[k]);
  }

  /** What a step that continues appends. */
  lemma StepNext(name: string, ps: seq<Param>, out: RunOutput, prev: Option<Characterization>, r: Characterization)
    requires RunStep(name, ps, out, prev) == Next(r)
    ensures Classify(out.stdout, name).Proceed?
    ensures var c := Classify(out.stdout, name);
      if c.chartype in Kinds then
        Decode(c.chartype, out.errors) == Ok((r.data, r.width))
        && r.name == name && r.sgn == c.sgn && r.kind == c.kind && r.params == ps
      else
        prev == Some(r)
  {
  }

  /** A batch only completes when every run's output got past the
      markers and named an adder or multiplier: a single run that stops
      discards every result collected before it. */
  lemma CompletedOnlyWithoutVerdicts(name: string, runs: seq<seq<Param>>, harness: string -> RunOutput,
                                     prev: Option<Characterization>)
    requires RunAll(name, runs, harness, prev).Completed?
    ensures forall k :: 0 <= k < |runs| ==> Classify(Output(harness, name, runs[k]).stdout, name).Proceed?
  {
    RunAllSteps(name, runs, harness, prev);
    var rs := RunAll(name, runs, harness, prev).results;
    forall k | 0 <= k < |runs|
      ensures Classify(Output(harness, name, runs[k]).stdout, name).Proceed?
    {
      var p := if k == 0 then prev else Some(rs[k - 1]);
      StepNext(name, runs[k], Output(harness, name, runs[k]), p, rs[k]);
    }
  }

  /** An aborted batch reports the verdict of one of its runs. */
  lemma {:induction false} AbortedByARun(name: string, runs: seq<seq<Param>>, harness: string -> RunOutput,
                                         prev: Option<Characterization>)
    requires RunAll(name, runs, harness, prev).Aborted?
    ensures exists k :: 0 <= k < |runs| && Classify(Output(harness, name, runs[k]).stdout, name)
                                         == Stop(RunAll(name, runs, harness, prev).verdict)
    decreases |runs|
  {
    var s := RunStep(name, runs[0], Output(harness, name, runs[0]), prev);
    if s.Next? {
      AbortedByARun(name, runs[1..], harness, Some(s.conf));
      var k :| 0 <= k < |runs| - 1 &&
        Classify(Output(harness, name, runs[1..][k]).stdout, name) ==
        Stop(RunAll(name, runs[1..], harness, Some(s.conf)).verdict);
      assert runs[1..][k] == runs[k + 1];
    }
  }

  /** An unknown test kind on the very first run raises. */
  lemma UnknownKindFirst(name: string, runs: seq<seq<Param>>, harness: string -> RunOutput)
    requires |runs| > 0
    requires Classify(Output(harness, name, runs[0]).stdout, name).Proceed?
    requires Classify(Output(harness, name, runs[0]).stdout, name).chartype !in Kinds
    ensures RunAll(name, runs, harness, None) ==
      Raised(UnknownFirstKind(Classify(Output(harness, name, runs[0]).stdout, name).chartype))
  {
  }

  /** The harness is run once per combination of the range arguments: a
      completed batch is the loop over the runs of the parsed arguments,
      one result per element of the product, and result `k` carries the
      data, width and parameters of the `k`-th command's output when that
      output names one of the three known kinds. */
  lemma CharacterizeRuns(args: seq<string>, harness: string -> RunOutput)
    requires Characterize(args, harness).Completed?
    ensures |args| > 0 && ParseArgs(args[1..]).Ok?
    ensures |Characterize(args, harness).results| == Count(SweptLists(ParseArgs(args[1..]).value))
    ensures Characterize(args, harness) == RunAll(args[0], Runs(ParseArgs(args[1..]).value), harness, None)
    ensures forall k :: 0 <= k < |Characterize(args, harness).results| ==>
      Classify(Output(harness, args[0], Runs(ParseArgs(args[1..]).value)[k]).stdout, args[0]).Proceed?
    ensures forall k :: 0 <= k < |Characterize(args, harness).results| ==>
      var out := Output(harness, args[0], Runs(ParseArgs(args[1..]).value)[k]);
      var r := Characterize(args, harness).results[k];
      Classify(out.stdout, args[0]).chartype in Kinds ==>
        Decode(Classify(out.stdout, args[0]).chartype, out.errors) == Ok((r.data, r.width))
        && r.params == Runs(ParseArgs(args[1..]).value)[k]
  {
    var runs := Runs(ParseArgs(args[1..]).value);
    forall k | 0 <= k < |runs|
      ensures Classify(Output(harness, args[0], runs[k]).stdout, args[0]).Proceed?
      ensures var out := Output(harness, args[0], runs[k]);
        var r := RunAll(args[0], runs, harness, None).results[k];
        Classify(out.stdout, args[0]).chartype in Kinds ==>
          Decode(Classify(out.stdout, args[0]).chartype, out.errors) == Ok((r.data, r.width))
          && r.params == runs[k]
    {
      CompletedResult(args[0], runs, harness, k);
    }
  }

  /* ----------------------------------------------- the exhaustive result */

  /** The two shapes of grid `ExhaustiveChar` could receive. */
  datatype PyGrid = PyList(rows: seq<seq<int>>) | NdArray(rows: seq<seq<int>>)

  /** `read_data_exhaustive` as written: it builds its grid with a list
      comprehension, so the grid it returns is a plain list. */
  function ReadExhaustiveAsWritten(bytes: seq<Byte>): (r: Result<(PyGrid, int), DecodeError>)
    ensures r.Ok? <==> ReadExhaustive(bytes).Ok?
    ensures r.Ok? ==> r.value.0 == PyList(ReadExhaustive(bytes).value.0.grid)
  {
    match ReadExhaustive(bytes)
    case Err(e) => Err(e)
    case Ok((data, w)) => Ok((PyList(data.grid), w))
  }

  /** `ExhaustiveChar(...)` as written: it asserts that the data is an
      `ndarray`. */
  function ExhaustiveCharAsWritten(data: PyGrid, name: string, sgn: bool, width: int,
                                   kind: Module, params: seq<Param>): (r: Result<Characterization, Crash>)
    ensures r.Ok? <==> data.NdArray?
    ensures r.Ok? ==> r.value.data == Exhaustive(data.rows) && r.value.params == params
  {
    if data.NdArray? then Ok(Characterization(Exhaustive(data.rows), name, sgn, width, kind, params))
    else Err(NotAnArray)
  }

  /** As written, every successfully read exhaustive characterization fails
      the assertion: no exhaustive run can ever produce a result. */
  lemma ExhaustiveAlwaysAsserts(bytes: seq<Byte>, name: string, sgn: bool, kind: Module, params: seq<Param>)
    requires ReadExhaustiveAsWritten(bytes).Ok?
    ensures ExhaustiveCharAsWritten(ReadExhaustiveAsWritten(bytes).value.0, name, sgn,
      ReadExhaustiveAsWritten(bytes).value.1, kind, params) == Err(NotAnArray)
  {
  }

  /** With the grid handed over as intended, an exhaustive run yields the
      `2^w x 2^w` grid read from the error file, row `a` holding the
      errors for first operand `a`. */
  lemma ExhaustiveStep(name: string, ps: seq<Param>, out: RunOutput, prev: Option<Characterization>)
    requires Classify(out.stdout, name).Proceed? && Classify(out.stdout, name).chartype == "exhaustive"
    requires ReadExhaustive(out.errors).Ok?
    ensures RunStep(name, ps, out, prev).Next?
    ensures var r := RunStep(name, ps, out, prev).conf;
      r.data.Exhaustive? && r.width >= 0 && |r.data.grid| == Pow2(r.width)
      && (forall i :: 0 <= i < |r.data.grid| ==> |r.data.grid[i]| == Pow2(r.width))
      && Flatten(r.data.grid) == Words(out.errors[8..])
      && r.params == ps && r.name == name
  {
  }
}
