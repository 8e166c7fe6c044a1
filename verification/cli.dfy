/** `emixa(args)` of emixa.py: read the flags, decide whether there is
    anything to do, characterize the positional arguments and hand the
    results to `funcgen` and `visualize` as the flags ask. Console output is
    left out; the outcome says which `return` the call reaches. */
module Cli {
  import opened Wrappers
  import opened Strings
  import opened Results
  import opened Batch
  import Console
  import Sweep
  import Characterize
  import Synthesis
  import Visualization

  /** An argument that starts with `-` is a flag, whatever follows. */
  predicate IsFlag(a: string) {
    |a| > 0 && a[0] == '-'
  }

  /** `kvarg.lower().replace('-', '')` */
  function Key(a: string): (k: string)
    ensures '-' !in k
  {
    Remove(Lower(a), '-')
  }

  /** The keys that set a flag; any other key is only warned about. */
  const HelpKeys: set<string> := {"h", "help"}
  const FunctionKeys: set<string> := {"f", "function"}
  const PlotKeys: set<string> := {"p", "plot"}
  const VerboseKeys: set<string> := {"v", "verbose"}

  predicate Known(k: string) {
    k in HelpKeys || k in FunctionKeys || k in PlotKeys || k in VerboseKeys
  }

  /** `kvargmap`, plus the keys warned about, in order. */
  datatype Options = Options(help: bool, funcs: bool, plots: bool, verbose: bool, unknown: seq<string>)

  /** One iteration of the flag loop. */
  function Note(o: Options, a: string): Options {
    if !IsFlag(a) then o
    else
      var k := Key(a);
      if k in HelpKeys then o.(help := true)
      else if k in FunctionKeys then o.(funcs := true)
      else if k in PlotKeys then o.(plots := true)
      else if k in VerboseKeys then o.(verbose := true)
      else o.(unknown := o.unknown + [k])
  }

  /** The flag loop over every argument. */
  function ReadOptions(args: seq<string>): (o: Options)
    ensures |o.unknown| <= |args|
    decreases |args|
  {
    if |args| == 0 then Options(false, false, false, false, [])
    else Note(ReadOptions(args[..|args| - 1]), args[|args| - 1])
  }

  /** Some argument is a flag whose key is one of `keys`. */
  predicate Given(args: seq<string>, keys: set<string>) {
    exists a :: a in args && IsFlag(a) && Key(a) in keys
  }

  lemma GivenSnoc(init: seq<string>, last: string, keys: set<string>)
    ensures Given(init + [last], keys) <==> Given(init, keys) || (IsFlag(last) && Key(last) in keys)
  {
    assert forall a :: a in init + [last] <==> a in init || a == last;
  }

  /** Each flag is set exactly when some argument's key names it, wherever
      it stands and however often it is repeated; the warnings are the keys
      of the other flags. */
  lemma ReadOptionsFlags(args: seq<string>)
    ensures ReadOptions(args).help <==> Given(args, HelpKeys)
    ensures ReadOptions(args).funcs <==> Given(args, FunctionKeys)
    ensures ReadOptions(args).plots <==> Given(args, PlotKeys)
    ensures ReadOptions(args).verbose <==> Given(args, VerboseKeys)
    ensures forall k :: k in ReadOptions(args).unknown <==> !Known(k) && Given(args, {k})
  {
    ReadOptionsSwitches(args);
    ReadOptionsUnknown(args);
  }

  /** The four switches: each is on iff one of its keys is given. */
  lemma {:induction false} ReadOptionsSwitches(args: seq<string>)
    ensures ReadOptions(args).help <==> Given(args, HelpKeys)
    ensures ReadOptions(args).funcs <==> Given(args, FunctionKeys)
    ensures ReadOptions(args).plots <==> Given(args, PlotKeys)
    ensures ReadOptions(args).verbose <==> Given(args, VerboseKeys)
    decreases |args|
  {
    if |args| > 0 {
      var init, last := args[..|args| - 1], args[|args| - 1];
      assert args == init + [last];
      ReadOptionsSwitches(init);
      NoteSwitches(ReadOptions(init), last);
      GivenSnoc(init, last, HelpKeys);
      GivenSnoc(init, last, FunctionKeys);
      GivenSnoc(init, last, PlotKeys);
      GivenSnoc(init, last, VerboseKeys);
    }
  }

  /** One argument turns on the switch its key names, and no other. */
  lemma NoteSwitches(o: Options, a: string)
    ensures Note(o, a).help <==> o.help || (IsFlag(a) && Key(a) in HelpKeys)
    ensures Note(o, a).funcs <==> o.funcs || (IsFlag(a) && Key(a) in FunctionKeys)
    ensures Note(o, a).plots <==> o.plots || (IsFlag(a) && Key(a) in PlotKeys)
    ensures Note(o, a).verbose <==> o.verbose || (IsFlag(a) && Key(a) in VerboseKeys)
  {
    assert HelpKeys !! FunctionKeys !! PlotKeys !! VerboseKeys;
  }

  /** The warnings: a key is warned about iff it is given and names no
      switch. */
  lemma {:induction false} ReadOptionsUnknown(args: seq<string>)
    ensures forall k :: k in ReadOptions(args).unknown <==> !Known(k) && Given(args, {k})
    decreases |args|
  {
    if |args| > 0 {
      var init, last := args[..|args| - 1], args[|args| - 1];
      assert args == init + [last];
      ReadOptionsUnknown(init);
      forall k ensures k in ReadOptions(args).unknown <==> !Known(k) && Given(args, {k}) {
        GivenSnoc(init, last, {k});
      }
    }
  }

  /** `list(filter(lambda arg: not arg.startswith('-'), args))` */
  function Positionals(args: seq<string>): (r: seq<string>)
    ensures forall a :: a in r <==> a in args && !IsFlag(a)
    ensures |r| <= |args|
    decreases |args|
  {
    if |args| == 0 then []
    else (if IsFlag(args[0]) then [] else [args[0]]) + Positionals(args[1..])
  }

  /** Without flags the positional arguments are the arguments, in their
      order. */
  lemma {:induction false} PositionalsWithoutFlags(args: seq<string>)
    requires forall i :: 0 <= i < |args| ==> !IsFlag(args[i])
    ensures Positionals(args) == args
    decreases |args|
  {
    if |args| > 0 {
      PositionalsWithoutFlags(args[1..]);
      assert [args[0]] + args[1..] == args;
    }
  }

  /** Flags are dropped wherever they stand. */
  lemma {:induction false} PositionalsSkipFlag(pre: seq<string>, flag: string, post: seq<string>)
    requires IsFlag(flag)
    ensures Positionals(pre + [flag] + post) == Positionals(pre + post)
    decreases |pre|
  {
    if |pre| == 0 {
      assert pre + [flag] + post == [flag] + post;
      assert ([flag] + post)[1..] == post;
      assert pre + post == post;
    } else {
      assert (pre + [flag] + post)[0] == pre[0];
      assert (pre + [flag] + post)[1..] == pre[1..] + [flag] + post;
      assert (pre + post)[1..] == pre[1..] + post;
      PositionalsSkipFlag(pre[1..], flag, post);
    }
  }

  /** A negative number is a flag too: `-5` never reaches the test, and it
      only draws a warning about the key `5`. */
  lemma NegativeNumberIsFlag()
    ensures IsFlag("-5") && Key("-5") == "5" && !Known("5")
  {
    assert Lower("-5") == "-5";
    assert Remove("-5", '-') == Remove("5", '-');
    assert Remove("5", '-') == "5" + Remove("", '-');
  }

  /** Case and dashes do not matter: `--Plot` asks for plots. */
  lemma DashesAndCaseIgnored()
    ensures Key("--Plot") == "plot" && Key("--Plot") in PlotKeys
  {
    assert Lower("--Plot") == "--plot";
    assert Remove("--plot", '-') == Remove("plot", '-');
    assert Remove("plot", '-') == "p" + Remove("lot", '-');
    assert Remove("lot", '-') == "l" + Remove("ot", '-');
    assert Remove("ot", '-') == "o" + Remove("t", '-');
    assert Remove("t", '-') == "t" + Remove("", '-');
  }

  /** Which `return` the call reaches. */
  datatype Exit =
    | ShowHelp                                     // the help flag
    | NothingRequested                             // neither `-f` nor `-p`
    | NoTestName                                   // no positional argument
    | InvalidData                                  // `characterize` returned `None`
    | CharacterizeRaised(crash: Characterize.Crash)
    | FuncGenRaised(synth: Synthesis.SynthError)
    | VisualizeRaised(vis: Visualization.VisError)
    | Finished(funcpaths: Option<seq<string>>, plotpaths: Option<seq<string>>)

  function EmittedPaths<W>(gs: seq<Synthesis.Emitted<W>>): (ps: seq<string>)
    ensures |ps| == |gs|
    ensures forall k :: 0 <= k < |gs| ==> ps[k] == gs[k].path
  {
    seq(|gs|, k requires 0 <= k < |gs| => gs[k].path)
  }

  /** Lines 86-87: `funcgen` first, and only with `-f`; `visualize` next,
      and only with `-p`. */
  function Process<W>(chars: seq<Characterization>, o: Options, fit: seq<(int, seq<BigEndian.Byte>)> -> Option<W>)
    : (e: Exit)
    requires Indexable(chars)
    ensures e.Finished? || e.FuncGenRaised? || e.VisualizeRaised?
    ensures e.FuncGenRaised? ==> o.funcs
    ensures e.VisualizeRaised? ==> o.plots && (o.funcs ==> Synthesis.FuncGen(chars, fit).Ok?)
    ensures e.Finished? ==> (e.funcpaths.Some? <==> o.funcs && |chars| > 0)
    ensures e.Finished? ==> (e.plotpaths.Some? <==> o.plots && |chars| > 0)
    ensures e.Finished? && e.funcpaths.Some? ==> |e.funcpaths.value| == |chars|
    ensures e.Finished? && e.plotpaths.Some? ==> |e.plotpaths.value| == Visualization.PlotCounts(chars)
  {
    var fr := if o.funcs then Synthesis.FuncGen(chars, fit) else Ok(None);
    match fr
    case Err(x) => FuncGenRaised(x)
    case Ok(gs) =>
      var fp := if gs.Some? then Some(EmittedPaths(gs.value)) else None;
      var vr := if o.plots then Visualization.Visualize(chars) else Ok(None);
      match vr
      case Err(x) => VisualizeRaised(x)
      case Ok(pp) => Finished(fp, pp)
  }

  /** A completed loop keeps one result per run, each carrying the
      parameters of its own run or of an earlier one. */
  lemma {:induction false} RunAllParams(name: string, runs: seq<seq<Param>>,
                                        harness: string -> Characterize.RunOutput, n: nat, k: nat)
    requires Characterize.RunAll(name, runs, harness, None).Completed? && k < |runs|
    requires forall j :: 0 <= j < |runs| ==> |runs[j]| == n
    ensures |Characterize.RunAll(name, runs, harness, None).results[k].params| == n
    decreases k
  {
    Characterize.CompletedResult(name, runs, harness, k);
    var c := Console.Classify(Characterize.Output(harness, name, runs[k]).stdout, name);
    if c.chartype !in Characterize.Kinds {
      RunAllParams(name, runs, harness, n, k - 1);
    }
  }

  /** Every result of a completed batch carries one parameter per
      argument after the test name, so the batch can be indexed by
      parameter position. */
  lemma RunsWidth(params: seq<Sweep.Arg>, n: nat)
    requires |params| == n
    ensures forall j :: 0 <= j < |Sweep.Runs(params)| ==> |Sweep.Runs(params)[j]| == n
  {
    var runs := Sweep.Runs(params);
    forall j | 0 <= j < |runs| ensures |runs[j]| == n {
      if |params| > 0 {
        Sweep.RunsShape(params, j, 0);
      } else {
        assert |runs[j]| == |params|;
      }
    }
  }

  lemma CompletedIndexable(args: seq<string>, harness: string -> Characterize.RunOutput)
    requires Characterize.Characterize(args, harness).Completed?
    ensures forall k :: 0 <= k < |Characterize.Characterize(args, harness).results| ==>
      |Characterize.Characterize(args, harness).results[k].params| == |args| - 1
    ensures Indexable(Characterize.Characterize(args, harness).results)
  {
    Characterize.CharacterizeRuns(args, harness);
    var params := Sweep.ParseArgs(args[1..]).value;
    var runs := Sweep.Runs(params);
    assert Characterize.Characterize(args, harness) == Characterize.RunAll(args[0], runs, harness, None);
    RunsWidth(params, |args| - 1);
    forall k | 0 <= k < |runs| ensures |Characterize.RunAll(args[0], runs, harness, None).results[k].params| == |args| - 1 {
      RunAllParams(args[0], runs, harness, |args| - 1, k);
    }
  }

  /** `emixa(args)`. The harness and the regression are parameters. */
  function Emixa<W>(args: seq<string>, harness: string -> Characterize.RunOutput,
                    fit: seq<(int, seq<BigEndian.Byte>)> -> Option<W>): (e: Exit)
    ensures ReadOptions(args).help ==> e == ShowHelp
    ensures !ReadOptions(args).help && !ReadOptions(args).funcs && !ReadOptions(args).plots ==> e == NothingRequested
    ensures e.Finished? || e.FuncGenRaised? || e.VisualizeRaised? ==>
      Characterize.Characterize(Positionals(args), harness).Completed?
  {
    var o := ReadOptions(args);
    if o.help then ShowHelp
    else if !o.funcs && !o.plots then NothingRequested
    else
      var pos := Positionals(args);
      if |pos| == 0 then NoTestName
      else
        match Characterize.Characterize(pos, harness)
        case Raised(c) => CharacterizeRaised(c)
        case Aborted(_) => InvalidData
        case Completed(chars) =>
          CompletedIndexable(pos, harness);
          Process(chars, o, fit)
  }

  /** The help flag wins over every other flag, and nothing runs. */
  lemma HelpWins<W>(args: seq<string>, h: string -> Characterize.RunOutput,
                    fit: seq<(int, seq<BigEndian.Byte>)> -> Option<W>, i: nat)
    requires i < |args| && IsFlag(args[i]) && Key(args[i]) in HelpKeys
    ensures Emixa(args, h, fit) == ShowHelp
  {
    assert args[i] in args;
    ReadOptionsFlags(args);
  }

  /** Without `-f` or `-p` the harness is never run, even with `-v`: the
      outcome is the same whatever the harness does. */
  lemma NeedsAnOutput<W>(args: seq<string>, h1: string -> Characterize.RunOutput,
                         h2: string -> Characterize.RunOutput, fit: seq<(int, seq<BigEndian.Byte>)> -> Option<W>)
    requires forall a :: a in args && IsFlag(a) ==> Key(a) !in FunctionKeys && Key(a) !in PlotKeys
    ensures Emixa(args, h1, fit) == Emixa(args, h2, fit)
    ensures Emixa(args, h1, fit) in {ShowHelp, NothingRequested}
  {
    ReadOptionsFlags(args);
  }

  /** With only flags there is no test to run. */
  lemma OnlyFlags<W>(args: seq<string>, h: string -> Characterize.RunOutput,
                     fit: seq<(int, seq<BigEndian.Byte>)> -> Option<W>)
    requires forall a :: a in args ==> IsFlag(a)
    requires !ReadOptions(args).help && (ReadOptions(args).funcs || ReadOptions(args).plots)
    ensures Emixa(args, h, fit) == NoTestName
  {
    if |Positionals(args)| > 0 {
      assert Positionals(args)[0] in Positionals(args);
    }
  }

  /** With `-f` and without `-p`, a finished call wrote Python files and
      no plots; with `-p` and without `-f` the reverse. */
  lemma OutputsFollowFlags<W>(args: seq<string>, h: string -> Characterize.RunOutput,
                              fit: seq<(int, seq<BigEndian.Byte>)> -> Option<W>)
    requires Emixa(args, h, fit).Finished?
    ensures Emixa(args, h, fit).funcpaths.Some? ==> ReadOptions(args).funcs
    ensures Emixa(args, h, fit).plotpaths.Some? ==> ReadOptions(args).plots
    ensures ReadOptions(args).funcs && |Characterize.Characterize(Positionals(args), h).results| > 0
      ==> Emixa(args, h, fit).funcpaths.Some?
    ensures ReadOptions(args).plots && |Characterize.Characterize(Positionals(args), h).results| > 0
      ==> Emixa(args, h, fit).plotpaths.Some?
  {
  }
}
