/** The `__main__` block of runtest.py: choose the notebooks to run, then for
    each one look its expectations up, execute it, and assert that the
    expectation check passes. The first failure ends the run. */
module RunTest {
  import opened Text
  import opened Notebook
  import opened Check
  import opened CheckProperties
  import opened Catalog

  /** What executing a notebook (`_notebook_run`) gives back: the cells of
      the executed copy, or a failure of the nbconvert process, which
      `subprocess.check_call` raises as `CalledProcessError`. */
  datatype Execution = Executed(cells: seq<Cell>) | ExecutorFailed

  /** The exceptions that end the script. */
  datatype Exception =
    | KeyError(key: string)  // `notebooks[n]` for a name outside the catalog
    | CalledProcessError     // the notebook executor failed
    | IndexError             // an error output with an empty traceback
    | AssertionError         // `assert check_errors(...)` failed

  datatype Outcome = UsageShown | Completed | Aborted(notebook: string, raised: Exception)

  /** The command line after the program name: `--help` first shows the usage
      text; otherwise the arguments are the notebooks to run, and without
      arguments every catalogued notebook runs, in sorted order. */
  datatype Selection = ShowUsage | RunList(names: seq<string>)

  function Select(args: seq<string>): (r: Selection)
    ensures r.ShowUsage? <==> |args| > 0 && args[0] == "--help"
    ensures r.RunList? && |args| > 0 ==> r.names == args
    ensures |args| == 0 ==> r.RunList? && Ascending(r.names) && multiset(r.names) == multiset(Names())
  {
    if |args| > 0 then (if args[0] == "--help" then ShowUsage else RunList(args))
    else RunList(Sort(Names()))
  }

  /** With no arguments the run list is the catalog in sorted order: each of
      its 18 notebooks exactly once, every name smaller than the next. */
  lemma DefaultRunList()
    ensures Select([]).RunList?
    ensures var r := Select([]).names;
      |r| == 18 && StrictlyAscending(r) && Distinct(r) &&
      forall n :: n in r <==> n in Notebooks()
  {
    var r := Sort(Names());
    CatalogSize();
    DistinctIffSingles(Names());
    DistinctIffSingles(r);
    assert |r| == |multiset(r)| == |multiset(Names())|;
    AscendingDistinctStrict(r);
    forall n ensures n in r <==> n in Names() {
      assert n in r <==> n in multiset(r);
      assert n in Names() <==> n in multiset(Names());
    }
  }

  /** With arguments other than `--help`, the run list is exactly those
      arguments in the order given; nothing is looked up yet. */
  lemma ExplicitRunList(args: seq<string>)
    requires |args| > 0 && args[0] != "--help"
    ensures Select(args) == RunList(args)
  {
  }

  /** A notebook passes when it is catalogued, executes, and its error
      outputs satisfy the check against its expectations. */
  predicate Passes(catalog: map<string, seq<string>>, n: string, run: string -> Execution)
  {
    n in catalog && run(n).Executed? &&
    CheckSpec(catalog[n], ErrorOutputs(run(n).cells)) == Returned(true)
  }

  /** The position of the first notebook that does not pass, or the length
      of the list when all pass. */
  function FirstFailure(catalog: map<string, seq<string>>, names: seq<string>, run: string -> Execution): (k: nat)
    ensures k <= |names|
    ensures forall j | 0 <= j < k :: Passes(catalog, names[j], run)
    ensures k < |names| ==> !Passes(catalog, names[k], run)
  {
    if names == [] then 0
    else if !Passes(catalog, names[0], run) then 0
    else 1 + FirstFailure(catalog, names[1..], run)
  }

  /** The exception a notebook that does not pass raises, in the order the
      script meets them: lookup, execution, reading tracebacks, assertion. */
  function Raised(catalog: map<string, seq<string>>, n: string, run: string -> Execution): Exception
  {
    if n !in catalog then KeyError(n)
    else if run(n).ExecutorFailed? then CalledProcessError
    else if CheckSpec(catalog[n], ErrorOutputs(run(n).cells)) == IndexErrorRaised then IndexError
    else AssertionError
  }

  /** The diagnostics a notebook's check prints, or nothing when it never
      gets as far as comparing. */
  function CheckLog(catalog: map<string, seq<string>>, n: string, run: string -> Execution): seq<Line>
  {
    if n in catalog && run(n).Executed? && Signatures(ErrorOutputs(run(n).cells)).Some? then
      Diagnostics(n, catalog[n], Signatures(ErrorOutputs(run(n).cells)).value)
    else []
  }

  /** One turn of the loop: `expected = notebooks[n]`, `nb, errors =
      _notebook_run(n)`, `assert check_errors(n, expected, errors)`.
      `raised` is the exception the turn ends with, if any; `executed` says
      whether the notebook was handed to the executor, and `lines` what the
      check wrote to standard error. */
  method RunOne(catalog: map<string, seq<string>>, n: string, run: string -> Execution)
    returns (raised: Option<Exception>, executed: bool, lines: seq<Line>)
    ensures raised == None <==> Passes(catalog, n, run)
    ensures raised.Some? ==> raised.value == Raised(catalog, n, run)
    ensures executed <==> n in catalog
    ensures lines == if raised == Some(AssertionError) then CheckLog(catalog, n, run) else []
  {
    if n !in catalog {
      return Some(KeyError(n)), false, [];
    }
    var expected := catalog[n];
    var execution := run(n);
    if execution.ExecutorFailed? {
      return Some(CalledProcessError), true, [];
    }
    var errors := ErrorOutputs(execution.cells);
    var checked, diagnostics := CheckErrors(n, expected, errors);
    if checked.IndexErrorRaised? {
      return Some(IndexError), true, [];
    }
    if !checked.ok {
      return Some(AssertionError), true, diagnostics;
    }
    return None, true, [];
  }

  /** What running a list of notebooks leaves behind: how the script ended,
      the notebooks handed to the executor, in order, and the lines written
      to standard error. */
  datatype Trace = Trace(outcome: Outcome, ran: seq<string>, log: seq<Line>)

  /** Running `names` in turn against `catalog`: all of them when all pass;
      otherwise the first one that does not pass ends the run with its
      exception, and it counts as run only when its lookup succeeded. */
  function RunOutcome(catalog: map<string, seq<string>>, names: seq<string>, run: string -> Execution): Trace
  {
    var k := FirstFailure(catalog, names, run);
    if k == |names| then Trace(Completed, names, [])
    else
      var n := names[k];
      Trace(Aborted(n, Raised(catalog, n, run)),
            names[..k] + (if n in catalog then [n] else []),
            if Raised(catalog, n, run) == AssertionError then CheckLog(catalog, n, run) else [])
  }

  /** `for n in notebooks_to_run: ...`, stopping at the first exception.
      `catalog` is the global `notebooks`, `run` stands for executing a
      notebook. */
  method RunNotebooks(catalog: map<string, seq<string>>, names: seq<string>, run: string -> Execution)
    returns (outcome: Outcome, ran: seq<string>, log: seq<Line>)
    ensures Trace(outcome, ran, log) == RunOutcome(catalog, names, run)
  {
    var i := 0;
    while i < |names|
      invariant i <= |names|
      invariant forall j | 0 <= j < i :: Passes(catalog, names[j], run)
    {
      var raised, executed, lines := RunOne(catalog, names[i], run);
      if raised.Some? {
        FirstFailureAt(catalog, names, run, i);
        outcome := Aborted(names[i], raised.value);
        ran := names[..i] + (if executed then [names[i]] else []);
        log := lines;
        return;
      }
      i := i + 1;
    }
    FirstFailureAt(catalog, names, run, i);
    assert names[..i] == names;
    outcome, ran, log := Completed, names, [];
  }

  /** The first failure is found at `i` when everything before passes and
      `names[i]`, if there is one, does not. */
  lemma {:induction false} FirstFailureAt(catalog: map<string, seq<string>>, names: seq<string>, run: string -> Execution, i: nat)
    requires i <= |names|
    requires forall j | 0 <= j < i :: Passes(catalog, names[j], run)
    requires i < |names| ==> !Passes(catalog, names[i], run)
    ensures FirstFailure(catalog, names, run) == i
  {
  }

  /** The run completes exactly when every listed notebook passes. */
  lemma CompletedIffAllPass(catalog: map<string, seq<string>>, names: seq<string>, run: string -> Execution)
    ensures RunOutcome(catalog, names, run).outcome == Completed <==>
      forall j | 0 <= j < |names| :: Passes(catalog, names[j], run)
  {
  }

  /** Fail-fast: the notebooks run are a prefix of the list, all catalogued,
      and every one before the last passed. */
  lemma RanIsPrefix(catalog: map<string, seq<string>>, names: seq<string>, run: string -> Execution)
    ensures var t := RunOutcome(catalog, names, run);
      t.ran <= names &&
      (forall j | 0 <= j < |t.ran| :: t.ran[j] in catalog) &&
      (forall j | 0 <= j < |t.ran| - 1 :: Passes(catalog, t.ran[j], run))
  {
    var k := FirstFailure(catalog, names, run);
    var t := RunOutcome(catalog, names, run);
    if k < |names| {
      assert t.ran == names[..k] + (if names[k] in catalog then [names[k]] else []);
      assert forall j | 0 <= j < k :: t.ran[j] == names[j];
    }
  }

  /** An aborted run stops at a notebook that does not pass, after every
      notebook listed before it passed, and nothing listed after it runs. */
  lemma AbortedAtFirstFailure(catalog: map<string, seq<string>>, names: seq<string>, run: string -> Execution)
    requires RunOutcome(catalog, names, run).outcome.Aborted?
    ensures var t := RunOutcome(catalog, names, run);
      exists k | 0 <= k < |names| ::
        names[k] == t.outcome.notebook && !Passes(catalog, names[k], run) &&
        (forall j | 0 <= j < k :: Passes(catalog, names[j], run)) &&
        t.ran <= names[..k + 1]
  {
    var k := FirstFailure(catalog, names, run);
    assert names[..k + 1] == names[..k] + [names[k]];
  }

  /** Diagnostics are written exactly when the run ends on a failed
      assertion. */
  lemma LogIffAssertionFailed(catalog: map<string, seq<string>>, names: seq<string>, run: string -> Execution)
    ensures var t := RunOutcome(catalog, names, run);
      |t.log| > 0 <==> t.outcome.Aborted? && t.outcome.raised == AssertionError
  {
    var k := FirstFailure(catalog, names, run);
    if k < |names| {
      var n := names[k];
      if Raised(catalog, n, run) == AssertionError {
        var sigs := Signatures(ErrorOutputs(run(n).cells)).value;
        NoMismatchesIffMatches(catalog[n], sigs);
      }
    }
  }

  /** An unknown name raises `KeyError` when its turn comes, before it is
      run and without writing anything; only notebooks listed before it ran. */
  lemma KeyErrorBeforeRun(catalog: map<string, seq<string>>, names: seq<string>, run: string -> Execution)
    requires RunOutcome(catalog, names, run).outcome.Aborted?
    requires RunOutcome(catalog, names, run).outcome.raised.KeyError?
    ensures var t := RunOutcome(catalog, names, run);
      t.outcome.notebook !in catalog && t.outcome.notebook !in t.ran && t.log == [] &&
      t.outcome.raised.key == t.outcome.notebook
  {
    RanIsPrefix(catalog, names, run);
  }

  /** An unknown name at the head of the list ends the run at once. */
  lemma UnknownFirstName(catalog: map<string, seq<string>>, n: string, rest: seq<string>, run: string -> Execution)
    requires n !in catalog
    ensures RunOutcome(catalog, [n] + rest, run) == Trace(Aborted(n, KeyError(n)), [], [])
  {
    assert ([n] + rest)[0] == n;
  }

  /** The script as a whole, from `sys.argv[1:]`. */
  method RunScript(args: seq<string>, run: string -> Execution)
    returns (outcome: Outcome, ran: seq<string>, log: seq<Line>)
    ensures Select(args).ShowUsage? ==> outcome == UsageShown && ran == [] && log == []
    ensures Select(args).RunList? ==> Trace(outcome, ran, log) == RunOutcome(Notebooks(), Select(args).names, run)
  {
    match Select(args)
    case ShowUsage =>
      return UsageShown, [], [];
    case RunList(names) =>
      outcome, ran, log := RunNotebooks(Notebooks(), names, run);
  }

  /** Without arguments no lookup can fail: every name comes from the catalog. */
  lemma DefaultRunNoKeyError(run: string -> Execution)
    ensures !RunOutcome(Notebooks(), Select([]).names, run).outcome.UsageShown?
    ensures var t := RunOutcome(Notebooks(), Select([]).names, run);
      t.outcome.Aborted? ==> !t.outcome.raised.KeyError?
  {
    DefaultRunList();
    var names := Select([]).names;
    var t := RunOutcome(Notebooks(), names, run);
    if t.outcome.Aborted? && t.outcome.raised.KeyError? {
      KeyErrorBeforeRun(Notebooks(), names, run);
      AbortedAtFirstFailure(Notebooks(), names, run);
    }
  }
}
