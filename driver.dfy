/** The control flow of rq's `main`.

    After the options are parsed, `-h` wins over `-v`, and either one exits
    successfully without creating an interpreter. Otherwise one interpreter
    evaluates, in this order, the statement that reads the document from
    standard input, the wrapped form of every expression, and the statement
    that prints the document; the first evaluation that fails ends the run
    with a failure status.

    The interpreter is foreign: it is modelled by the statements it is asked
    to evaluate and an outcome function that says, for each history of
    evaluated statements, whether the last one succeeded. The wrapping of an
    expression into a statement is a function parameter as well.
 */
module Driver {
  import opened Options

  /** The statement that parses standard input into the shared document. */
  const ReadInput: string := "item = JSON.parse(STDIN.read)"

  /** The statement that prints the shared document. */
  const WriteOutput: string := "puts JSON.generate(item, pretty_print: true, indent_width: 2)"

  datatype ExitStatus = ExitSuccess | ExitFailure

  /** The branch `main` left by, in place of what it writes to the streams. */
  datatype Report =
    | ShowUsage
    | ShowVersion
    | BadArguments(error: OptionError)
    | ReadFailed
    | ExpressionFailed(index: nat, expression: string)
    | PrintFailed
    | Printed

  /** What a run of `main` does: its exit status, the branch it took and
      the statements it gave the interpreter, in order. */
  datatype Outcome = Outcome(status: ExitStatus, report: Report, evaluated: seq<string>)

  /** The interpreter. `succeeds` decides, from every statement evaluated so
      far (the last one included), whether the last evaluation succeeded:
      the document the statements share makes outcomes depend on history. */
  class Interpreter {
    const succeeds: seq<string> -> bool
    var log: seq<string>

    constructor (succeeds: seq<string> -> bool)
      ensures this.succeeds == succeeds && log == []
    {
      this.succeeds := succeeds;
      log := [];
    }

    /** `rb.eval(statement)`. */
    method Eval(statement: string) returns (ok: bool)
      modifies this
      ensures log == old(log) + [statement]
      ensures ok == succeeds(log)
    {
      log := log + [statement];
      ok := succeeds(log);
    }
  }

  /** The wrapped expressions, in order. */
  function Wrapped(expressions: seq<string>, wrap: string -> string): (w: seq<string>)
    ensures |w| == |expressions|
    ensures forall i :: 0 <= i < |w| ==> w[i] == wrap(expressions[i])
  {
    if expressions == [] then []
    else [wrap(expressions[0])] + Wrapped(expressions[1..], wrap)
  }

  /** Every statement a run would evaluate if nothing failed. */
  function Plan(expressions: seq<string>, wrap: string -> string): (p: seq<string>)
    ensures |p| == |expressions| + 2
    ensures p[0] == ReadInput && p[|p| - 1] == WriteOutput
    ensures forall i :: 0 <= i < |expressions| ==> p[i + 1] == wrap(expressions[i])
  {
    [ReadInput] + Wrapped(expressions, wrap) + [WriteOutput]
  }

  /** Evaluating step `j` of `plan` (after steps `0..j-1`) succeeds. */
  predicate StepSucceeds(plan: seq<string>, succeeds: seq<string> -> bool, j: nat)
    requires j < |plan|
  {
    succeeds(plan[..j + 1])
  }

  /** The first step at or after `k` whose evaluation fails, or `|plan|`. */
  function FirstFailure(plan: seq<string>, succeeds: seq<string> -> bool, k: nat): (n: nat)
    requires k <= |plan|
    ensures k <= n <= |plan|
    ensures forall j :: k <= j < n ==> StepSucceeds(plan, succeeds, j)
    ensures n < |plan| ==> !StepSucceeds(plan, succeeds, n)
    decreases |plan| - k
  {
    if k == |plan| || !StepSucceeds(plan, succeeds, k) then k
    else FirstFailure(plan, succeeds, k + 1)
  }

  /** The evaluation phase as a reference: the plan is run up to and
      including its first failing step. */
  function PlanOutcome(expressions: seq<string>, wrap: string -> string, succeeds: seq<string> -> bool): Outcome
  {
    var plan := Plan(expressions, wrap);
    var n := FirstFailure(plan, succeeds, 0);
    if n == 0 then Outcome(ExitFailure, ReadFailed, plan[..1])
    else if n <= |expressions| then
      Outcome(ExitFailure, ExpressionFailed(n - 1, expressions[n - 1]), plan[..n + 1])
    else if n == |expressions| + 1 then Outcome(ExitFailure, PrintFailed, plan)
    else Outcome(ExitSuccess, Printed, plan)
  }

  /** The evaluation phase from expression `i` on, `log` being what the
      interpreter has evaluated so far. */
  function Steps(expressions: seq<string>, wrap: string -> string, succeeds: seq<string> -> bool,
                 log: seq<string>, i: nat): Outcome
    requires i <= |expressions|
    decreases |expressions| - i
  {
    if i == |expressions| then
      var l := log + [WriteOutput];
      if succeeds(l) then Outcome(ExitSuccess, Printed, l) else Outcome(ExitFailure, PrintFailed, l)
    else
      var l := log + [wrap(expressions[i])];
      if succeeds(l) then Steps(expressions, wrap, succeeds, l, i + 1)
      else Outcome(ExitFailure, ExpressionFailed(i, expressions[i]), l)
  }

  /** The evaluation phase: read the input, then `Steps` from the first
      expression. */
  function Pipeline(expressions: seq<string>, wrap: string -> string, succeeds: seq<string> -> bool): Outcome
  {
    var l := [ReadInput];
    if succeeds(l) then Steps(expressions, wrap, succeeds, l, 0) else Outcome(ExitFailure, ReadFailed, l)
  }

  /** What `main` does with `argc` and `argv`. */
  function Behaviour(argc: int, argv: seq<string>, wrap: string -> string, succeeds: seq<string> -> bool): Outcome
    requires argc <= |argv|
  {
    match ParseSpec(argc, argv)
    case Err(e) => Outcome(ExitFailure, BadArguments(e), [])
    case Ok(opts) =>
      if opts.help then Outcome(ExitSuccess, ShowUsage, [])
      else if opts.version then Outcome(ExitSuccess, ShowVersion, [])
      else Pipeline(opts.expressions, wrap, succeeds)
  }

  /** Evaluating the wrapped expression `i` extends the log by step `i + 1`. */
  lemma PlanStep(expressions: seq<string>, wrap: string -> string, i: nat)
    requires i < |expressions|
    ensures var p := Plan(expressions, wrap);
      p[..i + 2] == p[..i + 1] + [wrap(expressions[i])]
  {
  }

  /** The run of the plan ends with the first failing step `m`. */
  lemma PipelineStops(expressions: seq<string>, wrap: string -> string, succeeds: seq<string> -> bool, m: nat)
    requires m <= |expressions| + 2
    requires forall j :: 0 <= j < m ==> StepSucceeds(Plan(expressions, wrap), succeeds, j)
    requires m < |expressions| + 2 ==> !StepSucceeds(Plan(expressions, wrap), succeeds, m)
    ensures var p := Plan(expressions, wrap);
      PlanOutcome(expressions, wrap, succeeds) ==
        if m == 0 then Outcome(ExitFailure, ReadFailed, p[..1])
        else if m <= |expressions| then
          Outcome(ExitFailure, ExpressionFailed(m - 1, expressions[m - 1]), p[..m + 1])
        else if m == |expressions| + 1 then Outcome(ExitFailure, PrintFailed, p)
        else Outcome(ExitSuccess, Printed, p)
  {
    var n := FirstFailure(Plan(expressions, wrap), succeeds, 0);
    assert n == m;
  }

  /** Run step by step, the evaluation phase is the run of the plan up to
      its first failing step. */
  lemma {:induction false} StepsFollowPlan(expressions: seq<string>, wrap: string -> string,
                                           succeeds: seq<string> -> bool, i: nat)
    requires i <= |expressions|
    requires forall j :: 0 <= j <= i ==> StepSucceeds(Plan(expressions, wrap), succeeds, j)
    ensures Steps(expressions, wrap, succeeds, Plan(expressions, wrap)[..i + 1], i) ==
            PlanOutcome(expressions, wrap, succeeds)
    decreases |expressions| - i
  {
    var p := Plan(expressions, wrap);
    if i == |expressions| {
      assert p[..i + 1] + [WriteOutput] == p == p[..|p|];
      if succeeds(p) {
        assert StepSucceeds(p, succeeds, |p| - 1);
        PipelineStops(expressions, wrap, succeeds, |p|);
      } else {
        PipelineStops(expressions, wrap, succeeds, |p| - 1);
      }
    } else {
      PlanStep(expressions, wrap, i);
      if succeeds(p[..i + 2]) {
        assert StepSucceeds(p, succeeds, i + 1);
        StepsFollowPlan(expressions, wrap, succeeds, i + 1);
      } else {
        PipelineStops(expressions, wrap, succeeds, i + 1);
      }
    }
  }

  /** The evaluation phase agrees with the reference `PlanOutcome`. */
  lemma PipelineMatchesPlan(expressions: seq<string>, wrap: string -> string, succeeds: seq<string> -> bool)
    ensures Pipeline(expressions, wrap, succeeds) == PlanOutcome(expressions, wrap, succeeds)
  {
    var p := Plan(expressions, wrap);
    assert p[..1] == [ReadInput];
    if succeeds([ReadInput]) {
      StepsFollowPlan(expressions, wrap, succeeds, 0);
    } else {
      PipelineStops(expressions, wrap, succeeds, 0);
    }
  }

  /** The part of `main` after the options: read the input, evaluate each
      wrapped expression in order, print; stop at the first failure. */
  method Evaluate(expressions: seq<string>, wrap: string -> string, succeeds: seq<string> -> bool)
    returns (out: Outcome)
    ensures out == Pipeline(expressions, wrap, succeeds)
  {
    var rb := new Interpreter(succeeds);
    var ok := rb.Eval(ReadInput);
    assert rb.log == [ReadInput];
    if !ok {
      return Outcome(ExitFailure, ReadFailed, rb.log);
    }

    for i := 0 to |expressions|
      invariant rb.succeeds == succeeds
      invariant Pipeline(expressions, wrap, succeeds) == Steps(expressions, wrap, succeeds, rb.log, i)
    {
      var expr := expressions[i];
      var wrapped := wrap(expr);
      ok := rb.Eval(wrapped);
      if !ok {
        return Outcome(ExitFailure, ExpressionFailed(i, expr), rb.log);
      }
    }

    ok := rb.Eval(WriteOutput);
    if !ok {
      return Outcome(ExitFailure, PrintFailed, rb.log);
    }
    return Outcome(ExitSuccess, Printed, rb.log);
  }

  /** `main(argc, argv)`. */
  method Run(argc: int, argv: seq<string>, wrap: string -> string, succeeds: seq<string> -> bool)
    returns (out: Outcome)
    requires argc <= |argv|
    ensures out == Behaviour(argc, argv, wrap, succeeds)
  {
    var parsed := Parse(argc, argv);
    if parsed.Err? {
      return Outcome(ExitFailure, BadArguments(parsed.error), []);
    }
    var opts := parsed.value;
    if opts.help {
      return Outcome(ExitSuccess, ShowUsage, []);
    }
    if opts.version {
      return Outcome(ExitSuccess, ShowVersion, []);
    }
    out := Evaluate(opts.expressions, wrap, succeeds);
  }

  // ---------------------------------------------------------------------------
  // Properties of `main`

  /** Help and version are answered without an interpreter, and help wins
      when both are asked for. The first two clauses restate the help and
      version branches of `Behaviour`; the third says that otherwise the
      interpreter is used. */
  lemma InformationalExits(argc: int, argv: seq<string>, wrap: string -> string, succeeds: seq<string> -> bool)
    requires argc <= |argv|
    requires ParseSpec(argc, argv).Ok?
    ensures var o := ParseSpec(argc, argv).value;
      o.help ==> Behaviour(argc, argv, wrap, succeeds) == Outcome(ExitSuccess, ShowUsage, [])
    ensures var o := ParseSpec(argc, argv).value;
      !o.help && o.version ==> Behaviour(argc, argv, wrap, succeeds) == Outcome(ExitSuccess, ShowVersion, [])
    ensures var o := ParseSpec(argc, argv).value;
      !o.help && !o.version ==> Behaviour(argc, argv, wrap, succeeds).evaluated != []
  {
    var o := ParseSpec(argc, argv).value;
    if !o.help && !o.version {
      PipelineMatchesPlan(o.expressions, wrap, succeeds);
      var p := Plan(o.expressions, wrap);
      var n := FirstFailure(p, succeeds, 0);
      assert n <= |o.expressions| ==> |p[..n + 1]| == n + 1;
    }
  }

  /** On the command line: a well-formed one with a help option before the
      first `--` prints the usage; one with a version option and no help
      option prints the version; neither evaluates anything. */
  lemma {:induction false} CommandLineFlags(argc: int, argv: seq<string>, wrap: string -> string, succeeds: seq<string> -> bool)
    requires 1 <= argc <= |argv|
    requires ParseSpec(argc, argv).Ok?
    ensures (exists t :: t in Scanned(argv[1..argc]) && SetsHelp(t)) ==>
      Behaviour(argc, argv, wrap, succeeds) == Outcome(ExitSuccess, ShowUsage, [])
    ensures (forall t :: t in Scanned(argv[1..argc]) ==> !SetsHelp(t)) &&
            (exists t :: t in Scanned(argv[1..argc]) && SetsVersion(t)) ==>
      Behaviour(argc, argv, wrap, succeeds) == Outcome(ExitSuccess, ShowVersion, [])
  {
    ScanFlags(argv[1..argc], Flags(false, false));
  }

  /** The interpreter is given a prefix of the plan: the input statement
      first, then the wrapped expressions in order, then the output
      statement. Every statement but the last one given succeeded; the run
      succeeds iff every statement of the plan does, and the output
      statement is reached iff everything before it succeeded. */
  lemma PipelineOrder(expressions: seq<string>, wrap: string -> string, succeeds: seq<string> -> bool)
    ensures var o, p := Pipeline(expressions, wrap, succeeds), Plan(expressions, wrap);
      1 <= |o.evaluated| <= |p| && o.evaluated == p[..|o.evaluated|]
    ensures var o, p := Pipeline(expressions, wrap, succeeds), Plan(expressions, wrap);
      forall j :: 0 <= j < |o.evaluated| - 1 ==> StepSucceeds(p, succeeds, j)
    ensures var o, p := Pipeline(expressions, wrap, succeeds), Plan(expressions, wrap);
      o.status == ExitFailure ==> !StepSucceeds(p, succeeds, |o.evaluated| - 1)
    ensures var o, p := Pipeline(expressions, wrap, succeeds), Plan(expressions, wrap);
      o.status == ExitSuccess <==> forall j :: 0 <= j < |p| ==> StepSucceeds(p, succeeds, j)
    ensures var o, p := Pipeline(expressions, wrap, succeeds), Plan(expressions, wrap);
      |o.evaluated| == |p| <==> forall j :: 0 <= j < |p| - 1 ==> StepSucceeds(p, succeeds, j)
  {
    PipelineMatchesPlan(expressions, wrap, succeeds);
    var p := Plan(expressions, wrap);
    var n := FirstFailure(p, succeeds, 0);
    assert p[..|p|] == p;
    if n < |p| - 1 {
      assert !StepSucceeds(p, succeeds, n);
    }
  }

  /** Each failure names where it happened: a failing input statement is
      the only one evaluated; a failing expression `i` is reported with its
      own text, after exactly `i + 1` statements all succeeded, and nothing
      after it (no later expression, no output) is evaluated; a failing
      output statement comes last, after every other statement succeeded. */
  lemma FailureReports(expressions: seq<string>, wrap: string -> string, succeeds: seq<string> -> bool)
    ensures var o := Pipeline(expressions, wrap, succeeds);
      o.report == ReadFailed ==> o.evaluated == [ReadInput] && !succeeds([ReadInput])
    ensures var o, p := Pipeline(expressions, wrap, succeeds), Plan(expressions, wrap);
      o.report.ExpressionFailed? ==>
        var i := o.report.index;
        i < |expressions| && o.report.expression == expressions[i] &&
        o.evaluated == p[..i + 2] && o.evaluated[i + 1] == wrap(expressions[i]) &&
        (forall j :: 0 <= j <= i ==> StepSucceeds(p, succeeds, j)) &&
        !StepSucceeds(p, succeeds, i + 1)
    ensures var o, p := Pipeline(expressions, wrap, succeeds), Plan(expressions, wrap);
      o.report == PrintFailed ==>
        o.evaluated == p && (forall j :: 0 <= j < |p| - 1 ==> StepSucceeds(p, succeeds, j)) &&
        !StepSucceeds(p, succeeds, |p| - 1)
  {
    PipelineMatchesPlan(expressions, wrap, succeeds);
    var p := Plan(expressions, wrap);
    var n := FirstFailure(p, succeeds, 0);
    assert p[..1] == [ReadInput];
    if 0 < n <= |expressions| {
      assert p[..n + 1][n] == p[n];
    }
  }
}

