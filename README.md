# rq: option scanning and the expression pipeline, in Dafny

rq reads a JSON document from standard input. It threads the document through
the expressions given on the command line, in order, inside an embedded mruby
interpreter, and prints the result as JSON. This project models the two parts
of `src/main.cpp` that are rq's own logic, and proves properties of them.

- **Option scanning** (module `Options`, `options.dfy`) models the
  `ProgramOptions` constructor. `Parse` is the constructor's loop: one pass
  over `argv[1..argc]` that erases option tokens from the token list in place
  and sets `help` and `version`. It stops at the first `--` and erases that
  `--` too. The flags and the token list are the method's local state. The
  exception the constructor throws is returned as `Err(OptionError)`.
  `ScanBundle` is the inner loop over a bundle such as `-hv`. Both methods are
  proved equal to recursive specifications (`ParseSpec`/`Scan` and `Bundle`).
  The lemmas relate these specifications to definitions that do not follow
  the scan: `Terminator` (the index of the first `--`), `Scanned` (the tokens
  before it), `Survivors`/`Kept` (what survives) and `RemoveEmpty`.
- **`main`** (module `Driver`, `driver.dfy`). `Run` parses the options. It
  answers `-h` before `-v`. Otherwise `Evaluate` creates one `Interpreter` and
  evaluates the input statement `item = JSON.parse(STDIN.read)`, then each
  wrapped expression in order, then the output statement
  `puts JSON.generate(item, pretty_print: true, indent_width: 2)`. It stops at
  the first failure. The interpreter is represented by the log of statements
  it was asked to evaluate and an outcome function `succeeds`. Given every
  statement evaluated so far, `succeeds` says whether the last one succeeded.
  Taking the whole history lets an outcome depend on the shared document that
  earlier statements changed. `ExpressionWrapper::wrap` is the parameter
  `wrap`. Both methods are proved equal to the functions `Behaviour` and
  `Pipeline`. `Pipeline` follows the loop step by step (`Steps`). A lemma
  proves it equal to a reference definition, `PlanOutcome`. That definition
  uses `Plan` (every statement a run would evaluate) and `FirstFailure` (the
  first step that fails).

Two edges of the scan are worth stating, as the code has them:
- An empty argument is stepped over but not erased (src/main.cpp:42-46), so it
  stays among the expressions at its original position.
- The first `--` is erased (src/main.cpp:48-51). Only the tokens after it are
  kept verbatim.

## Model

| member | source | states |
|---|---|---|
| `Options.Parse` | src/main.cpp:27-96 | the constructor's in-place scan returns exactly `ParseSpec(argc, argv)`: `NoArguments` when `argc < 1`, otherwise the scan of `argv[1..argc]` from cleared flags |
| `Options.ScanBundle` | src/main.cpp:68-88 | the loop over a bundle's characters yields exactly `Bundle(arg[1..], flags)`: `h` and `v` set their flag, any other character fails with `InvalidOption` of that character |
| `Options.BundleOutcome` | src/main.cpp:70-85 | a bundle succeeds iff all its characters are `h` or `v`; it then sets exactly the flags it names on top of those already set; otherwise it fails on its first other character |
| `Options.ScanKeeps` | src/main.cpp:34-95 | on success the expressions are the arguments in original order, minus the option tokens before the first `--` and minus that `--`; tokens after it are kept verbatim, even `-h` |
| `Options.ScanFlags` | src/main.cpp:55-88 | each final flag is true iff it was already set or some token before the first `--` sets it (`--help`, or a bundle containing `h`; `--version`, or a bundle containing `v`), so no flag is ever cleared |
| `Options.ScanFails` | src/main.cpp:68-88 | the scan fails iff some token before the first `--` is a bundle with a character other than `h` or `v` (so an unknown long option like `--foo` fails) |
| `Options.ScanErrorIsFirst` | src/main.cpp:68-88 | the error carries the first bad character of the first invalid bundle before the first `--` |
| `Options.EmptyTokensInert` | src/main.cpp:42-46 | removing the empty arguments changes neither success, nor flags, nor the error, and only removes the empty strings from the expressions |
| `Options.ProgramNameIgnored` | src/main.cpp:29-34 | `argc < 1` fails with `NoArguments`; otherwise the result does not depend on `argv[0]` |
| `Options.FlagExamples` | src/main.cpp:55-88 | no arguments give no flags and no expressions; `--help` sets help; `-vh` and `-h --version` set both flags |
| `Options.ExpressionExamples` | src/main.cpp:42-95 | `-- -h foo` gives expressions `-h foo` and no flag; `"" - x` keeps all three tokens (an empty token and a lone `-` are not options) |
| `Options.ErrorExamples` | src/main.cpp:29-88 | `argc == 0` fails; `-x` fails on `x`; `--foo` fails on `-`; `-hx` fails on `x`; `Message` gives the thrown texts `Really?` and `invalid option --` (for `--foo`) |
| `Driver.Interpreter.constructor` | src/main.cpp:134 | a new interpreter has evaluated nothing |
| `Driver.Interpreter.Eval` | src/main.cpp:150 | an evaluation appends its statement to the log, and its outcome is the outcome function applied to the log |
| `Driver.Wrapped` | src/main.cpp:146-148 | the wrapped expressions are, position by position, `wrap` of the expressions |
| `Driver.Plan` | src/main.cpp:137-160 | the statements of a full run: the input statement, then `wrap(expressions[i])` at position `i + 1`, then the output statement |
| `Driver.FirstFailure` | src/main.cpp:137-166 | the result is the first step at or after `k` whose evaluation fails: every step before it succeeds, and it fails unless it is the end of the plan |
| `Driver.Evaluate` | src/main.cpp:134-166 | the read-evaluate-print sequence with early return yields exactly `Pipeline(expressions, wrap, succeeds)` |
| `Driver.StepsFollowPlan` | src/main.cpp:146-166 | once input and the first `i` expressions have succeeded, the rest of the loop and the output step end exactly as the plan run to its first failing step |
| `Driver.PipelineStops` | src/main.cpp:137-166 | when step `m` is the first failing step of the plan, the reference outcome reports the matching branch (input, expression `m - 1`, output, or success) with the plan evaluated up to step `m` |
| `Driver.PipelineMatchesPlan` | src/main.cpp:137-166 | the step-by-step evaluation phase equals the reference: the plan evaluated up to and including its first failing step |
| `Driver.Run` | src/main.cpp:117-176 | `main` yields exactly `Behaviour(argc, argv, wrap, succeeds)`: an argument error fails without evaluating anything, help then version are answered without evaluating anything, otherwise the pipeline runs |
| `Driver.InformationalExits` | src/main.cpp:122-132 | help gives success with the usage and no evaluation, even when version is also set; version alone gives success with the version and no evaluation; with neither, the interpreter is used |
| `Driver.CommandLineFlags` | src/main.cpp:121-132 | a valid command line with a help option before `--` shows the usage; one with a version option and no help option shows the version |
| `Driver.PipelineOrder` | src/main.cpp:137-166 | what is evaluated is a non-empty prefix of the plan; all evaluated statements but the last succeeded; a failing run's last statement failed; the run succeeds iff every planned statement succeeds; the output statement is evaluated iff all statements before it succeeded, with no expressions too |
| `Driver.FailureReports` | src/main.cpp:137-166 | a failed input statement is the only statement evaluated; a failed expression `i` is reported with its own text after exactly `i + 1` successful statements, and no later expression and no output statement are evaluated; a failed output statement is the last of the whole plan, after every other statement succeeded |

## Left out

- Printing is not modelled: the usage and version texts, the progress lines on standard output, and the diagnostics and usage on standard error. `Report` records which branch `main` took instead.
- `ExitSuccess`/`ExitFailure` stand for `EXIT_SUCCESS`/`EXIT_FAILURE`. Their numeric values are not modelled.
- The mruby interpreter is not modelled: statement semantics, JSON parsing and generation, and the error detail `print_error` shows. The outcome function `succeeds` stands in for it. What the expressions do to the document, and the JSON that is read and written, are therefore outside the model.
- `ExpressionWrapper::wrap` is not part of this model. Its text is not known, so it is the function parameter `wrap`.
- Exceptions other than the constructor's two are not modelled, for example from creating the interpreter. `main` would catch them like an argument error.
- Options.Parse: the flags set by a bundle before its bad character (`-hx` sets `help` before failing on `x`) are not visible in the result. The thrown exception discards the half-built object, so nothing can observe them.
- Options.ScanErrorIsFirst: arguments are modelled as sequences of characters, not bytes. A non-ASCII character in a bundle is therefore reported whole (`-é` gives `InvalidOption('é')`), where the source reports its first UTF-8 byte. The scan's decisions are unaffected. The tokens `--`, `--help` and `--version` and the characters `-`, `h` and `v` are ASCII, and the first byte of a non-ASCII character is never one of them. A token is empty in bytes iff it is empty in characters. The length test `> 1` (src/main.cpp:68) only matters after a leading `-`, and there more than one byte means more than one character.
- Options.Parse: `argv` is a sequence of strings with at least `argc` entries, as C guarantees. `std::string_view` lifetimes are not modelled.
