/** Command-line option scanning of rq (the `ProgramOptions` constructor).

    The constructor makes one left-to-right pass over the arguments after the
    program name, erasing option tokens from a vector in place and setting the
    `help` and `version` flags; whatever is left becomes the ordered list of
    expressions. Here the scan is the method `Parse`, proved equal to the
    recursive specification `ParseSpec`, about which the lemmas below state
    what survives, which flags end up set and when the scan fails.
 */
module Options {

  /** Why option parsing failed: `argc < 1`, or a bad character in a bundle. */
  datatype OptionError = NoArguments | InvalidOption(c: char)

  /** The parsed command line. */
  datatype ProgramOptions = ProgramOptions(help: bool, version: bool, expressions: seq<string>)

  /** The two flags a bundle of short options can set. */
  datatype Flags = Flags(help: bool, version: bool)

  datatype Result<T> = Ok(value: T) | Err(error: OptionError)

  /** The text of the exception the constructor throws. */
  function Message(e: OptionError): string
  {
    match e
    case NoArguments => "Really?"
    case InvalidOption(c) => "invalid option -" + [c]
  }

  // ---------------------------------------------------------------------------
  // Token classification

  /** A token scanned as a bundle of short options: longer than one character,
      starting with a dash, and none of the tokens matched before it. */
  predicate IsBundle(arg: string)
  {
    |arg| > 1 && arg[0] == '-' && arg != "--" && arg != "--help" && arg != "--version"
  }

  /** A token the scan erases (before the first `--`). */
  predicate IsOption(arg: string)
  {
    arg == "--help" || arg == "--version" || IsBundle(arg)
  }

  predicate ShortFlag(c: char)
  {
    c == 'h' || c == 'v'
  }

  /** Every character after the leading dash is `h` or `v`. */
  predicate ValidBundle(arg: string)
    requires |arg| > 0
  {
    forall c :: c in arg[1..] ==> ShortFlag(c)
  }

  predicate InvalidBundle(arg: string)
  {
    IsBundle(arg) && !ValidBundle(arg)
  }

  /** `s[k]` is the first character of `s` that is neither `h` nor `v`. */
  predicate FirstBadAt(s: string, k: int)
  {
    0 <= k < |s| && !ShortFlag(s[k]) && forall m :: 0 <= m < k ==> ShortFlag(s[m])
  }

  /** Option tokens that turn the help flag on. */
  predicate SetsHelp(arg: string)
  {
    arg == "--help" || (IsBundle(arg) && 'h' in arg[1..])
  }

  /** Option tokens that turn the version flag on. */
  predicate SetsVersion(arg: string)
  {
    arg == "--version" || (IsBundle(arg) && 'v' in arg[1..])
  }

  // ---------------------------------------------------------------------------
  // Reference definitions, independent of the scan

  /** Index of the first `--`, or `|args|` when there is none. */
  function Terminator(args: seq<string>): (k: nat)
    ensures k <= |args|
    ensures forall j :: 0 <= j < k ==> args[j] != "--"
    ensures k < |args| ==> args[k] == "--"
  {
    if args == [] || args[0] == "--" then 0 else 1 + Terminator(args[1..])
  }

  /** The tokens scanned for options: those before the first `--`. */
  function Scanned(args: seq<string>): seq<string>
  {
    args[..Terminator(args)]
  }

  /** The tokens of `s` that are not options, in order. */
  function Survivors(s: seq<string>): seq<string>
  {
    if s == [] then []
    else (if IsOption(s[0]) then [] else [s[0]]) + Survivors(s[1..])
  }

  /** What a successful scan leaves: the non-option tokens before the first
      `--`, then every token after it. */
  function Kept(args: seq<string>): seq<string>
  {
    var k := Terminator(args);
    Survivors(args[..k]) + (if k < |args| then args[k + 1..] else [])
  }

  function RemoveEmpty(s: seq<string>): seq<string>
  {
    if s == [] then []
    else (if s[0] == "" then [] else [s[0]]) + RemoveEmpty(s[1..])
  }

  // ---------------------------------------------------------------------------
  // Specification of the scan

  /** The inner loop over a bundle's characters (those after the dash). */
  function Bundle(chars: string, f: Flags): Result<Flags>
  {
    if chars == [] then Ok(f)
    else if chars[0] == 'h' then Bundle(chars[1..], f.(help := true))
    else if chars[0] == 'v' then Bundle(chars[1..], f.(version := true))
    else Err(InvalidOption(chars[0]))
  }

  /** Puts `pre` in front of the expressions of a successful result. */
  function Prepend(pre: seq<string>, r: Result<ProgramOptions>): Result<ProgramOptions>
  {
    match r
    case Ok(o) => Ok(o.(expressions := pre + o.expressions))
    case Err(e) => Err(e)
  }

  lemma PrependNothing(r: Result<ProgramOptions>)
    ensures Prepend([], r) == r
  {
    if r.Ok? {
      assert [] + r.value.expressions == r.value.expressions;
    }
  }

  lemma PrependTwice(a: seq<string>, b: seq<string>, r: Result<ProgramOptions>)
    ensures Prepend(a, Prepend(b, r)) == Prepend(a + b, r)
  {
    if r.Ok? {
      assert a + (b + r.value.expressions) == (a + b) + r.value.expressions;
    }
  }

  /** The scan of `args` starting from flags `f`, one token per step. */
  function Scan(args: seq<string>, f: Flags): Result<ProgramOptions>
  {
    if args == [] then Ok(ProgramOptions(f.help, f.version, []))
    else
      var arg := args[0];
      if |arg| == 0 then Prepend([arg], Scan(args[1..], f))
      else if arg == "--" then Ok(ProgramOptions(f.help, f.version, args[1..]))
      else if arg == "--help" then Scan(args[1..], f.(help := true))
      else if arg == "--version" then Scan(args[1..], f.(version := true))
      else if |arg| > 1 && arg[0] == '-' then
        match Bundle(arg[1..], f)
        case Err(e) => Err(e)
        case Ok(g) => Scan(args[1..], g)
      else Prepend([arg], Scan(args[1..], f))
  }

  /** The constructor's result: an error when `argc < 1`, otherwise the scan
      of `argv[1..argc]` from cleared flags. */
  function ParseSpec(argc: int, argv: seq<string>): Result<ProgramOptions>
    requires argc <= |argv|
  {
    if argc < 1 then Err(NoArguments) else Scan(argv[1..argc], Flags(false, false))
  }

  // ---------------------------------------------------------------------------
  // The constructor

  /** The loop over one bundle: each character after the dash sets a flag or
      aborts the parse. */
  method ScanBundle(arg: string, help: bool, version: bool) returns (r: Result<Flags>)
    requires |arg| > 1
    ensures r == Bundle(arg[1..], Flags(help, version))
  {
    var h, v := help, version;
    for k := 1 to |arg|
      invariant Bundle(arg[1..], Flags(help, version)) == Bundle(arg[k..], Flags(h, v))
    {
      assert arg[k..][1..] == arg[k + 1..];
      match arg[k]
      case 'h' => h := true;
      case 'v' => v := true;
      case _ => return Err(InvalidOption(arg[k]));
    }
    return Ok(Flags(h, v));
  }

  /** Erasing token `i` leaves the scanned part and shifts the rest down. */
  lemma Erase(args: seq<string>, i: nat)
    requires i < |args|
    ensures var a := args[..i] + args[i + 1..];
      |a| == |args| - 1 && a[..i] == args[..i] && a[i..] == args[i + 1..]
  {
  }

  /** `ProgramOptions::ProgramOptions(argc, argv)`: erases recognised options
      in place, stops at the first `--` (erasing it too), and returns what is
      left as the expressions. */
  method Parse(argc: int, argv: seq<string>) returns (r: Result<ProgramOptions>)
    requires argc <= |argv|
    ensures r == ParseSpec(argc, argv)
  {
    if argc < 1 {
      return Err(NoArguments);
    }
    var args := argv[1..argc];
    var help, version := false, false;
    var i := 0;
    assert args[..0] == [] && args[0..] == args;
    PrependNothing(ParseSpec(argc, argv));
    while i < |args|
      invariant 0 <= i <= |args|
      invariant ParseSpec(argc, argv) == Prepend(args[..i], Scan(args[i..], Flags(help, version)))
      decreases |args| - i
    {
      var arg := args[i];
      assert args[i..][1..] == args[i + 1..];
      assert args[..i + 1] == args[..i] + [arg];
      if |arg| == 0 {
        PrependTwice(args[..i], [arg], Scan(args[i + 1..], Flags(help, version)));
        i := i + 1;
        continue;
      }
      if arg == "--" {
        args := args[..i] + args[i + 1..];
        assert ParseSpec(argc, argv) == Ok(ProgramOptions(help, version, args));
        break;
      }
      if arg == "--help" {
        help := true;
        Erase(args, i);
        args := args[..i] + args[i + 1..];
        continue;
      }
      if arg == "--version" {
        version := true;
        Erase(args, i);
        args := args[..i] + args[i + 1..];
        continue;
      }
      if |arg| > 1 && arg[0] == '-' {
        var b := ScanBundle(arg, help, version);
        if b.Err? {
          return Err(b.error);
        }
        help, version := b.value.help, b.value.version;
        Erase(args, i);
        args := args[..i] + args[i + 1..];
        continue;
      }
      PrependTwice(args[..i], [arg], Scan(args[i + 1..], Flags(help, version)));
      i := i + 1;
    }
    assert args[..|args|] == args && args + [] == args;
    r := Ok(ProgramOptions(help, version, args));
  }

  // ---------------------------------------------------------------------------
  // Properties of the scan

  /** A bundle succeeds iff every character is `h` or `v`; it then adds to
      the flags exactly those it names, and otherwise fails on the first
      other character. */
  lemma {:induction false} BundleOutcome(s: string, f: Flags)
    ensures Bundle(s, f).Ok? <==> forall c :: c in s ==> ShortFlag(c)
    ensures Bundle(s, f).Ok? ==> Bundle(s, f).value == Flags(f.help || 'h' in s, f.version || 'v' in s)
    ensures Bundle(s, f).Err? ==> exists k :: FirstBadAt(s, k) && Bundle(s, f).error == InvalidOption(s[k])
  {
    if s != [] && ShortFlag(s[0]) {
      var g := if s[0] == 'h' then f.(help := true) else f.(version := true);
      BundleOutcome(s[1..], g);
      assert s == [s[0]] + s[1..];
      if Bundle(s, f).Err? {
        var k :| FirstBadAt(s[1..], k) && Bundle(s[1..], g).error == InvalidOption(s[1..][k]);
        assert FirstBadAt(s, k + 1);
      }
    } else if s != [] {
      assert FirstBadAt(s, 0);
    }
  }

  lemma ScannedCons(args: seq<string>)
    requires args != [] && args[0] != "--"
    ensures Scanned(args) == [args[0]] + Scanned(args[1..])
  {
  }

  /** How `Kept` unfolds over the first token. */
  lemma KeptCons(args: seq<string>)
    requires args != []
    ensures args[0] == "--" ==> Kept(args) == args[1..]
    ensures args[0] != "--" ==>
      Kept(args) == (if IsOption(args[0]) then [] else [args[0]]) + Kept(args[1..])
  {
    var rest := args[1..];
    if args[0] != "--" {
      var k := Terminator(rest);
      assert args[..k + 1] == [args[0]] + rest[..k];
      assert ([args[0]] + rest[..k])[1..] == rest[..k];
      if k < |rest| {
        assert args[k + 2..] == rest[k + 1..];
      }
    }
  }

  /** On success the expressions are the arguments in their original order
      without the recognised options before the first `--` and without that
      `--`; every token after it is kept verbatim. */
  lemma {:induction false} ScanKeeps(args: seq<string>, f: Flags)
    requires Scan(args, f).Ok?
    ensures Scan(args, f).value.expressions == Kept(args)
  {
    if args != [] {
      var arg, rest := args[0], args[1..];
      KeptCons(args);
      if |arg| == 0 || (arg != "--" && !IsOption(arg)) {
        ScanKeeps(rest, f);
      } else if arg == "--help" {
        ScanKeeps(rest, f.(help := true));
      } else if arg == "--version" {
        ScanKeeps(rest, f.(version := true));
      } else if arg != "--" {
        ScanKeeps(rest, Bundle(arg[1..], f).value);
      }
    }
  }

  /** The final flags: each is set iff it was set on entry or some option
      token before the first `--` names it. In particular no flag is ever
      cleared. */
  lemma {:induction false} ScanFlags(args: seq<string>, f: Flags)
    requires Scan(args, f).Ok?
    ensures Scan(args, f).value.help <==> f.help || exists t :: t in Scanned(args) && SetsHelp(t)
    ensures Scan(args, f).value.version <==> f.version || exists t :: t in Scanned(args) && SetsVersion(t)
  {
    if args != [] && args[0] != "--" {
      var arg, rest := args[0], args[1..];
      ScannedCons(args);
      assert (exists t :: t in Scanned(args) && SetsHelp(t)) <==>
        SetsHelp(arg) || exists t :: t in Scanned(rest) && SetsHelp(t);
      assert (exists t :: t in Scanned(args) && SetsVersion(t)) <==>
        SetsVersion(arg) || exists t :: t in Scanned(rest) && SetsVersion(t);
      if |arg| == 0 || !IsOption(arg) {
        ScanFlags(rest, f);
      } else if arg == "--help" {
        ScanFlags(rest, f.(help := true));
      } else if arg == "--version" {
        ScanFlags(rest, f.(version := true));
      } else {
        BundleOutcome(arg[1..], f);
        ScanFlags(rest, Bundle(arg[1..], f).value);
      }
    }
  }

  /** The scan fails iff some token before the first `--` is a bundle with a
      character other than `h` or `v`. */
  lemma {:induction false} ScanFails(args: seq<string>, f: Flags)
    ensures Scan(args, f).Err? <==> exists t :: t in Scanned(args) && InvalidBundle(t)
  {
    if args != [] && args[0] != "--" {
      var arg, rest := args[0], args[1..];
      ScannedCons(args);
      assert (exists t :: t in Scanned(args) && InvalidBundle(t)) <==>
        InvalidBundle(arg) || exists t :: t in Scanned(rest) && InvalidBundle(t);
      if |arg| == 0 || !IsOption(arg) {
        ScanFails(rest, f);
      } else if arg == "--help" {
        ScanFails(rest, f.(help := true));
      } else if arg == "--version" {
        ScanFails(rest, f.(version := true));
      } else {
        BundleOutcome(arg[1..], f);
        if Bundle(arg[1..], f).Ok? {
          ScanFails(rest, Bundle(arg[1..], f).value);
        }
      }
    }
  }

  /** `S[i]` is the first invalid bundle of `S`, `S[i][1..][k]` its first
      bad character, and `e` the error that names it. */
  predicate ErrorAt(S: seq<string>, i: int, k: int, e: OptionError)
  {
    0 <= i < |S| && InvalidBundle(S[i]) &&
    (forall j :: 0 <= j < i ==> !InvalidBundle(S[j])) &&
    FirstBadAt(S[i][1..], k) && e == InvalidOption(S[i][1..][k])
  }

  lemma ErrorAtCons(arg: string, S: seq<string>, i: int, k: int, e: OptionError)
    requires !InvalidBundle(arg) && ErrorAt(S, i, k, e)
    ensures ErrorAt([arg] + S, i + 1, k, e)
  {
  }

  /** A failed scan reports the first bad character of the first invalid
      bundle before the first `--` (so `--foo` reports `-`). */
  lemma {:induction false} ScanErrorIsFirst(args: seq<string>, f: Flags)
    requires Scan(args, f).Err?
    ensures exists i, k :: ErrorAt(Scanned(args), i, k, Scan(args, f).error)
  {
    var arg, rest := args[0], args[1..];
    ScannedCons(args);
    if |arg| > 1 && arg[0] == '-' && arg != "--help" && arg != "--version" {
      BundleOutcome(arg[1..], f);
      if Bundle(arg[1..], f).Err? {
        var k :| FirstBadAt(arg[1..], k) && Bundle(arg[1..], f).error == InvalidOption(arg[1..][k]);
        assert arg[1..][k] in arg[1..];
        assert ErrorAt(Scanned(args), 0, k, Scan(args, f).error);
        return;
      }
      assert ValidBundle(arg);
    }
    var g := if arg == "--help" then f.(help := true)
             else if arg == "--version" then f.(version := true)
             else if |arg| > 1 && arg[0] == '-' then Bundle(arg[1..], f).value
             else f;
    assert Scan(args, f) == Scan(rest, g);
    ScanErrorIsFirst(rest, g);
    var i, k :| ErrorAt(Scanned(rest), i, k, Scan(rest, g).error);
    ErrorAtCons(arg, Scanned(rest), i, k, Scan(rest, g).error);
  }

  /** The expressions of a successful result with empty tokens removed. */
  function DropEmpty(r: Result<ProgramOptions>): Result<ProgramOptions>
  {
    match r
    case Ok(o) => Ok(o.(expressions := RemoveEmpty(o.expressions)))
    case Err(e) => Err(e)
  }

  lemma RemoveEmptyAppend(a: seq<string>, b: seq<string>)
    ensures RemoveEmpty(a + b) == RemoveEmpty(a) + RemoveEmpty(b)
  {
    if a != [] {
      assert (a + b)[1..] == a[1..] + b;
      RemoveEmptyAppend(a[1..], b);
    } else {
      assert a + b == b;
    }
  }

  /** Empty arguments are inert: removing them changes neither the outcome,
      nor the flags, nor the error, and they are exactly the empty tokens
      of the expressions. */
  lemma {:induction false} EmptyTokensInert(args: seq<string>, f: Flags)
    ensures Scan(RemoveEmpty(args), f) == DropEmpty(Scan(args, f))
  {
    if args != [] {
      var arg, rest := args[0], args[1..];
      assert args == [arg] + rest;
      RemoveEmptyAppend([arg], rest);
      if |arg| == 0 {
        assert arg == "" && RemoveEmpty([arg]) == [];
        assert RemoveEmpty(args) == RemoveEmpty(rest);
        EmptyTokensInert(rest, f);
        if Scan(rest, f).Ok? {
          var e := Scan(rest, f).value.expressions;
          RemoveEmptyAppend([arg], e);
          assert RemoveEmpty([arg] + e) == RemoveEmpty(e);
        }
      } else {
        assert RemoveEmpty(args) == [arg] + RemoveEmpty(rest);
        assert RemoveEmpty(args)[1..] == RemoveEmpty(rest);
        if arg == "--" {
        } else if arg == "--help" {
          EmptyTokensInert(rest, f.(help := true));
        } else if arg == "--version" {
          EmptyTokensInert(rest, f.(version := true));
        } else if |arg| > 1 && arg[0] == '-' {
          if Bundle(arg[1..], f).Ok? {
            EmptyTokensInert(rest, Bundle(arg[1..], f).value);
          }
        } else {
          EmptyTokensInert(rest, f);
          if Scan(rest, f).Ok? {
            RemoveEmptyAppend([arg], Scan(rest, f).value.expressions);
          }
        }
      }
    }
  }

  /** The scan never looks at the program name, and `argc < 1` is an error. */
  lemma ProgramNameIgnored(argc: int, argv: seq<string>, name: string)
    requires argc <= |argv|
    ensures argc < 1 ==> ParseSpec(argc, argv) == Err(NoArguments)
    ensures 1 <= argc ==> ParseSpec(argc, argv) == ParseSpec(argc, [name] + argv[1..])
  {
    if 1 <= argc {
      assert ([name] + argv[1..])[1..argc] == argv[1..argc];
    }
  }

  /** Sample command lines: no arguments, and the flags in their forms. */
  lemma FlagExamples()
    ensures ParseSpec(1, ["rq"]) == Ok(ProgramOptions(false, false, []))
    ensures ParseSpec(2, ["rq", "--help"]) == Ok(ProgramOptions(true, false, []))
    ensures ParseSpec(2, ["rq", "-vh"]) == Ok(ProgramOptions(true, true, []))
    ensures ParseSpec(3, ["rq", "-h", "--version"]) == Ok(ProgramOptions(true, true, []))
  {
    assert ["rq", "--help"][1..2] == ["--help"] && ["--help"][1..] == [];
    assert ["rq", "-vh"][1..2] == ["-vh"] && ["-vh"][1..] == [];
    assert "-vh" != "--" && "-vh" != "--help" && "-vh" != "--version";
    assert "-vh"[1..] == "vh" && "vh"[1..] == "h" && "h"[1..] == "";
    assert ["rq", "-h", "--version"][1..3] == ["-h", "--version"];
    assert ["-h", "--version"][1..] == ["--version"] && ["--version"][1..] == [];
    assert "-h" != "--" && "-h" != "--help" && "-h" != "--version" && "-h"[1..] == "h";
  }

  /** Sample command lines: `--` ends option scanning, empty tokens and a
      lone `-` are expressions. */
  lemma ExpressionExamples()
    ensures ParseSpec(4, ["rq", "--", "-h", "foo"]) == Ok(ProgramOptions(false, false, ["-h", "foo"]))
    ensures ParseSpec(4, ["rq", "", "-", "x"]) == Ok(ProgramOptions(false, false, ["", "-", "x"]))
  {
    assert ["rq", "--", "-h", "foo"][1..4] == ["--", "-h", "foo"];
    assert ["--", "-h", "foo"][1..] == ["-h", "foo"];
    var args := ["", "-", "x"];
    assert ["rq", "", "-", "x"][1..4] == args;
    assert args[1..] == ["-", "x"] && args[1..][1..] == ["x"] && ["x"][1..] == [];
    assert "-" != "--" && "-" != "--help" && "-" != "--version";
    assert "x" != "--" && "x" != "--help" && "x" != "--version";
    assert |"-"| == 1 && |"x"| == 1 && "x"[0] != '-';
    assert ["x"] + [] == ["x"] && ["-"] + ["x"] == ["-", "x"] && [""] + ["-", "x"] == args;
    assert Scan(["x"], Flags(false, false)) == Ok(ProgramOptions(false, false, ["x"]));
    assert Scan(["-", "x"], Flags(false, false)) == Ok(ProgramOptions(false, false, ["-", "x"]));
  }

  /** Sample command lines that fail: an unknown short option, an unknown
      long option (reported by its second character), and a bad character
      after a good one; and the messages the constructor throws for them. */
  lemma ErrorExamples()
    ensures ParseSpec(0, []) == Err(NoArguments) && Message(NoArguments) == "Really?"
    ensures Message(InvalidOption('-')) == "invalid option --"
    ensures ParseSpec(2, ["rq", "-x"]) == Err(InvalidOption('x'))
    ensures ParseSpec(2, ["rq", "--foo"]) == Err(InvalidOption('-'))
    ensures ParseSpec(2, ["rq", "-hx"]) == Err(InvalidOption('x'))
  {
    assert ["rq", "-x"][1..2] == ["-x"] && "-x"[1..] == "x";
    assert "-x" != "--" && "-x" != "--help" && "-x" != "--version";
    assert ["rq", "--foo"][1..2] == ["--foo"] && "--foo"[1..] == "-foo";
    assert "--foo" != "--" && "--foo" != "--help" && "--foo" != "--version";
    assert ["rq", "-hx"][1..2] == ["-hx"] && "-hx"[1..] == "hx" && "hx"[1..] == "x";
    assert "-hx" != "--" && "-hx" != "--help" && "-hx" != "--version";
  }
}
