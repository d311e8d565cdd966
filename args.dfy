/** `parseArgs` (fetch-data.js): the command line, given as a list of arguments, sets the
    cookie file, the output directory and verbosity; `-h` asks for the help text, which
    the program prints before it exits. */
module Args {

  datatype Options = Options(cookieFile: string, outputDir: string, verbose: bool)

  /** Either the help text is wanted (the program prints it and exits with 0), or the
      program runs with the options. */
  datatype ArgsOutcome = Help | Run(options: Options)

  const DefaultCookieFile := "cookie.txt"
  const DefaultOutputDir := "data"
  const Defaults := Options(DefaultCookieFile, DefaultOutputDir, false)

  predicate IsHelpFlag(arg: string) { arg == "-h" || arg == "--help" }
  predicate IsVerboseFlag(arg: string) { arg == "-v" || arg == "--verbose" }
  predicate IsCookieFlag(arg: string) { arg == "-c" || arg == "--cookie" }
  predicate IsOutputFlag(arg: string) { arg == "-o" || arg == "--output" }

  /** The loop from position `i` on, with the options set so far. */
  function ParseFrom(args: seq<string>, i: nat, opts: Options): ArgsOutcome
    decreases |args| - i
  {
    if i >= |args| then Run(opts)
    else
      var arg := args[i];
      if IsHelpFlag(arg) then Help
      else if IsVerboseFlag(arg) then ParseFrom(args, i + 1, opts.(verbose := true))
      else if IsCookieFlag(arg) && i + 1 < |args| then ParseFrom(args, i + 2, opts.(cookieFile := args[i + 1]))
      else if IsOutputFlag(arg) && i + 1 < |args| then ParseFrom(args, i + 2, opts.(outputDir := args[i + 1]))
      else ParseFrom(args, i + 1, opts)
  }

  /** `parseArgs()` on the arguments after the program name. */
  function ParseArgsOf(args: seq<string>): ArgsOutcome {
    ParseFrom(args, 0, Defaults)
  }

  /** `parseArgs()`: `i` moves by one per turn, and by one more when a flag takes the next
      argument as its value. */
  method ParseArgs(args: seq<string>) returns (outcome: ArgsOutcome)
    ensures outcome == ParseArgsOf(args)
  {
    var options := Defaults;
    var i := 0;
    while i < |args|
      invariant 0 <= i <= |args| + 1
      invariant ParseFrom(args, i, options) == ParseArgsOf(args)
      decreases |args| - i
    {
      var arg := args[i];
      if arg == "-h" || arg == "--help" {
        return Help;
      }
      if arg == "-v" || arg == "--verbose" {
        options := options.(verbose := true);
        i := i + 1;
        continue;
      }
      if (arg == "-c" || arg == "--cookie") && i + 1 < |args| {
        i := i + 1;
        options := options.(cookieFile := args[i]);
        i := i + 1;
        continue;
      }
      if (arg == "-o" || arg == "--output") && i + 1 < |args| {
        i := i + 1;
        options := options.(outputDir := args[i]);
        i := i + 1;
        continue;
      }
      i := i + 1;
    }
    return Run(options);
  }

  /* ---------- which arguments are read as flags ---------- */

  /** Whether the argument at `i` takes the next one as its value. */
  predicate TakesValue(args: seq<string>, i: nat) {
    i + 1 < |args| && (IsCookieFlag(args[i]) || IsOutputFlag(args[i]))
  }

  /** Where the loop goes after a flag at `i`. */
  function NextPos(args: seq<string>, i: nat): nat {
    if TakesValue(args, i) then i + 2 else i + 1
  }

  /** The positions from `i` on that the loop reads as flags (the values of `-c` and `-o`
      are skipped), up to the end of the list. */
  function Scanned(args: seq<string>, i: nat): (r: set<nat>)
    ensures forall p :: p in r ==> i <= p < |args|
    decreases |args| - i
  {
    if i >= |args| then {}
    else {i} + Scanned(args, NextPos(args, i))
  }

  /** The options after reading the argument at `i` (not a help flag). */
  function Updated(args: seq<string>, i: nat, opts: Options): Options
    requires i < |args|
  {
    if IsVerboseFlag(args[i]) then opts.(verbose := true)
    else if IsCookieFlag(args[i]) && i + 1 < |args| then opts.(cookieFile := args[i + 1])
    else if IsOutputFlag(args[i]) && i + 1 < |args| then opts.(outputDir := args[i + 1])
    else opts
  }

  /** One turn of the loop: a help flag ends it with the help text, any other argument
      moves it on with the options updated. */
  lemma ParseStep(args: seq<string>, i: nat, opts: Options)
    requires i < |args|
    ensures IsHelpFlag(args[i]) ==> ParseFrom(args, i, opts) == Help
    ensures !IsHelpFlag(args[i]) ==>
      ParseFrom(args, i, opts) == ParseFrom(args, NextPos(args, i), Updated(args, i, opts))
  {
  }

  /** The outcome is the help text exactly when `-h` or `--help` is read as a flag. */
  lemma {:induction false} HelpIff(args: seq<string>, i: nat, opts: Options)
    ensures ParseFrom(args, i, opts).Help? <==> exists p :: p in Scanned(args, i) && IsHelpFlag(args[p])
    decreases |args| - i
  {
    if i < |args| && !IsHelpFlag(args[i]) {
      ParseStep(args, i, opts);
      HelpIff(args, NextPos(args, i), Updated(args, i, opts));
    }
  }

  /** Verbose is on exactly when it was on before or `-v`/`--verbose` is read as a flag. */
  lemma {:induction false} VerboseIff(args: seq<string>, i: nat, opts: Options)
    requires ParseFrom(args, i, opts).Run?
    ensures ParseFrom(args, i, opts).options.verbose <==>
      opts.verbose || exists p :: p in Scanned(args, i) && IsVerboseFlag(args[p])
    decreases |args| - i
  {
    if i < |args| {
      ParseStep(args, i, opts);
      VerboseIff(args, NextPos(args, i), Updated(args, i, opts));
    }
  }

  /** A value taken by `-c` or `-o` is never read as a flag, even when it looks like one. */
  lemma {:induction false} ValueNotScanned(args: seq<string>, i: nat, p: nat)
    requires p in Scanned(args, i) && TakesValue(args, p)
    ensures p + 1 !in Scanned(args, i)
    decreases |args| - i
  {
    if p != i {
      ValueNotScanned(args, NextPos(args, i), p);
    }
  }

  /** `-c`/`--cookie` read as a flag at `q`, with a value after it. */
  predicate CookieAt(args: seq<string>, q: nat) {
    TakesValue(args, q) && IsCookieFlag(args[q])
  }

  /** `-o`/`--output` read as a flag at `q`, with a value after it. */
  predicate OutputAt(args: seq<string>, q: nat) {
    TakesValue(args, q) && IsOutputFlag(args[q])
  }

  /** `p` is the last position from `i` on where the cookie flag is read. */
  predicate LastCookieAt(args: seq<string>, i: nat, p: nat) {
    p in Scanned(args, i) && CookieAt(args, p)
    && forall q :: q in Scanned(args, i) && q > p ==> !CookieAt(args, q)
  }

  /** `p` is the last position from `i` on where the output flag is read. */
  predicate LastOutputAt(args: seq<string>, i: nat, p: nat) {
    p in Scanned(args, i) && OutputAt(args, p)
    && forall q :: q in Scanned(args, i) && q > p ==> !OutputAt(args, q)
  }

  /** The cookie file is the value after the last `-c`/`--cookie` read as a flag with an
      argument after it, or the starting one when there is none. */
  lemma {:induction false} LastCookieWins(args: seq<string>, i: nat, opts: Options)
    requires ParseFrom(args, i, opts).Run?
    ensures (exists p :: LastCookieAt(args, i, p) && ParseFrom(args, i, opts).options.cookieFile == args[p + 1])
         || ((forall q :: q in Scanned(args, i) ==> !CookieAt(args, q))
             && ParseFrom(args, i, opts).options.cookieFile == opts.cookieFile)
    decreases |args| - i
  {
    if i < |args| {
      var next := NextPos(args, i);
      ParseStep(args, i, opts);
      LastCookieWins(args, next, Updated(args, i, opts));
      var result := ParseFrom(args, i, opts).options.cookieFile;
      assert Scanned(args, i) == {i} + Scanned(args, next);
      if p :| LastCookieAt(args, next, p) && result == args[p + 1] {
        assert LastCookieAt(args, i, p);
      } else if CookieAt(args, i) {
        assert LastCookieAt(args, i, i);
      }
    }
  }

  /** The output directory is the value after the last `-o`/`--output` read as a flag with
      an argument after it, or the starting one when there is none. */
  lemma {:induction false} LastOutputWins(args: seq<string>, i: nat, opts: Options)
    requires ParseFrom(args, i, opts).Run?
    ensures (exists p :: LastOutputAt(args, i, p) && ParseFrom(args, i, opts).options.outputDir == args[p + 1])
         || ((forall q :: q in Scanned(args, i) ==> !OutputAt(args, q))
             && ParseFrom(args, i, opts).options.outputDir == opts.outputDir)
    decreases |args| - i
  {
    if i < |args| {
      var next := NextPos(args, i);
      ParseStep(args, i, opts);
      LastOutputWins(args, next, Updated(args, i, opts));
      var result := ParseFrom(args, i, opts).options.outputDir;
      assert Scanned(args, i) == {i} + Scanned(args, next);
      if p :| LastOutputAt(args, next, p) && result == args[p + 1] {
        assert LastOutputAt(args, i, p);
      } else if OutputAt(args, i) {
        assert LastOutputAt(args, i, i);
      }
    }
  }

  /** `-c -v`: the flag takes `-v` as the cookie file, and verbose stays off. */
  lemma CookieFlagTakesFlagLikeValue()
    ensures ParseArgsOf(["-c", "-v"]) == Run(Options("-v", DefaultOutputDir, false))
  {
    var args := ["-c", "-v"];
    assert TakesValue(args, 0);
    ParseStep(args, 0, Defaults);
  }

  /** With no arguments the program runs with the defaults. */
  lemma NoArguments()
    ensures ParseArgsOf([]) == Run(Options("cookie.txt", "data", false))
  {
  }
}
