/**
 * The command-line loop at the top of `main`: it walks `args` with an index,
 * consuming a flag and its value two at a time, and ends in a configuration,
 * the usage text (normal return) or `exit(2)`.
 */
module Cli {
  import opened Options
  import opened KotlinLong

  /** The three variables the loop assigns. `cycles == -1` means "run forever". */
  datatype Config = Config(triggerFile: string, cmdLine: string, cycles: int)

  /** How the loop ends: a configuration to run, the usage text, or `exit(code)`. */
  datatype Outcome = Run(config: Config) | Help | Exit(code: int)

  const Defaults := Config("./trigger", "sleep 10", -1)

  predicate IsFileFlag(a: string) { a == "-f" || a == "--file" }
  predicate IsCmdFlag(a: string) { a == "-c" || a == "--cmd" || a == "--command" }
  predicate IsCyclesFlag(a: string) { a == "-n" || a == "--cycles" || a == "--test-cycles" }
  predicate IsHelpFlag(a: string) { a == "-h" || a == "--help" }
  predicate IsValueFlag(a: string) { IsFileFlag(a) || IsCmdFlag(a) || IsCyclesFlag(a) }

  /** The `-n` value as the loop reads it: the parsed number, or -1 when `toLong` throws. */
  function CyclesValue(v: string): (n: int)
    ensures n == -1 || LongMin <= n <= LongMax
    ensures n >= 0 <==> ToLong(v).Some? && ToLong(v).value >= 0
  {
    match ToLong(v)
    case Some(x) => x
    case None => -1
  }

  /**
   * What the loop does with the remaining arguments `args` when its variables
   * hold `c`: the specification of ParseArgs.
   */
  function ParseFrom(args: seq<string>, c: Config): (r: Outcome)
    ensures r.Exit? ==> r.code == 2
    ensures r.Run? ==> r.config.cycles == c.cycles || 0 <= r.config.cycles <= LongMax
    ensures r.Run? && c.cycles >= -1 ==> r.config.cycles >= -1
    decreases |args|
  {
    if args == [] then Run(c)
    else if IsFileFlag(args[0]) then
      if |args| < 2 then Exit(2) else ParseFrom(args[2..], c.(triggerFile := args[1]))
    else if IsCmdFlag(args[0]) then
      if |args| < 2 then Exit(2) else ParseFrom(args[2..], c.(cmdLine := args[1]))
    else if IsCyclesFlag(args[0]) then
      if |args| < 2 then Exit(2)
      else if CyclesValue(args[1]) < 0 then Exit(2)
      else ParseFrom(args[2..], c.(cycles := CyclesValue(args[1])))
    else if IsHelpFlag(args[0]) then Help
    else Exit(2)
  }

  function Parse(args: seq<string>): Outcome
  {
    ParseFrom(args, Defaults)
  }

  /** The `while (i < args.size)` loop of `main`. */
  method ParseArgs(args: seq<string>) returns (r: Outcome)
    ensures r == Parse(args)
    ensures r.Exit? ==> r.code == 2
    ensures r.Run? ==> r.config.cycles == -1 || 0 <= r.config.cycles <= LongMax
  {
    var triggerFile := "./trigger";
    var cmdLine := "sleep 10";
    var cycles := -1;
    var i := 0;
    while i < |args|
      invariant 0 <= i <= |args|
      invariant ParseFrom(args[i..], Config(triggerFile, cmdLine, cycles)) == Parse(args)
      invariant cycles == -1 || 0 <= cycles <= LongMax
      decreases |args| - i
    {
      assert args[i..][0] == args[i];
      if IsFileFlag(args[i]) {
        if i + 1 >= |args| {
          return Exit(2);
        }
        assert args[i..][2..] == args[i + 2..];
        triggerFile := args[i + 1];
        i := i + 2;
      } else if IsCmdFlag(args[i]) {
        if i + 1 >= |args| {
          return Exit(2);
        }
        assert args[i..][2..] == args[i + 2..];
        cmdLine := args[i + 1];
        i := i + 2;
      } else if IsCyclesFlag(args[i]) {
        if i + 1 >= |args| {
          return Exit(2);
        }
        var v := args[i + 1];
        var parsed := -1;
        match ToLong(v) {
          case Some(x) => parsed := x;
          case None =>
        }
        if parsed < 0 {
          return Exit(2);
        }
        assert args[i..][2..] == args[i + 2..];
        cycles := parsed;
        i := i + 2;
      } else if IsHelpFlag(args[i]) {
        return Help;
      } else {
        return Exit(2);
      }
    }
    r := Run(Config(triggerFile, cmdLine, cycles));
  }

  /** Parsing a prefix that ends in a configuration, then the rest, is parsing the whole. */
  lemma {:induction false} ParseAppend(a: seq<string>, b: seq<string>, c: Config)
    requires ParseFrom(a, c).Run?
    ensures ParseFrom(a + b, c) == ParseFrom(b, ParseFrom(a, c).config)
    decreases |a|
  {
    if a != [] {
      assert (a + b)[0] == a[0];
      assert (a + b)[2..] == a[2..] + b;
      if IsFileFlag(a[0]) {
        ParseAppend(a[2..], b, c.(triggerFile := a[1]));
      } else if IsCmdFlag(a[0]) {
        ParseAppend(a[2..], b, c.(cmdLine := a[1]));
      } else {
        ParseAppend(a[2..], b, c.(cycles := CyclesValue(a[1])));
      }
    } else {
      assert a + b == b;
    }
  }

  /** With no arguments the loop never runs and the defaults stand. */
  lemma NoArguments()
    ensures Parse([]) == Run(Config("./trigger", "sleep 10", -1))
  {
  }

  /**
   * A value flag consumes exactly two arguments: its value is taken verbatim,
   * even when it looks like a flag itself, and parsing resumes after it.
   */
  lemma ConsumesTwo(flag: string, v: string, rest: seq<string>, c: Config)
    requires IsFileFlag(flag) || IsCmdFlag(flag)
    ensures ParseFrom([flag, v] + rest, c)
         == ParseFrom(rest, if IsFileFlag(flag) then c.(triggerFile := v) else c.(cmdLine := v))
  {
  }

  /** A value flag in the last position, with no value after it, exits with code 2. */
  lemma MissingValue(a: seq<string>, flag: string)
    requires Parse(a).Run?
    requires IsValueFlag(flag)
    ensures Parse(a + [flag]) == Exit(2)
  {
    ParseAppend(a, [flag], Defaults);
  }

  /** An unusable or negative `-n` value exits with code 2, whatever follows. */
  lemma BadCycles(a: seq<string>, flag: string, v: string, b: seq<string>)
    requires Parse(a).Run?
    requires IsCyclesFlag(flag)
    requires ToLong(v).None? || ToLong(v).value < 0
    ensures Parse(a + [flag, v] + b) == Exit(2)
  {
    assert a + [flag, v] + b == a + ([flag, v] + b);
    ParseAppend(a, [flag, v] + b, Defaults);
  }

  /** A usable `-n` value sets `cycles` to the parsed number, and nothing else changes. */
  lemma GoodCycles(a: seq<string>, flag: string, v: string)
    requires Parse(a).Run?
    requires IsCyclesFlag(flag)
    requires ToLong(v).Some? && ToLong(v).value >= 0
    ensures Parse(a + [flag, v]) == Run(Parse(a).config.(cycles := ToLong(v).value))
  {
    ParseAppend(a, [flag, v], Defaults);
    assert [flag, v][2..] == [];
  }

  /** `-n` followed by the decimal rendering of any N in 0..Long.MAX_VALUE runs N cycles. */
  lemma CyclesDecimal(n: int)
    requires 0 <= n <= LongMax
    ensures Parse(["-n", Decimal(n)]) == Run(Config("./trigger", "sleep 10", n))
  {
    ToLongDecimal(n);
    GoodCycles([], "-n", Decimal(n));
    assert [] + ["-n", Decimal(n)] == ["-n", Decimal(n)];
  }

  /** `-h`/`--help` ends the loop with a normal return, whatever follows. */
  lemma HelpStops(a: seq<string>, h: string, b: seq<string>)
    requires Parse(a).Run?
    requires IsHelpFlag(h)
    ensures Parse(a + [h] + b) == Help
  {
    assert a + [h] + b == a + ([h] + b);
    ParseAppend(a, [h] + b, Defaults);
  }

  /** Any argument in flag position that is not a known flag exits with code 2. */
  lemma UnknownRejected(a: seq<string>, u: string, b: seq<string>)
    requires Parse(a).Run?
    requires !IsValueFlag(u) && !IsHelpFlag(u)
    ensures Parse(a + [u] + b) == Exit(2)
  {
    assert a + [u] + b == a + ([u] + b);
    ParseAppend(a, [u] + b, Defaults);
  }

  predicate NoFileFlag(b: seq<string>) { forall k :: 0 <= k < |b| ==> !IsFileFlag(b[k]) }
  predicate NoCmdFlag(b: seq<string>) { forall k :: 0 <= k < |b| ==> !IsCmdFlag(b[k]) }
  predicate NoCyclesFlag(b: seq<string>) { forall k :: 0 <= k < |b| ==> !IsCyclesFlag(b[k]) }

  /** Arguments that never name a flag never change the variable that flag sets. */
  lemma {:induction false} Untouched(b: seq<string>, c: Config)
    requires ParseFrom(b, c).Run?
    ensures NoFileFlag(b) ==> ParseFrom(b, c).config.triggerFile == c.triggerFile
    ensures NoCmdFlag(b) ==> ParseFrom(b, c).config.cmdLine == c.cmdLine
    ensures NoCyclesFlag(b) ==> ParseFrom(b, c).config.cycles == c.cycles
    decreases |b|
  {
    if b != [] {
      var rest := b[2..];
      assert forall k :: 0 <= k < |rest| ==> rest[k] == b[k + 2];
      if IsFileFlag(b[0]) {
        Untouched(rest, c.(triggerFile := b[1]));
      } else if IsCmdFlag(b[0]) {
        Untouched(rest, c.(cmdLine := b[1]));
      } else {
        Untouched(rest, c.(cycles := CyclesValue(b[1])));
      }
    }
  }

  /** A repeated flag takes the value of its last occurrence. */
  lemma LastOccurrenceWins(a: seq<string>, flag: string, v: string, b: seq<string>)
    requires Parse(a).Run?
    requires Parse(a + [flag, v] + b).Run?
    ensures IsFileFlag(flag) && NoFileFlag(b) ==>
      Parse(a + [flag, v] + b).config.triggerFile == v
    ensures IsCmdFlag(flag) && NoCmdFlag(b) ==>
      Parse(a + [flag, v] + b).config.cmdLine == v
    ensures IsCyclesFlag(flag) && NoCyclesFlag(b) ==>
      ToLong(v) == Some(Parse(a + [flag, v] + b).config.cycles)
  {
    assert a + [flag, v] + b == a + ([flag, v] + b);
    ParseAppend(a, [flag, v] + b, Defaults);
    assert ([flag, v] + b)[0] == flag && ([flag, v] + b)[1] == v;
    assert ([flag, v] + b)[2..] == b;
    var c := Parse(a).config;
    if IsFileFlag(flag) {
      Untouched(b, c.(triggerFile := v));
    } else if IsCmdFlag(flag) {
      Untouched(b, c.(cmdLine := v));
    } else if IsCyclesFlag(flag) {
      Untouched(b, c.(cycles := CyclesValue(v)));
    }
  }

  /** The file named by a file flag somewhere in `args`. */
  ghost predicate FileGiven(args: seq<string>, v: string)
  {
    exists k :: 0 <= k < |args| - 1 && IsFileFlag(args[k]) && args[k + 1] == v
  }

  /** The command line named by a command flag somewhere in `args`. */
  ghost predicate CmdGiven(args: seq<string>, v: string)
  {
    exists k :: 0 <= k < |args| - 1 && IsCmdFlag(args[k]) && args[k + 1] == v
  }

  /** The count named by a cycles flag somewhere in `args`. */
  ghost predicate CyclesGiven(args: seq<string>, n: int)
  {
    exists k :: 0 <= k < |args| - 1 && IsCyclesFlag(args[k]) && ToLong(args[k + 1]) == Some(n)
  }

  /**
   * Every value in a configuration is either the one the loop started with
   * or the argument that follows a matching flag.
   */
  lemma {:induction false} ValuesFromArgs(args: seq<string>, c: Config)
    requires ParseFrom(args, c).Run?
    ensures ParseFrom(args, c).config.triggerFile == c.triggerFile
         || FileGiven(args, ParseFrom(args, c).config.triggerFile)
    ensures ParseFrom(args, c).config.cmdLine == c.cmdLine
         || CmdGiven(args, ParseFrom(args, c).config.cmdLine)
    ensures ParseFrom(args, c).config.cycles == c.cycles
         || CyclesGiven(args, ParseFrom(args, c).config.cycles)
    decreases |args|
  {
    if args != [] {
      var rest := args[2..];
      var r := ParseFrom(args, c).config;
      var c' := if IsFileFlag(args[0]) then c.(triggerFile := args[1])
                else if IsCmdFlag(args[0]) then c.(cmdLine := args[1])
                else c.(cycles := CyclesValue(args[1]));
      assert ParseFrom(rest, c') == ParseFrom(args, c);
      ValuesFromArgs(rest, c');
      if r.triggerFile != c'.triggerFile {
        var k :| 0 <= k < |rest| - 1 && IsFileFlag(rest[k]) && rest[k + 1] == r.triggerFile;
        assert args[k + 2] == rest[k] && args[k + 3] == rest[k + 1];
      }
      if r.cmdLine != c'.cmdLine {
        var k :| 0 <= k < |rest| - 1 && IsCmdFlag(rest[k]) && rest[k + 1] == r.cmdLine;
        assert args[k + 2] == rest[k] && args[k + 3] == rest[k + 1];
      }
      if r.cycles != c'.cycles {
        var k :| 0 <= k < |rest| - 1 && IsCyclesFlag(rest[k]) && ToLong(rest[k + 1]) == Some(r.cycles);
        assert args[k + 2] == rest[k] && args[k + 3] == rest[k + 1];
      }
    }
  }
}
