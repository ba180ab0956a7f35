/** The server entry point: the command-line options (`parseArgs`), and the
    arithmetic of the `write_to_terminal` and `read_terminal_output` tools. */
module Index {
  import opened Wrappers
  import opened JsText
  import opened JsNumber
  import opened WindowManager
  import opened TtyOutputReader

  // ---------------------------------------------------------------------
  // Command-line options
  // ---------------------------------------------------------------------

  /** What `parseArgs` returns. */
  datatype Config = Config(agentName: Option<string>, profileName: Option<string>, createWindowOnly: bool)

  /** No agent (use the current window), no profile, start the server. */
  const Defaults := Config(None, None, false)

  /** The two options that take a value. */
  datatype Key = AgentKey | ProfileKey

  /** One step of the argument loop: an option with the value it consumed,
      the `--create-window` switch, or a token the loop passes over (an
      unknown token, or `--agent`/`--profile` with nothing after it). */
  datatype Flag = Valued(key: Key, value: string) | CreateWindow | Skipped(token: string)

  function KeyText(k: Key): string {
    match k
    case AgentKey => "--agent"
    case ProfileKey => "--profile"
  }

  const CreateWindowText := "--create-window"

  /** The tokens a step covers. */
  function FlagTokens(f: Flag): seq<string> {
    match f
    case Valued(k, v) => [KeyText(k), v]
    case CreateWindow => [CreateWindowText]
    case Skipped(t) => [t]
  }

  /** The step the loop of `parseArgs` takes at the start of `args`: it
      covers the first one or two arguments. */
  function FirstStep(args: seq<string>): (f: Flag)
    requires |args| > 0
    ensures 1 <= |FlagTokens(f)| <= |args| && args[..|FlagTokens(f)|] == FlagTokens(f)
  {
    if args[0] == KeyText(AgentKey) && 1 < |args| then Valued(AgentKey, args[1])
    else if args[0] == KeyText(ProfileKey) && 1 < |args| then Valued(ProfileKey, args[1])
    else if args[0] == CreateWindowText then CreateWindow
    else Skipped(args[0])
  }

  /** The steps the loop of `parseArgs` takes over `args`, left to right. */
  function Tokenize(args: seq<string>): (flags: seq<Flag>)
    ensures |flags| <= |args|
    ensures |flags| == 0 <==> |args| == 0
    decreases |args|
  {
    if |args| == 0 then []
    else
      var f := FirstStep(args);
      [f] + Tokenize(args[|FlagTokens(f)|..])
  }

  function Untokenize(flags: seq<Flag>): seq<string>
    decreases |flags|
  {
    if |flags| == 0 then [] else FlagTokens(flags[0]) + Untokenize(flags[1..])
  }

  /** The steps cover every token exactly once, in order. */
  lemma {:induction false} UntokenizeTokenize(args: seq<string>)
    ensures Untokenize(Tokenize(args)) == args
    decreases |args|
  {
    if |args| > 0 {
      var w := |FlagTokens(FirstStep(args))|;
      UntokenizeFirstStep(args);
      UntokenizeTokenize(args[w..]);
      assert args == args[..w] + args[w..];
    }
  }

  /** The first step gives back the arguments it covers. */
  lemma UntokenizeFirstStep(args: seq<string>)
    requires |args| > 0
    ensures var w := |FlagTokens(FirstStep(args))|;
            Untokenize(Tokenize(args)) == args[..w] + Untokenize(Tokenize(args[w..]))
  {
    var flags := Tokenize(args);
    assert flags[1..] == Tokenize(args[|FlagTokens(FirstStep(args))|..]);
  }

  /** The effect of one step on the options gathered so far. */
  function Step(cfg: Config, f: Flag): Config {
    match f
    case Valued(AgentKey, v) => cfg.(agentName := Some(v))
    case Valued(ProfileKey, v) => cfg.(profileName := Some(v))
    case CreateWindow => cfg.(createWindowOnly := true)
    case Skipped(_) => cfg
  }

  /** The options after taking the steps in order. */
  function Apply(cfg: Config, flags: seq<Flag>): Config
    decreases |flags|
  {
    if |flags| == 0 then cfg else Apply(Step(cfg, flags[0]), flags[1..])
  }

  /** `parseArgs()` on the arguments after the script name. */
  function Parse(args: seq<string>): Config {
    Apply(Defaults, Tokenize(args))
  }

  /** The value of the last step that sets `k`, if any. */
  function LastValue(flags: seq<Flag>, k: Key): Option<string>
    decreases |flags|
  {
    if |flags| == 0 then None
    else
      var later := LastValue(flags[1..], k);
      if later.Some? then later
      else if flags[0].Valued? && flags[0].key == k then Some(flags[0].value)
      else None
  }

  predicate Sets(f: Flag, k: Key) {
    f.Valued? && f.key == k
  }

  /** `LastValue` is the value of the step at `i` when no later step sets the
      same option. */
  lemma {:induction false} LastValueIsLastSetting(flags: seq<Flag>, k: Key, i: nat)
    requires i < |flags| && Sets(flags[i], k)
    requires forall j :: i < j < |flags| ==> !Sets(flags[j], k)
    ensures LastValue(flags, k) == Some(flags[i].value)
    decreases |flags|
  {
    if i == 0 {
      LastValueAbsent(flags[1..], k);
    } else {
      LastValueIsLastSetting(flags[1..], k, i - 1);
    }
  }

  /** `LastValue` is `None` exactly when no step sets the option. */
  lemma {:induction false} LastValueAbsent(flags: seq<Flag>, k: Key)
    ensures LastValue(flags, k).None? <==> forall j :: 0 <= j < |flags| ==> !Sets(flags[j], k)
    decreases |flags|
  {
    if |flags| > 0 {
      LastValueAbsent(flags[1..], k);
      assert forall j :: 1 <= j < |flags| ==> flags[j] == flags[1..][j - 1];
    }
  }

  /** The options after a run of steps: each valued option is the last value
      given for it (or what it was before), and `createWindowOnly` is set once
      the switch occurs. */
  lemma {:induction false} ApplyGathers(cfg: Config, flags: seq<Flag>)
    ensures Apply(cfg, flags).agentName ==
              (if LastValue(flags, AgentKey).Some? then LastValue(flags, AgentKey) else cfg.agentName)
    ensures Apply(cfg, flags).profileName ==
              (if LastValue(flags, ProfileKey).Some? then LastValue(flags, ProfileKey) else cfg.profileName)
    ensures Apply(cfg, flags).createWindowOnly <==> cfg.createWindowOnly || CreateWindow in flags
    decreases |flags|
  {
    if |flags| > 0 {
      ApplyGathers(Step(cfg, flags[0]), flags[1..]);
      assert CreateWindow in flags <==> flags[0] == CreateWindow || CreateWindow in flags[1..];
    }
  }

  /** The step the loop takes at index `i`, read off `args[i]` and
      `args[i + 1]` as the loop does, followed by the steps after it. */
  lemma TokenizeAt(args: seq<string>, i: nat)
    requires i < |args|
    ensures var f := FirstStep(args[i..]);
            && f == (if args[i] == KeyText(AgentKey) && i + 1 < |args| then Valued(AgentKey, args[i + 1])
                     else if args[i] == KeyText(ProfileKey) && i + 1 < |args| then Valued(ProfileKey, args[i + 1])
                     else if args[i] == CreateWindowText then CreateWindow
                     else Skipped(args[i]))
            && Tokenize(args[i..]) == [f] + Tokenize(args[i + |FlagTokens(f)|..])
  {
    var rest := args[i..];
    assert rest[0] == args[i];
    if i + 1 < |args| {
      assert rest[1] == args[i + 1];
    }
    assert rest[|FlagTokens(FirstStep(rest))|..] == args[i + |FlagTokens(FirstStep(rest))|..];
  }

  /** A turn of the loop that reads `--agent` and its value. */
  lemma AgentTurn(args: seq<string>, i: nat, cfg: Config)
    requires i + 1 < |args| && args[i] == "--agent"
    ensures Apply(cfg.(agentName := Some(args[i + 1])), Tokenize(args[i + 2..])) == Apply(cfg, Tokenize(args[i..]))
  {
    TokenizeAt(args, i);
  }

  /** A turn of the loop that reads `--profile` and its value. */
  lemma ProfileTurn(args: seq<string>, i: nat, cfg: Config)
    requires i + 1 < |args| && args[i] == "--profile"
    ensures Apply(cfg.(profileName := Some(args[i + 1])), Tokenize(args[i + 2..])) == Apply(cfg, Tokenize(args[i..]))
  {
    TokenizeAt(args, i);
  }

  /** A turn of the loop that reads the `--create-window` switch. */
  lemma CreateWindowTurn(args: seq<string>, i: nat, cfg: Config)
    requires i < |args| && args[i] == "--create-window"
    ensures Apply(cfg.(createWindowOnly := true), Tokenize(args[i + 1..])) == Apply(cfg, Tokenize(args[i..]))
  {
    TokenizeAt(args, i);
  }

  /** A turn of the loop that passes over an argument. */
  lemma SkipTurn(args: seq<string>, i: nat, cfg: Config)
    requires i < |args|
    requires !(args[i] == "--agent" && i + 1 < |args|) && !(args[i] == "--profile" && i + 1 < |args|)
    requires args[i] != "--create-window"
    ensures Apply(cfg, Tokenize(args[i + 1..])) == Apply(cfg, Tokenize(args[i..]))
  {
    var rest := args[i..];
    assert rest[0] == args[i];
    if i + 1 < |args| {
      assert rest[1] == args[i + 1];
    }
    assert FirstStep(rest) == Skipped(args[i]);
    assert rest[1..] == args[i + 1..];
    ApplyFirst(cfg, Skipped(args[i]), Tokenize(args[i + 1..]));
  }

  /** Taking a step and then the rest is taking them all. */
  lemma ApplyFirst(cfg: Config, f: Flag, flags: seq<Flag>)
    ensures Apply(cfg, [f] + flags) == Apply(Step(cfg, f), flags)
  {
    assert ([f] + flags)[1..] == flags;
  }

  /** The loop of `parseArgs` as written (an option's value is consumed by
      skipping the index past it): it takes exactly the steps of `Tokenize`,
      keeps the last value of each option, and turns `createWindowOnly` on
      exactly when `--create-window` is a step of its own. */
  method ParseArgs(args: seq<string>) returns (cfg: Config)
    ensures cfg == Parse(args)
    ensures cfg.agentName == LastValue(Tokenize(args), AgentKey)
    ensures cfg.profileName == LastValue(Tokenize(args), ProfileKey)
    ensures cfg.createWindowOnly <==> CreateWindow in Tokenize(args)
  {
    cfg := Defaults;
    var i := 0;
    while i < |args|
      invariant 0 <= i <= |args|
      invariant Apply(cfg, Tokenize(args[i..])) == Parse(args)
    {
      if args[i] == "--agent" && i + 1 < |args| {
        AgentTurn(args, i, cfg);
        cfg := cfg.(agentName := Some(args[i + 1]));
        i := i + 2;
      } else if args[i] == "--profile" && i + 1 < |args| {
        ProfileTurn(args, i, cfg);
        cfg := cfg.(profileName := Some(args[i + 1]));
        i := i + 2;
      } else if args[i] == "--create-window" {
        CreateWindowTurn(args, i, cfg);
        cfg := cfg.(createWindowOnly := true);
        i := i + 1;
      } else {
        SkipTurn(args, i, cfg);
        i := i + 1;
      }
    }
    assert args[i..] == [];
    ApplyGathers(Defaults, Tokenize(args));
  }

  /** An `--agent` or `--profile` passed over because nothing follows it. */
  predicate Waiting(f: Flag) {
    f == Skipped(KeyText(AgentKey)) || f == Skipped(KeyText(ProfileKey))
  }

  /** The argument loop ends on an `--agent` or `--profile` with no value
      after it, which a following argument would turn into its value. */
  predicate Dangling(args: seq<string>)
    decreases |args|
  {
    |args| > 0 &&
    var w := |FlagTokens(FirstStep(args))|;
    if w == |args| then Waiting(FirstStep(args)) else Dangling(args[w..])
  }

  /** Arguments appended after a step that is not waiting for its value do not
      change that step. */
  lemma FirstStepAppend(a: seq<string>, b: seq<string>)
    requires |a| > 1 || (|a| == 1 && !Waiting(FirstStep(a)))
    ensures FirstStep(a + b) == FirstStep(a)
  {
    var ab := a + b;
    assert ab[0] == a[0];
    if |a| > 1 {
      assert ab[1] == a[1];
    }
  }

  /** One step of `TokenizeAppend`: the first step of `a` is the first step
      of `a + b`, and the loop goes on over the rest of `a` followed by `b`. */
  lemma TokenizeAppendStep(a: seq<string>, b: seq<string>)
    requires |a| > 1 || (|a| == 1 && !Waiting(FirstStep(a)))
    ensures var f := FirstStep(a);
            Tokenize(a + b) == [f] + Tokenize(a[|FlagTokens(f)|..] + b)
  {
    FirstStepAppend(a, b);
    var w := |FlagTokens(FirstStep(a))|;
    assert (a + b)[w..] == a[w..] + b;
  }

  /** Without a waiting option at the end of `a`, the loop over `a + b` takes
      the steps of `a` and then those of `b`. */
  lemma {:induction false} TokenizeAppend(a: seq<string>, b: seq<string>)
    requires !Dangling(a)
    ensures Tokenize(a + b) == Tokenize(a) + Tokenize(b)
    decreases |a|
  {
    if |a| == 0 {
      assert a + b == b;
    } else {
      var f := FirstStep(a);
      TokenizeAppendStep(a, b);
      TokenizeAppend(a[|FlagTokens(f)|..], b);
    }
  }

  /** Taking two runs of steps is taking their concatenation. */
  lemma {:induction false} ApplyAppend(cfg: Config, f: seq<Flag>, g: seq<Flag>)
    ensures Apply(cfg, f + g) == Apply(Apply(cfg, f), g)
    decreases |f|
  {
    if |f| == 0 {
      assert f + g == g;
    } else {
      assert (f + g)[1..] == f[1..] + g;
      ApplyAppend(Step(cfg, f[0]), f[1..], g);
    }
  }

  /** A repeated option resolves to its last occurrence: appending
      `--agent x` (or `--profile x`) sets that option to `x` and nothing else. */
  lemma LastOccurrenceWins(a: seq<string>, k: Key, x: string)
    requires !Dangling(a)
    ensures Parse(a + [KeyText(k), x]) == Step(Parse(a), Valued(k, x))
  {
    TokenizeAppend(a, [KeyText(k), x]);
    var tail := [KeyText(k), x];
    assert tail[2..] == [];
    assert Tokenize(tail) == [Valued(k, x)];
    ApplyAppend(Defaults, Tokenize(a), [Valued(k, x)]);
  }

  /** An unrecognised token changes nothing. */
  lemma UnknownTokenIsSkipped(a: seq<string>, t: string)
    requires !Dangling(a)
    requires t != KeyText(AgentKey) && t != KeyText(ProfileKey) && t != CreateWindowText
    ensures Parse(a + [t]) == Parse(a)
  {
    TokenizeAppend(a, [t]);
    assert [t][1..] == [];
    assert Tokenize([t]) == [Skipped(t)];
    ApplyAppend(Defaults, Tokenize(a), [Skipped(t)]);
  }

  /** An option followed by a value is one step. */
  lemma TokenizeValued(k: Key, v: string, rest: seq<string>)
    ensures Tokenize([KeyText(k), v] + rest) == [Valued(k, v)] + Tokenize(rest)
  {
    var args := [KeyText(k), v] + rest;
    assert args[0] == KeyText(k) && args[1] == v;
    assert args[2..] == rest;
  }

  /** An unrecognised token is one skipped step. */
  lemma TokenizeOther(t: string, rest: seq<string>)
    requires t != KeyText(AgentKey) && t != KeyText(ProfileKey) && t != CreateWindowText
    ensures Tokenize([t] + rest) == [Skipped(t)] + Tokenize(rest)
  {
    var args := [t] + rest;
    assert args[0] == t;
    assert args[1..] == rest;
  }

  /** Worked cases: no arguments, a named agent, and an `--agent` with no
      value after it. */
  lemma ParseExamplesSimple()
    ensures Parse([]) == Defaults
    ensures Parse(["--agent", "My Custom Window"]) == Config(Some("My Custom Window"), None, false)
    ensures Parse(["--agent"]) == Defaults
  {
    TokenizeValued(AgentKey, "My Custom Window", []);
    assert ["--agent", "My Custom Window"] == [KeyText(AgentKey), "My Custom Window"] + [];
    var d := ["--agent"];
    assert FirstStep(d) == Skipped("--agent");
    assert d[1..] == [];
  }

  /** Worked cases: the token after `--agent` is its value even when it is a
      switch, and of two `--agent`s the second wins. */
  lemma ParseExamplesValueTaken()
    ensures Parse(["--agent", "--create-window"]) == Config(Some("--create-window"), None, false)
    ensures Parse(["--agent", "A", "--agent", "B"]).agentName == Some("B")
  {
    TokenizeValued(AgentKey, "--create-window", []);
    assert ["--agent", "--create-window"] == [KeyText(AgentKey), "--create-window"] + [];
    TokenizeValued(AgentKey, "A", ["--agent", "B"]);
    TokenizeValued(AgentKey, "B", []);
    assert ["--agent", "A", "--agent", "B"] == [KeyText(AgentKey), "A"] + ["--agent", "B"];
    assert ["--agent", "B"] == [KeyText(AgentKey), "B"] + [];
  }

  /** Worked case: unknown flags around `--agent Test-Window` are skipped. */
  lemma ParseExamplesMixed()
    ensures Parse(["--verbose", "--agent", "Test-Window", "--debug"]) == Config(Some("Test-Window"), None, false)
  {
    TokenizeOther("--verbose", ["--agent", "Test-Window", "--debug"]);
    TokenizeValued(AgentKey, "Test-Window", ["--debug"]);
    TokenizeOther("--debug", []);
    assert ["--verbose", "--agent", "Test-Window", "--debug"] == ["--verbose"] + ["--agent", "Test-Window", "--debug"];
    assert ["--agent", "Test-Window", "--debug"] == [KeyText(AgentKey), "Test-Window"] + ["--debug"];
    assert ["--debug"] == ["--debug"] + [];
  }

  // ---------------------------------------------------------------------
  // Tool arithmetic
  // ---------------------------------------------------------------------

  /** The `outputLines` that `write_to_terminal` reports: the line count of
      the buffer after the command minus that of the buffer before it, that
      is, the change in the number of newlines. */
  function OutputLines(before: string, after: string): (d: int)
    ensures d == Count(after, '\n') - Count(before, '\n')
  {
    |Split(after)| - |Split(before)|
  }

  /** A buffer that lost lines (the screen was cleared) reports a negative
      count. */
  lemma OutputLinesCanBeNegative()
    ensures OutputLines("a\nb", "a") == -1
  {
    assert "a\nb"[1..] == "\nb";
    assert "a\nb"[1..][1..] == "b";
  }

  /** The line count default of `read_terminal_output`: `Number(arg) || 25`,
      where `None` is an argument that is missing or not a number. */
  function LinesOfOutputOrDefault(arg: Option<int>): (n: int)
    ensures n != 0
    ensures arg.Some? && arg.value != 0 ==> n == arg.value
    ensures arg.None? || arg == Some(0) ==> n == DefaultLinesOfOutput
  {
    if arg.Some? && arg.value != 0 then arg.value else DefaultLinesOfOutput
  }

  const DefaultLinesOfOutput := 25

  /** `read_terminal_output` with the server's options: `call` with the
      defaulted count. The tool never returns the whole buffer for a falsy
      count: a positive count `n`, or the default 25, yields the buffer's last
      `n + 1` lines. */
  function ReadTerminalOutput(config: Config, reg: Registry, b: WindowBridge, contents: Reply, arg: Option<int>): (r: Read)
    ensures var whole := RetrieveBuffer(config.agentName, config.profileName, reg, b, contents);
            && r.registry == whole.registry
            && (r.result.Ok? <==> whole.result.Ok?)
            && (r.result.Err? ==> r.result == whole.result)
    ensures var whole := RetrieveBuffer(config.agentName, config.profileName, reg, b, contents);
            var n := LinesOfOutputOrDefault(arg);
            r.result.Ok? && n > 0 ==>
              var lines := Split(whole.result.value);
              && EndsWith(whole.result.value, r.result.value)
              && Split(r.result.value) == lines[|lines| - Min(n + 1, |lines|)..]
    ensures var whole := RetrieveBuffer(config.agentName, config.profileName, reg, b, contents);
            var n := LinesOfOutputOrDefault(arg);
            r.result.Ok? && n < 0 ==>
              var lines := Split(whole.result.value);
              r.result.value == Join(lines[Min(-n - 1, |lines|)..])
  {
    Call(config.agentName, config.profileName, reg, b, contents, Some(LinesOfOutputOrDefault(arg)))
  }

  /** Without a usable count the tool returns the last 26 lines of the
      trimmed buffer (all of it when shorter): never the whole buffer by
      default. */
  lemma ReadTerminalOutputDefault(config: Config, reg: Registry, b: WindowBridge, contents: Reply, arg: Option<int>)
    requires arg.None? || arg == Some(0)
    ensures var r := ReadTerminalOutput(config, reg, b, contents, arg);
            var whole := RetrieveBuffer(config.agentName, config.profileName, reg, b, contents);
            r.result.Ok? ==>
              var lines := Split(whole.result.value);
              && EndsWith(whole.result.value, r.result.value)
              && Split(r.result.value) == lines[|lines| - Min(DefaultLinesOfOutput + 1, |lines|)..]
  {
  }
}
