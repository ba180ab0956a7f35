/** The window registry: a table from client name to iTerm2 window id, the
    launch check that precedes every use of it, the creation of a named window
    for a client, and the text of the AppleScript statements that address a
    client's session.

    Every `osascript` or `open` call is replaced by its reply, given as an
    input: the stdout of the process, or the message of the error it raised. */
module WindowManager {
  import opened Wrappers
  import opened JsText
  import opened JsNumber

  /** A window id as the registry stores it: the number `parseInt` returned,
      which is `NaN` when the creation script printed no digits. */
  datatype WindowId = Num(n: int) | NaN

  /** `clientWindows`: client name to window id. */
  type Registry = map<string, WindowId>

  /** What one bridge call answered: its stdout, or the error it raised. */
  type Reply = Result<string>

  /** JavaScript truthiness of an optional name: present and non-empty. */
  predicate IsSet(name: Option<string>) {
    name.Some? && name.value != ""
  }

  /** JavaScript truthiness of a window id: neither `0` nor `NaN`. */
  predicate IsTruthy(id: WindowId) {
    id.Num? && id.n != 0
  }

  /** `parseInt(stdout.trim())` as a window id. */
  function ParseWindowId(stdout: string): WindowId {
    match ParseInt(Trim(stdout))
    case Some(n) => Num(n)
    case None => NaN
  }

  /** The id a creation script prints, with the newline `osascript` ends its
      output with, is read back as that id; an empty answer is `NaN`. */
  lemma ParseWindowIdOfPrinted(n: int)
    ensures ParseWindowId(IntToString(n) + "\n") == Num(n)
    ensures ParseWindowId("") == NaN
  {
    var t := IntToString(n);
    PrintedIsTrimmed(n);
    TrimNewline(t);
    ParseIntOfPrinted(n, "");
    assert t + "" == t;
    assert Trim("") == "";
  }

  /** A printed integer has no surrounding whitespace. */
  lemma PrintedIsTrimmed(n: int)
    ensures IsTrimmed(IntToString(n))
  {
    var t := IntToString(n);
    if n < 0 {
      assert t[|t| - 1] == NatToString(-n)[|NatToString(-n)| - 1];
    }
  }

  /** Trimming drops the newline after a text without surrounding whitespace. */
  lemma TrimNewline(t: string)
    requires |t| > 0 && IsTrimmed(t)
    ensures Trim(t + "\n") == t
  {
    var s := t + "\n";
    assert s[..|s| - 1] == t;
    assert TrimStart(s) == s;
    assert TrimEnd(s) == TrimEnd(t);
    TrimFixedPoint(t);
    assert TrimEnd(t) == t;
  }

  // ---------------------------------------------------------------------
  // Launch check (`ensureiTermIsRunning`)
  // ---------------------------------------------------------------------

  /** Number of post-launch checks before giving up. */
  const MaxLaunchChecks: nat := 10

  const LaunchTimeoutMessage := "iTerm2 failed to launch within timeout"
  const RunningPrefix := "Failed to ensure iTerm2 is running: "

  /** The replies to the launch check: the first "is iTerm2 running" probe,
      the `open -a iTerm` command, and the probe made at each post-launch
      attempt (attempt `j` is answered by `poll(j)`). */
  datatype LaunchBridge = LaunchBridge(check: Reply, open: Reply, poll: nat -> Reply)

  /** What the launch check did: whether it issued `open -a iTerm`, how many
      post-launch probes it made, and how it ended. */
  datatype Launched = Launched(launched: bool, checks: nat, outcome: Outcome)

  /** A probe answered, and its trimmed answer is `true`. */
  predicate ReportsRunning(reply: Reply) {
    reply.Ok? && Trim(reply.value) == "true"
  }

  /** A probe answered, but not `true`: the loop goes on. */
  predicate Inconclusive(reply: Reply) {
    reply.Ok? && Trim(reply.value) != "true"
  }

  /** The post-launch polling loop from attempt `attempts` on, with raw
      (unprefixed) error messages. It stops at the first probe that reports
      running, at the first probe that fails, or after the last attempt. */
  function PollUntilRunning(poll: nat -> Reply, attempts: nat): Launched
    requires attempts <= MaxLaunchChecks
    decreases MaxLaunchChecks - attempts
  {
    if attempts == MaxLaunchChecks then Launched(true, attempts, Fail(LaunchTimeoutMessage))
    else
      match poll(attempts)
      case Err(e) => Launched(true, attempts + 1, Fail(e))
      case Ok(out) =>
        if Trim(out) == "true" then Launched(true, attempts + 1, Pass)
        else PollUntilRunning(poll, attempts + 1)
  }

  /** One turn of the polling loop, read off the reply of its probe. */
  lemma PollStep(poll: nat -> Reply, attempts: nat)
    requires attempts < MaxLaunchChecks
    ensures poll(attempts).Err? ==> PollUntilRunning(poll, attempts) == Launched(true, attempts + 1, Fail(poll(attempts).error))
    ensures ReportsRunning(poll(attempts)) ==> PollUntilRunning(poll, attempts) == Launched(true, attempts + 1, Pass)
    ensures Inconclusive(poll(attempts)) ==> PollUntilRunning(poll, attempts) == PollUntilRunning(poll, attempts + 1)
  {
  }

  /** The polling loop launched iTerm2 and makes at most `MaxLaunchChecks`
      probes, counting from `attempts`. */
  lemma {:induction false} PollBounds(poll: nat -> Reply, attempts: nat)
    requires attempts <= MaxLaunchChecks
    ensures var r := PollUntilRunning(poll, attempts);
            r.launched && attempts <= r.checks <= MaxLaunchChecks
    decreases MaxLaunchChecks - attempts
  {
    if attempts < MaxLaunchChecks {
      PollStep(poll, attempts);
      if Inconclusive(poll(attempts)) {
        PollBounds(poll, attempts + 1);
      }
    }
  }

  /** Every probe before the last one the loop made was inconclusive. */
  lemma {:induction false} PollEarlierInconclusive(poll: nat -> Reply, attempts: nat)
    requires attempts <= MaxLaunchChecks
    ensures var r := PollUntilRunning(poll, attempts);
            forall j :: attempts <= j < r.checks - 1 ==> Inconclusive(poll(j))
    decreases MaxLaunchChecks - attempts
  {
    if attempts < MaxLaunchChecks {
      PollStep(poll, attempts);
      if Inconclusive(poll(attempts)) {
        PollEarlierInconclusive(poll, attempts + 1);
        PollBounds(poll, attempts + 1);
      }
    }
  }

  /** The loop succeeds exactly when the last probe it made reports running. */
  lemma {:induction false} PollPassIff(poll: nat -> Reply, attempts: nat)
    requires attempts <= MaxLaunchChecks
    ensures var r := PollUntilRunning(poll, attempts);
            r.outcome.Pass? <==> r.checks > attempts && ReportsRunning(poll(r.checks - 1))
    decreases MaxLaunchChecks - attempts
  {
    if attempts < MaxLaunchChecks {
      PollStep(poll, attempts);
      if Inconclusive(poll(attempts)) {
        PollBounds(poll, attempts + 1);
        PollPassIff(poll, attempts + 1);
      } else if poll(attempts).Err? {
        assert !ReportsRunning(poll(attempts));
      } else {
        assert ReportsRunning(poll(attempts));
      }
    }
  }

  /** A failure is the error of the last probe when that probe failed, and
      otherwise the timeout after the last attempt. */
  lemma {:induction false} PollFailure(poll: nat -> Reply, attempts: nat)
    requires attempts <= MaxLaunchChecks
    ensures var r := PollUntilRunning(poll, attempts);
            && attempts <= r.checks
            && (r.outcome.Fail? && r.checks > attempts && poll(r.checks - 1).Err? ==>
                  r.outcome.error == poll(r.checks - 1).error)
            && (r.outcome.Fail? && (r.checks == attempts || poll(r.checks - 1).Ok?) ==>
                  r.checks == MaxLaunchChecks && r.outcome.error == LaunchTimeoutMessage)
    decreases MaxLaunchChecks - attempts
  {
    PollBounds(poll, attempts);
    if attempts < MaxLaunchChecks {
      PollStep(poll, attempts);
      if Inconclusive(poll(attempts)) {
        PollFailure(poll, attempts + 1);
      }
    }
  }

  /** The polling loop makes at most `MaxLaunchChecks` probes, all but the last
      of them inconclusive; it succeeds exactly when the last one reports
      running, passes on the error of a failed probe, and otherwise times
      out after the last attempt. */
  lemma PollUntilRunningFacts(poll: nat -> Reply, attempts: nat)
    requires attempts <= MaxLaunchChecks
    ensures var r := PollUntilRunning(poll, attempts);
            && r.launched
            && attempts <= r.checks <= MaxLaunchChecks
            && (forall j :: attempts <= j < r.checks - 1 ==> Inconclusive(poll(j)))
            && (r.outcome.Pass? <==> r.checks > attempts && ReportsRunning(poll(r.checks - 1)))
            && (r.outcome.Fail? && r.checks > attempts && poll(r.checks - 1).Err? ==>
                  r.outcome.error == poll(r.checks - 1).error)
            && (r.outcome.Fail? && (r.checks == attempts || poll(r.checks - 1).Ok?) ==>
                  r.checks == MaxLaunchChecks && r.outcome.error == LaunchTimeoutMessage)
  {
    PollBounds(poll, attempts);
    PollEarlierInconclusive(poll, attempts);
    PollPassIff(poll, attempts);
    PollFailure(poll, attempts);
  }

  /** `ensureiTermIsRunning`: no launch when the first probe reports running;
      otherwise `open -a iTerm` and at most `MaxLaunchChecks` probes. Every
      error is reported with the `RunningPrefix`. */
  function LaunchITerm(b: LaunchBridge): (r: Launched)
    ensures ReportsRunning(b.check) ==> r == Launched(false, 0, Pass)
    ensures r.launched <==> Inconclusive(b.check)
    ensures r.checks <= MaxLaunchChecks
    ensures r.checks > 0 ==> b.open.Ok?
    ensures r.outcome.Pass? <==>
              ReportsRunning(b.check) || (r.launched && r.checks > 0 && ReportsRunning(b.poll(r.checks - 1)))
    ensures r.outcome.Fail? ==> StartsWith(r.outcome.error, RunningPrefix)
  {
    match b.check
    case Err(e) => Launched(false, 0, Fail(RunningPrefix + e))
    case Ok(out) =>
      if Trim(out) == "true" then Launched(false, 0, Pass)
      else
        match b.open
        case Err(e) => Launched(true, 0, Fail(RunningPrefix + e))
        case Ok(_) =>
          var p := PollUntilRunning(b.poll, 0);
          PollUntilRunningFacts(b.poll, 0);
          Launched(true, p.checks, if p.outcome.Pass? then Pass else Fail(RunningPrefix + p.outcome.error))
  }

  /** After a successful `open -a iTerm`, the launch check is the polling
      loop with its error prefixed. */
  lemma LaunchAfterOpen(b: LaunchBridge)
    requires Inconclusive(b.check) && b.open.Ok?
    ensures var p := PollUntilRunning(b.poll, 0);
            LaunchITerm(b) == Launched(true, p.checks, if p.outcome.Pass? then Pass else Fail(RunningPrefix + p.outcome.error))
  {
  }

  /** The post-launch loop of `ensureiTermIsRunning` as written, with raw
      error messages. It makes between one and `MaxLaunchChecks` probes, all
      but the last of them inconclusive; it succeeds exactly when the last one
      reports running, passes on the error of a failed probe, and otherwise
      gives up with the timeout after the last attempt. By
      `PollOutcomeIsDetermined`, that is what `PollUntilRunning` computes from
      attempt 0. */
  method PollLoop(poll: nat -> Reply) returns (p: Launched)
    ensures p.launched && 1 <= p.checks <= MaxLaunchChecks
    ensures forall j :: 0 <= j < p.checks - 1 ==> Inconclusive(poll(j))
    ensures p.outcome.Pass? <==> ReportsRunning(poll(p.checks - 1))
    ensures poll(p.checks - 1).Err? ==> p.outcome == Fail(poll(p.checks - 1).error)
    ensures Inconclusive(poll(p.checks - 1)) ==> p.checks == MaxLaunchChecks && p.outcome == Fail(LaunchTimeoutMessage)
  {
    var attempts: nat := 0;
    while attempts < MaxLaunchChecks
      invariant attempts <= MaxLaunchChecks
      invariant forall j :: 0 <= j < attempts ==> Inconclusive(poll(j))
    {
      var reply := poll(attempts);
      if reply.Err? {
        return Launched(true, attempts + 1, Fail(reply.error));
      }
      if Trim(reply.value) == "true" {
        return Launched(true, attempts + 1, Pass);
      }
      attempts := attempts + 1;
    }
    p := Launched(true, attempts, Fail(LaunchTimeoutMessage));
  }

  /** The facts `PollLoop` states pin the loop's result down: any result that
      meets them is the one `PollUntilRunning` computes. */
  lemma PollOutcomeIsDetermined(poll: nat -> Reply, p: Launched)
    requires p.launched && 1 <= p.checks <= MaxLaunchChecks
    requires forall j :: 0 <= j < p.checks - 1 ==> Inconclusive(poll(j))
    requires p.outcome.Pass? <==> ReportsRunning(poll(p.checks - 1))
    requires poll(p.checks - 1).Err? ==> p.outcome == Fail(poll(p.checks - 1).error)
    requires Inconclusive(poll(p.checks - 1)) ==> p.checks == MaxLaunchChecks && p.outcome == Fail(LaunchTimeoutMessage)
    ensures p == PollUntilRunning(poll, 0)
  {
    PollUntilRunningFacts(poll, 0);
  }

  /** `ensureiTermIsRunning` as written: the first probe, `open -a iTerm`,
      the polling loop, and the prefix added to every error. A failed first
      probe or a failed `open` is reported at once; after a successful open
      the facts of `PollLoop` hold, with every error prefixed. This is what
      `LaunchITerm` computes. */
  method EnsureITermIsRunning(b: LaunchBridge) returns (r: Launched)
    ensures b.check.Err? ==> r == Launched(false, 0, Fail(RunningPrefix + b.check.error))
    ensures ReportsRunning(b.check) ==> r == Launched(false, 0, Pass)
    ensures Inconclusive(b.check) && b.open.Err? ==> r == Launched(true, 0, Fail(RunningPrefix + b.open.error))
    ensures Inconclusive(b.check) && b.open.Ok? ==>
              && r.launched && 1 <= r.checks <= MaxLaunchChecks
              && (forall j :: 0 <= j < r.checks - 1 ==> Inconclusive(b.poll(j)))
              && (r.outcome.Pass? <==> ReportsRunning(b.poll(r.checks - 1)))
              && (b.poll(r.checks - 1).Err? ==> r.outcome == Fail(RunningPrefix + b.poll(r.checks - 1).error))
              && (Inconclusive(b.poll(r.checks - 1)) ==>
                    r.checks == MaxLaunchChecks && r.outcome == Fail(RunningPrefix + LaunchTimeoutMessage))
    ensures r == LaunchITerm(b)
  {
    if b.check.Err? {
      return Launched(false, 0, Fail(RunningPrefix + b.check.error));
    }
    if Trim(b.check.value) == "true" {
      return Launched(false, 0, Pass);
    }
    if b.open.Err? {
      return Launched(true, 0, Fail(RunningPrefix + b.open.error));
    }
    var p := PollLoop(b.poll);
    PollOutcomeIsDetermined(b.poll, p);
    LaunchAfterOpen(b);
    r := Launched(true, p.checks, if p.outcome.Pass? then Pass else Fail(RunningPrefix + p.outcome.error));
  }

  /** When every probe answers, the polling loop succeeds exactly when one of
      the remaining attempts reports running. */
  lemma {:induction false} PollSucceedsIffSomeProbeReports(poll: nat -> Reply, attempts: nat)
    requires attempts <= MaxLaunchChecks
    requires forall j :: attempts <= j < MaxLaunchChecks ==> poll(j).Ok?
    ensures PollUntilRunning(poll, attempts).outcome.Pass? <==>
              exists j :: attempts <= j < MaxLaunchChecks && ReportsRunning(poll(j))
    decreases MaxLaunchChecks - attempts
  {
    if attempts < MaxLaunchChecks {
      PollStep(poll, attempts);
      if !ReportsRunning(poll(attempts)) {
        assert poll(attempts).Ok?;
        PollSucceedsIffSomeProbeReports(poll, attempts + 1);
        assert forall j :: attempts <= j < MaxLaunchChecks && ReportsRunning(poll(j)) ==> attempts + 1 <= j;
      }
    }
  }

  /** Once iTerm2 had to be opened and every probe answers, the launch check
      succeeds exactly when one of the ten post-launch probes reports running. */
  lemma LaunchSucceedsIffSomeProbeReports(b: LaunchBridge)
    requires Inconclusive(b.check) && b.open.Ok?
    requires forall j :: 0 <= j < MaxLaunchChecks ==> b.poll(j).Ok?
    ensures LaunchITerm(b).outcome.Pass? <==> exists j :: 0 <= j < MaxLaunchChecks && ReportsRunning(b.poll(j))
  {
    PollSucceedsIffSomeProbeReports(b.poll, 0);
  }

  /** Ten inconclusive probes end the launch check with the timeout error,
      after exactly ten probes. */
  lemma {:induction false} PollTimesOut(poll: nat -> Reply, attempts: nat)
    requires attempts <= MaxLaunchChecks
    requires forall j :: attempts <= j < MaxLaunchChecks ==> Inconclusive(poll(j))
    ensures PollUntilRunning(poll, attempts) == Launched(true, MaxLaunchChecks, Fail(LaunchTimeoutMessage))
    decreases MaxLaunchChecks - attempts
  {
    if attempts < MaxLaunchChecks {
      PollTimesOut(poll, attempts + 1);
    }
  }

  lemma LaunchTimesOut(b: LaunchBridge)
    requires Inconclusive(b.check) && b.open.Ok?
    requires forall j :: 0 <= j < MaxLaunchChecks ==> Inconclusive(b.poll(j))
    ensures LaunchITerm(b) == Launched(true, MaxLaunchChecks, Fail(RunningPrefix + LaunchTimeoutMessage))
  {
    PollTimesOut(b.poll, 0);
  }

  // ---------------------------------------------------------------------
  // Client-name escaping
  // ---------------------------------------------------------------------

  /** The characters that cannot appear bare in an AppleScript string literal. */
  predicate IsEscapable(c: char) {
    c == '"' || c == '\\'
  }

  /** `clientName.replace(/["\\]/g, '\\$&')`: a backslash before every `"` and
      every `\`, everything else kept in place. */
  function EscapeName(s: string): (r: string)
    ensures |r| == |s| + Count(s, '"') + Count(s, '\\')
    ensures (forall i :: 0 <= i < |s| ==> !IsEscapable(s[i])) ==> r == s
    decreases |s|
  {
    if |s| == 0 then ""
    else
      var rest := EscapeName(s[1..]);
      assert forall i :: 1 <= i < |s| ==> s[1..][i - 1] == s[i];
      if IsEscapable(s[0]) then ['\\', s[0]] + rest else [s[0]] + rest
  }

  /** Reads back the contents of an AppleScript string literal that uses only
      the two escapes the client name needs: `\"` and `\\` stand for `"` and
      `\`; a bare `"`, a lone trailing `\` or a backslash before any other
      character is rejected. AppleScript's own `\n`, `\r` and `\t` escapes are
      therefore rejected here too. */
  function UnescapeName(t: string): Option<string>
    decreases |t|
  {
    if |t| == 0 then Some("")
    else if t[0] == '\\' then
      if |t| >= 2 && IsEscapable(t[1]) then
        match UnescapeName(t[2..])
        case None => None
        case Some(s) => Some([t[1]] + s)
      else None
    else if t[0] == '"' then None
    else
      match UnescapeName(t[1..])
      case None => None
      case Some(s) => Some([t[0]] + s)
  }

  /** Reading an escaped name back gives the name. */
  lemma {:induction false} UnescapeEscapeName(s: string)
    ensures UnescapeName(EscapeName(s)) == Some(s)
    decreases |s|
  {
    if |s| > 0 {
      UnescapeEscapeName(s[1..]);
      var t := EscapeName(s);
      if IsEscapable(s[0]) {
        assert t[2..] == EscapeName(s[1..]);
      } else {
        assert t[1..] == EscapeName(s[1..]);
      }
      assert [s[0]] + s[1..] == s;
    }
  }

  /** Only escaped names are read back: the literal text is the escaping of
      what it reads as. */
  lemma {:induction false} EscapeNameOfUnescaped(t: string, s: string)
    requires UnescapeName(t) == Some(s)
    ensures EscapeName(s) == t
    decreases |t|
  {
    if |t| > 0 {
      if t[0] == '\\' {
        var s' := UnescapeName(t[2..]).value;
        EscapeNameOfUnescaped(t[2..], s');
        assert s == [t[1]] + s';
        assert s[1..] == s';
        assert t == ['\\', t[1]] + t[2..];
      } else {
        var s' := UnescapeName(t[1..]).value;
        EscapeNameOfUnescaped(t[1..], s');
        assert s == [t[0]] + s';
        assert s[1..] == s';
        assert t == [t[0]] + t[1..];
      }
    }
  }

  // ---------------------------------------------------------------------
  // Window creation (`ensureWindowExists`)
  // ---------------------------------------------------------------------

  const EnsurePrefix := "Failed to ensure window exists: "

  /** `profile "<name>"` for a non-empty profile name, else `default profile`.
      The profile name is inserted as it is, without escaping. */
  function ProfileClause(profile: Option<string>): string {
    if IsSet(profile) then "profile \"" + profile.value + "\"" else "default profile"
  }

  /** A profile name holding a quote yields a clause whose quoted text is not
      a well-formed AppleScript literal, since the name is not escaped. */
  lemma ProfileNameIsNotEscaped()
    ensures ProfileClause(Some("a\"b")) == "profile \"a\"b\""
    ensures UnescapeName("a\"b") == None
  {
    assert "a\"b"[1..] == "\"b";
  }

  /** The creation script up to the opening quote of the session name. */
  function CreateScriptHead(profile: Option<string>): string {
    "tell application \"iTerm2\"\n"
    + "set newWindow to (create window with " + ProfileClause(profile) + ")\n"
    + "tell current session of current tab of newWindow\n"
    + "set name to \""
  }

  /** The creation script after the closing quote of the session name. */
  const CreateScriptTail := "\"\nend tell\nreturn id of newWindow\nend tell"

  /** The script that creates a window with the profile clause, names its
      session after the client, and prints the new window's id. */
  function CreateScript(client: string, profile: Option<string>): string {
    CreateScriptHead(profile) + EscapeName(client) + CreateScriptTail
  }

  /** The creation script has the head and the tail, and the name literal
      between them reads back as the client name. */
  lemma CreateScriptNamesClient(client: string, profile: Option<string>)
    ensures var r := CreateScript(client, profile);
            && |CreateScriptHead(profile)| + |CreateScriptTail| <= |r|
            && StartsWith(r, CreateScriptHead(profile)) && EndsWith(r, CreateScriptTail)
            && UnescapeName(r[|CreateScriptHead(profile)|..|r| - |CreateScriptTail|]) == Some(client)
  {
    var head := CreateScriptHead(profile);
    var r := CreateScript(client, profile);
    assert r[|head|..|r| - |CreateScriptTail|] == EscapeName(client);
    assert r[..|head|] == head;
    assert r[|r| - |CreateScriptTail|..] == CreateScriptTail;
    UnescapeEscapeName(client);
  }

  /** The replies `ensureWindowExists` sees: those of the launch check, the
      existence probe of a registered window, and the creation script. */
  datatype WindowBridge = WindowBridge(launch: LaunchBridge, probe: Reply, create: Reply)

  /** The registry after `ensureWindowExists` (also when it threw, since the
      table is updated in place), how it ended, and the creation script it ran,
      if any. */
  datatype Ensured = Ensured(registry: Registry, outcome: Outcome, created: Option<string>)

  /** A registered client whose window the probe found. */
  predicate WindowStillExists(reg: Registry, client: string, b: WindowBridge) {
    client in reg && b.probe.Ok? && Trim(b.probe.value) == "exists"
  }

  /** `ensureWindowExists(clientName, profileName)`: launch check; for a
      registered client, an existence probe that either keeps the entry or
      evicts it; then creation, recording the parsed id only once the creation
      script has answered. */
  function EnsureWindowExists(reg: Registry, client: string, profile: Option<string>, b: WindowBridge): (r: Ensured)
    // only the client's own entry is ever removed or written
    ensures forall c :: c != client ==> (c in r.registry <==> c in reg) && (c in reg ==> r.registry[c] == reg[c])
    ensures r.outcome.Fail? ==> StartsWith(r.outcome.error, EnsurePrefix)
    ensures r.outcome.Pass? ==> client in r.registry
    // no creation: nothing changes; and this is a success exactly when the window was found
    ensures r.created.None? ==> r.registry == reg
    ensures r.created.None? && r.outcome.Pass? <==>
              LaunchITerm(b.launch).outcome.Pass? && WindowStillExists(reg, client, b)
    // creation happens after a successful launch check, for an unknown client or a missing window
    ensures r.created.Some? ==>
              && r.created.value == CreateScript(client, profile)
              && LaunchITerm(b.launch).outcome.Pass?
              && (client in reg ==> b.probe.Ok? && !WindowStillExists(reg, client, b))
    // an id is stored only after the creation script answered
    ensures r.created.Some? ==> (client in r.registry <==> b.create.Ok?)
    ensures r.created.Some? && b.create.Ok? ==>
              r.outcome.Pass? && r.registry[client] == ParseWindowId(b.create.value)
    ensures r.created.Some? && b.create.Err? ==> r.outcome == Fail(EnsurePrefix + b.create.error)
    // a window is created whenever the launch check passed and no registered window was found
    ensures LaunchITerm(b.launch).outcome.Pass? && !WindowStillExists(reg, client, b) && (client in reg ==> b.probe.Ok?) ==>
              r.created == Some(CreateScript(client, profile))
    // a failed launch check or a failed probe is passed on, prefixed, and nothing changes
    ensures LaunchITerm(b.launch).outcome.Fail? ==>
              r == Ensured(reg, Fail(EnsurePrefix + LaunchITerm(b.launch).outcome.error), None)
    ensures LaunchITerm(b.launch).outcome.Pass? && client in reg && b.probe.Err? ==>
              r == Ensured(reg, Fail(EnsurePrefix + b.probe.error), None)
  {
    var launched := LaunchITerm(b.launch);
    if launched.outcome.Fail? then
      Ensured(reg, Fail(EnsurePrefix + launched.outcome.error), None)
    else if client in reg && b.probe.Err? then
      Ensured(reg, Fail(EnsurePrefix + b.probe.error), None)
    else if WindowStillExists(reg, client, b) then
      Ensured(reg, Pass, None)
    else
      var evicted := reg - {client};
      var script := CreateScript(client, profile);
      match b.create
      case Err(e) => Ensured(evicted, Fail(EnsurePrefix + e), Some(script))
      case Ok(out) => Ensured(evicted[client := ParseWindowId(out)], Pass, Some(script))
  }

  /** A client without an entry gets a window once the launch check passes,
      and the parsed id of the creation script's answer is recorded. */
  lemma EnsureNewClient(reg: Registry, client: string, profile: Option<string>, b: WindowBridge)
    requires client !in reg
    requires LaunchITerm(b.launch).outcome.Pass? && b.create.Ok?
    ensures EnsureWindowExists(reg, client, profile, b)
         == Ensured(reg[client := ParseWindowId(b.create.value)], Pass, Some(CreateScript(client, profile)))
  {
    assert reg - {client} == reg;
  }

  /** A registered window the probe finds is kept: nothing is created and the
      registry is unchanged. */
  lemma EnsureFoundWindow(reg: Registry, client: string, profile: Option<string>, b: WindowBridge)
    requires LaunchITerm(b.launch).outcome.Pass? && WindowStillExists(reg, client, b)
    ensures EnsureWindowExists(reg, client, profile, b) == Ensured(reg, Pass, None)
  {
  }

  /** A never-seen client gets a window on the first call; a second call whose
      probe finds that window creates nothing and changes nothing. */
  lemma EnsureTwiceCreatesOnce(reg: Registry, client: string, profile: Option<string>, b1: WindowBridge, b2: WindowBridge)
    requires client !in reg
    requires LaunchITerm(b1.launch).outcome.Pass? && b1.create.Ok?
    requires LaunchITerm(b2.launch).outcome.Pass? && b2.probe == Ok("exists")
    ensures var first := EnsureWindowExists(reg, client, profile, b1);
            && first.outcome.Pass? && first.created.Some?
            && first.registry == reg[client := ParseWindowId(b1.create.value)]
            && EnsureWindowExists(first.registry, client, profile, b2) == Ensured(first.registry, Pass, None)
  {
    EnsureNewClient(reg, client, profile, b1);
    var registered := reg[client := ParseWindowId(b1.create.value)];
    ProbeAnswer("exists");
    assert WindowStillExists(registered, client, b2);
    EnsureFoundWindow(registered, client, profile, b2);
  }

  /** A registered window the probe does not report as existing (any answer
      other than `exists`) is evicted and a new window is created: its parsed
      id replaces the old one when the creation script answers, and otherwise
      the client is left without an entry and the error is passed on. */
  lemma StaleWindowIsReplaced(reg: Registry, client: string, profile: Option<string>, b: WindowBridge)
    requires client in reg
    requires LaunchITerm(b.launch).outcome.Pass? && b.probe.Ok? && Trim(b.probe.value) != "exists"
    ensures b.create.Ok? ==>
              EnsureWindowExists(reg, client, profile, b)
              == Ensured(reg[client := ParseWindowId(b.create.value)], Pass, Some(CreateScript(client, profile)))
    ensures b.create.Err? ==>
              EnsureWindowExists(reg, client, profile, b)
              == Ensured(reg - {client}, Fail(EnsurePrefix + b.create.error), Some(CreateScript(client, profile)))
  {
    assert !WindowStillExists(reg, client, b);
    if b.create.Ok? {
      assert (reg - {client})[client := ParseWindowId(b.create.value)] == reg[client := ParseWindowId(b.create.value)];
    }
  }

  /** A probe answer without surrounding whitespace is read as it is. */
  lemma ProbeAnswer(word: string)
    requires |word| > 0 && 'a' <= word[0] <= 'z' && 'a' <= word[|word| - 1] <= 'z'
    ensures Trim(word) == word
  {
    TrimFixedPoint(word);
  }

  // ---------------------------------------------------------------------
  // Addressing a session (`buildAppleScriptForSession`)
  // ---------------------------------------------------------------------

  const SessionPrefix := "tell application \"iTerm2\" to tell current session of current tab of "
  const WindowTarget := SessionPrefix + "window id "
  const CurrentWindowTarget := SessionPrefix + "current window"

  function NoWindowMessage(client: string): string {
    "No window found for client '" + client + "'. Window may have been closed."
  }

  /** The statement that runs `operation` in the session of the client's
      window, or of the current window when no client is named. */
  function BuildScriptForSession(client: Option<string>, reg: Registry, operation: string): (r: Result<string>)
    ensures r.Ok? <==> !IsSet(client) || (client.value in reg && IsTruthy(reg[client.value]))
    ensures r.Ok? ==> EndsWith(r.value, " to " + operation)
    ensures r.Err? ==> r.error == NoWindowMessage(client.value)
    ensures !IsSet(client) ==> r == Ok(CurrentWindowTarget + " to " + operation)
    ensures r.Ok? && IsSet(client) ==> r.value == WindowTarget + IntToString(reg[client.value].n) + " to " + operation
  {
    var rest := " to " + operation;
    if IsSet(client) then
      if client.value in reg && IsTruthy(reg[client.value]) then
        var head := WindowTarget + IntToString(reg[client.value].n);
        EndsWithAppend(head, rest);
        assert head + rest == WindowTarget + IntToString(reg[client.value].n) + " to " + operation;
        Ok(head + rest)
      else Err(NoWindowMessage(client.value))
    else
      EndsWithAppend(CurrentWindowTarget, rest);
      assert CurrentWindowTarget + rest == CurrentWindowTarget + " to " + operation;
      Ok(CurrentWindowTarget + rest)
  }

  lemma EndsWithAppend(a: string, b: string)
    ensures EndsWith(a + b, b)
  {
    assert (a + b)[|a|..] == b;
  }

  /** The window id written into a session statement reads back, with
      `parseInt`, as the id registered for the client. */
  lemma SessionScriptNamesWindow(client: string, reg: Registry, operation: string)
    requires client != "" && client in reg && IsTruthy(reg[client])
    ensures var r := BuildScriptForSession(Some(client), reg, operation);
            && r.Ok? && StartsWith(r.value, WindowTarget)
            && ParseInt(r.value[|WindowTarget|..]) == Some(reg[client].n)
  {
    var id := reg[client].n;
    var rest := " to " + operation;
    var script := WindowTarget + IntToString(id) + rest;
    assert script[|WindowTarget|..] == IntToString(id) + rest;
    ParseIntOfPrinted(id, rest);
  }

  /** After a creation that printed a non-zero id, the client's session is
      addressed by that id. */
  lemma CreatedWindowIsAddressed(reg: Registry, client: string, profile: Option<string>, b: WindowBridge, operation: string, id: int)
    requires client != "" && id != 0
    requires !WindowStillExists(reg, client, b) && (client in reg ==> b.probe.Ok?)
    requires LaunchITerm(b.launch).outcome.Pass? && b.create.Ok?
    requires ParseWindowId(b.create.value) == Num(id)
    ensures BuildScriptForSession(Some(client), EnsureWindowExists(reg, client, profile, b).registry, operation)
         == Ok(WindowTarget + IntToString(id) + " to " + operation)
  {
  }
}
