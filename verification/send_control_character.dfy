/** Sending a control character to a session: the mapping from a key name to
    a control code, and the single write that delivers it. */
module SendControlCharacter {
  import opened Wrappers
  import opened JsText
  import opened JsNumber
  import opened WindowManager

  const InvalidLetterMessage := "Invalid control character letter"
  const SendPrefix := "Failed to send control character: "

  /** The key names the sender accepts, stated without upper-casing the whole
      input: the telnet escape `]`, `ESC` or `ESCAPE` in any letter case, or
      one ASCII letter. */
  predicate IsControlInput(letter: string) {
    || letter == "]"
    || Upper(letter) == "ESC" || Upper(letter) == "ESCAPE"
    || (|letter| == 1 && IsAsciiLetter(letter[0]))
  }

  /** The control code `send` computes for `letter`: 29 for `]`, 27 for
      `ESC`/`ESCAPE`, the upper-case letter's code minus 64 for a letter, and
      the validation error otherwise. */
  function ControlCode(letter: string): (r: Result<int>)
    ensures r.Ok? <==> IsControlInput(letter)
    ensures r.Err? ==> r.error == InvalidLetterMessage
    ensures r.Ok? ==> 1 <= r.value <= 26 || r.value == 27 || r.value == 29
    ensures r == Ok(29) <==> letter == "]"
    ensures r == Ok(27) <==> Upper(letter) == "ESC" || Upper(letter) == "ESCAPE"
  {
    var up := Upper(letter);
    assert up == "]" <==> letter == "]" by {
      if |letter| == 1 {
        assert up[0] == ']' <==> letter[0] == ']';
      }
    }
    assert (|up| == 1 && 'A' <= up[0] <= 'Z') <==> (|letter| == 1 && IsAsciiLetter(letter[0]));
    if up == "]" then Ok(29)
    else if up == "ESCAPE" || up == "ESC" then Ok(27)
    else if |up| == 1 && 'A' <= up[0] <= 'Z' then Ok(up[0] as int - 64)
    else Err(InvalidLetterMessage)
  }

  /** A single letter maps to its alphabet position, whatever its case. */
  lemma LetterCode(c: char)
    requires IsAsciiLetter(c)
    ensures ControlCode([c]) == Ok(UpperChar(c) as int - 64)
    ensures ControlCode([c]) == ControlCode([UpperChar(c)])
  {
    assert Upper([c]) == [UpperChar(c)];
    assert Upper([UpperChar(c)]) == [UpperChar(c)];
  }

  /** Each code 1..26 comes from exactly the upper- and lower-case letter at
      that alphabet position: the mapping inverts `chr(code + 64)`. */
  lemma LetterOfCode(code: int)
    requires 1 <= code <= 26
    ensures ControlCode([(code + 64) as char]) == Ok(code)
    ensures ControlCode([(code + 96) as char]) == Ok(code)
  {
    LetterCode((code + 64) as char);
    LetterCode((code + 96) as char);
  }

  /** Upper-casing the input first does not change the mapping. */
  lemma ControlCodeIgnoresCase(letter: string)
    ensures ControlCode(Upper(letter)) == ControlCode(letter)
  {
    UpperIdempotent(letter);
  }

  /** Worked cases: `c` and `C` are Control-C; names other than the accepted
      ones are rejected. */
  lemma ControlCodeExamples()
    ensures ControlCode("c") == Ok(3) && ControlCode("C") == Ok(3)
    ensures ControlCode("esc") == Ok(27) && ControlCode("Escape") == Ok(27)
    ensures ControlCode("") == Err(InvalidLetterMessage)
    ensures ControlCode("1") == Err(InvalidLetterMessage)
    ensures ControlCode("[") == Err(InvalidLetterMessage)
    ensures ControlCode("AB") == Err(InvalidLetterMessage)
  {
    LetterCode('c');
    LetterCode('C');
    assert Upper("esc") == "ESC";
    assert Upper("Escape") == "ESCAPE";
    assert Upper("AB") == "AB";
  }

  /** The AppleScript operation that types the character with code `code`. */
  function ControlOperation(code: int): string {
    "write text (ASCII character " + IntToString(code) + ")"
  }

  /** The registry after `send`, how it ended, and the AppleScript statement
      it ran to write the character, if any. */
  datatype Sent = Sent(registry: Registry, outcome: Outcome, written: Option<string>)

  /** The window check `send` starts with: `ensureWindowExists` for a named
      agent, nothing otherwise. */
  function EnsureForAgent(agent: Option<string>, profile: Option<string>, reg: Registry, b: WindowBridge): Ensured {
    if IsSet(agent) then EnsureWindowExists(reg, agent.value, profile, b) else Ensured(reg, Pass, None)
  }

  /** `send(letter)` for a sender created with `agent` and `profile`: the
      agent's window is ensured first (before the letter is looked at), then
      the letter is mapped, the statement for the session is built, and the
      statement that types the character is run, answered by `write`. */
  function Send(agent: Option<string>, profile: Option<string>, reg: Registry, b: WindowBridge,
                letter: string, write: Reply): (r: Sent)
    // the window is ensured for a named agent, whatever the letter
    ensures !IsSet(agent) ==> r.registry == reg
    ensures IsSet(agent) ==> r.registry == EnsureWindowExists(reg, agent.value, profile, b).registry
    // a failed window check is passed on as it is, and nothing is written
    ensures EnsureForAgent(agent, profile, reg, b).outcome.Fail? ==>
              r == Sent(r.registry, EnsureForAgent(agent, profile, reg, b).outcome, None)
    // nothing is written for a rejected letter
    ensures ControlCode(letter).Err? ==> r.written.None? && r.outcome.Fail?
    ensures ControlCode(letter).Err? && EnsureForAgent(agent, profile, reg, b).outcome.Pass? ==>
              r.outcome == Fail(InvalidLetterMessage)
    // once the window check passed, a valid letter is written exactly when the session can be addressed
    ensures EnsureForAgent(agent, profile, reg, b).outcome.Pass? && ControlCode(letter).Ok? ==>
              var script := BuildScriptForSession(agent, r.registry, ControlOperation(ControlCode(letter).value));
              && (script.Ok? ==> r.written == Some(script.value))
              && (script.Err? ==> r.written.None? && r.outcome == Fail(script.error))
    // what is written types the letter's code into the agent's session
    ensures r.written.Some? ==>
              && ControlCode(letter).Ok?
              && var script := BuildScriptForSession(agent, r.registry, ControlOperation(ControlCode(letter).value));
                 script.Ok? && r.written.value == script.value
    ensures r.outcome.Pass? <==> r.written.Some? && write.Ok?
    ensures r.written.Some? && write.Err? ==> r.outcome == Fail(SendPrefix + write.error)
  {
    var ensured := EnsureForAgent(agent, profile, reg, b);
    if ensured.outcome.Fail? then Sent(ensured.registry, ensured.outcome, None)
    else
      match ControlCode(letter)
      case Err(e) => Sent(ensured.registry, Fail(e), None)
      case Ok(code) =>
        match BuildScriptForSession(agent, ensured.registry, ControlOperation(code))
        case Err(e) => Sent(ensured.registry, Fail(e), None)
        case Ok(script) =>
          match write
          case Err(e) => Sent(ensured.registry, Fail(SendPrefix + e), Some(script))
          case Ok(_) => Sent(ensured.registry, Pass, Some(script))
  }

  /** Without an agent, Control-C goes to the current window. */
  lemma SendControlCToCurrentWindow(reg: Registry, b: WindowBridge, write: Reply)
    requires write.Ok?
    ensures Send(None, None, reg, b, "c", write)
         == Sent(reg, Pass, Some(CurrentWindowTarget + " to " + ControlOperation(3)))
  {
    ControlCodeExamples();
  }
}
