/** Reading a session's terminal output: the whole buffer, trimmed, and the
    tail of it that `call` returns for a line count. */
module TtyOutputReader {
  import opened Wrappers
  import opened JsText
  import opened WindowManager

  /** The registry after a read, and the text read or the error raised. */
  datatype Read = Read(registry: Registry, result: Result<string>)

  /** The operation that fetches a session's contents. */
  const GetContents := "get contents"

  /** `retrieveBuffer()` for a reader created with `agent` and `profile`: the
      agent's window is ensured when an agent is named, the statement for the
      session is built, and the contents it returns (`contents`) are trimmed. */
  function RetrieveBuffer(agent: Option<string>, profile: Option<string>, reg: Registry, b: WindowBridge,
                          contents: Reply): (r: Read)
    ensures !IsSet(agent) ==> r.registry == reg
    ensures IsSet(agent) ==> r.registry == EnsureWindowExists(reg, agent.value, profile, b).registry
    ensures r.result.Ok? <==>
              && (IsSet(agent) ==> EnsureWindowExists(reg, agent.value, profile, b).outcome.Pass?)
              && BuildScriptForSession(agent, r.registry, GetContents).Ok?
              && contents.Ok?
    // the text returned is the trimmed contents: no surrounding whitespace, and trimming again changes nothing
    ensures r.result.Ok? ==> r.result.value == Trim(contents.value)
    ensures r.result.Ok? ==> IsTrimmed(r.result.value) && Trim(r.result.value) == r.result.value
    // each failure reaches the caller as raised: the prefixed error of
    // `ensureWindowExists`, the addressing error, or the error of `exec`
    ensures IsSet(agent) ==>
              var ensured := EnsureWindowExists(reg, agent.value, profile, b);
              ensured.outcome.Fail? ==> r.result == Err(ensured.outcome.error)
    ensures (IsSet(agent) ==> EnsureWindowExists(reg, agent.value, profile, b).outcome.Pass?) ==>
              var script := BuildScriptForSession(agent, r.registry, GetContents);
              && (script.Err? ==> r.result == Err(script.error))
              && (script.Ok? && contents.Err? ==> r.result == Err(contents.error))
  {
    var ensured := if IsSet(agent) then EnsureWindowExists(reg, agent.value, profile, b) else Ensured(reg, Pass, None);
    if ensured.outcome.Fail? then Read(ensured.registry, Err(ensured.outcome.error))
    else
      match BuildScriptForSession(agent, ensured.registry, GetContents)
      case Err(e) => Read(ensured.registry, Err(e))
      case Ok(_) =>
        match contents
        case Err(e) => Read(ensured.registry, Err(e))
        case Ok(out) =>
          var text := Trim(out);
          TrimIdempotent(out);
          Read(ensured.registry, Ok(text))
  }

  /** Without a named agent the registry is not consulted: the bridge replies
      of `ensureWindowExists` make no difference. */
  lemma RetrieveWithoutAgentIgnoresRegistryBridge(agent: Option<string>, profile: Option<string>, reg: Registry,
                                                  b1: WindowBridge, b2: WindowBridge, contents: Reply)
    requires !IsSet(agent)
    ensures RetrieveBuffer(agent, profile, reg, b1, contents) == RetrieveBuffer(agent, profile, reg, b2, contents)
  {
  }

  /** The index `Array.prototype.slice(start)` starts from: a negative start
      counts from the end and is clamped at 0, a positive one is clamped at the
      length. */
  function SliceStart(len: nat, start: int): (k: nat)
    ensures k <= len
  {
    if start < 0 then (if len + start < 0 then 0 else len + start)
    else if start > len then len
    else start
  }

  /** `buffer.split('\n').slice(-n - 1).join('\n')`. */
  function Tail(buffer: string, n: int): string {
    var lines := Split(buffer);
    Join(lines[SliceStart(|lines|, -n - 1)..])
  }

  function Min(a: int, b: int): int {
    if a <= b then a else b
  }

  /** Splitting the joined suffix of a text's lines gives back that suffix. */
  lemma SplitJoinSuffix(buffer: string, k: nat)
    requires k < |Split(buffer)|
    ensures Split(Join(Split(buffer)[k..])) == Split(buffer)[k..]
  {
    var lines := Split(buffer);
    assert forall i :: 0 <= i < |lines[k..]| ==> lines[k..][i] == lines[k + i];
    SplitJoin(lines[k..]);
  }

  /** A joined suffix of a text's lines is a suffix of the text. */
  lemma JoinSuffixIsSuffix(buffer: string, k: nat)
    requires k < |Split(buffer)|
    ensures EndsWith(buffer, Join(Split(buffer)[k..]))
    ensures k == 0 ==> Join(Split(buffer)[k..]) == buffer
  {
    var lines := Split(buffer);
    JoinSplit(buffer);
    if k == 0 {
      assert lines[k..] == lines;
    } else {
      assert lines == lines[..k] + lines[k..];
      JoinAppend(lines[..k], lines[k..]);
      assert buffer == Join(lines[..k]) + "\n" + Join(lines[k..]);
    }
  }

  /** For a positive count `n` the tail holds the last `n + 1` lines (all of
      them when there are fewer), is a suffix of the buffer, and is the whole
      buffer when `n + 1` covers every line. */
  lemma TailKeepsLastLines(buffer: string, n: int)
    requires n > 0
    ensures var lines := Split(buffer);
            var kept := Min(n + 1, |lines|);
            && Split(Tail(buffer, n)) == lines[|lines| - kept..]
            && |Split(Tail(buffer, n))| == kept
            && EndsWith(buffer, Tail(buffer, n))
            && (n + 1 >= |lines| ==> Tail(buffer, n) == buffer)
  {
    var lines := Split(buffer);
    var k := SliceStart(|lines|, -n - 1);
    assert k == |lines| - Min(n + 1, |lines|);
    SplitJoinSuffix(buffer, k);
    JoinSuffixIsSuffix(buffer, k);
  }

  /** A count of `-1` keeps every line; a count `n` below `-1` drops the first
      `-n - 1` lines instead of keeping the last ones. */
  lemma TailOfNegativeCount(buffer: string, n: int)
    requires n < 0
    ensures n == -1 ==> Tail(buffer, n) == buffer
    ensures var lines := Split(buffer);
            var dropped := Min(-n - 1, |lines|);
            Tail(buffer, n) == Join(lines[dropped..])
  {
    var lines := Split(buffer);
    if n == -1 {
      JoinSuffixIsSuffix(buffer, 0);
    }
  }

  /** The tail for any non-zero count: the last lines for a positive count,
      the lines after the dropped ones for a negative count. */
  lemma TailFacts(buffer: string, n: int)
    ensures var lines := Split(buffer);
            n > 0 ==> EndsWith(buffer, Tail(buffer, n)) && Split(Tail(buffer, n)) == lines[|lines| - Min(n + 1, |lines|)..]
    ensures var lines := Split(buffer);
            n < 0 ==> Tail(buffer, n) == Join(lines[Min(-n - 1, |lines|)..])
  {
    if n > 0 {
      TailKeepsLastLines(buffer, n);
    } else if n < 0 {
      TailOfNegativeCount(buffer, n);
    }
  }

  /** What `call` makes of the retrieved buffer `whole`: the buffer itself
      when the count is absent or 0 (falsy), otherwise its tail. */
  function CutToCount(whole: Read, linesOfOutput: Option<int>): (r: Read)
    ensures r.registry == whole.registry
    ensures r.result.Ok? <==> whole.result.Ok?
    ensures r.result.Err? ==> r.result == whole.result
    ensures linesOfOutput.None? || linesOfOutput == Some(0) ==> r == whole
    ensures r.result.Ok? && linesOfOutput.Some? && linesOfOutput.value > 0 ==>
              var lines := Split(whole.result.value);
              && EndsWith(whole.result.value, r.result.value)
              && Split(r.result.value) == lines[|lines| - Min(linesOfOutput.value + 1, |lines|)..]
    ensures r.result.Ok? && linesOfOutput.Some? && linesOfOutput.value < 0 ==>
              var lines := Split(whole.result.value);
              r.result.value == Join(lines[Min(-linesOfOutput.value - 1, |lines|)..])
  {
    match whole.result
    case Err(_) => whole
    case Ok(buffer) =>
      match linesOfOutput
      case None => whole
      case Some(n) =>
        if n == 0 then whole
        else
          TailFacts(buffer, n);
          Read(whole.registry, Ok(Tail(buffer, n)))
  }

  /** `call(linesOfOutput)`: the trimmed buffer, cut down to its tail when the
      count is truthy (neither absent nor 0). A positive count `n` keeps the
      buffer's last `n + 1` lines (the whole buffer when it is shorter); a
      negative one drops the first `-n - 1` lines. */
  function Call(agent: Option<string>, profile: Option<string>, reg: Registry, b: WindowBridge,
                contents: Reply, linesOfOutput: Option<int>): (r: Read)
    ensures var whole := RetrieveBuffer(agent, profile, reg, b, contents);
            && r.registry == whole.registry
            && (r.result.Ok? <==> whole.result.Ok?)
            && (r.result.Err? ==> r.result == whole.result)
            && (linesOfOutput.None? || linesOfOutput == Some(0) ==> r == whole)
            && (r.result.Ok? && linesOfOutput.Some? && linesOfOutput.value > 0 ==>
                  var lines := Split(whole.result.value);
                  && EndsWith(whole.result.value, r.result.value)
                  && Split(r.result.value) == lines[|lines| - Min(linesOfOutput.value + 1, |lines|)..])
            && (r.result.Ok? && linesOfOutput.Some? && linesOfOutput.value < 0 ==>
                  var lines := Split(whole.result.value);
                  r.result.value == Join(lines[Min(-linesOfOutput.value - 1, |lines|)..]))
  {
    CutToCount(RetrieveBuffer(agent, profile, reg, b, contents), linesOfOutput)
  }

  /** Worked case: one line requested from a four-line buffer gives the last
      two. */
  lemma TailExample()
    ensures Tail("a\nb\nc\nd", 1) == "c\nd"
  {
    var lines := ["a", "b", "c", "d"];
    assert Join(lines[3..]) == "d";
    assert Join(lines[2..]) == "c\nd";
    assert Join(lines[1..]) == "b\nc\nd";
    assert Join(lines) == "a\nb\nc\nd";
    SplitJoin(lines);
    assert SliceStart(4, -2) == 2;
  }
}
