# iterm-mcp core, modelled in Dafny

iterm-mcp is a Model Context Protocol server. It lets a language model drive an
iTerm2 terminal on macOS by sending it commands, reading its screen and typing
control characters. The server does this through `osascript`: it builds
AppleScript statements as text and runs them as shell commands. When started
with `--agent <name>`, every tool works on a window of its own. That window
belongs to the named client, and is created on first use and recorded in an
in-process table (`clientWindows`) from client name to window id.

This project models the logic of that core as pure Dafny functions and proves
what it guarantees:

- `WindowManager` (`src/WindowManager.ts`) covers four things:
  - the launch check `ensureiTermIsRunning`, with its ten post-launch probes;
  - the window registry and `ensureWindowExists`, with the registry state it
    leaves behind even when it throws;
  - the escaping of the client name into the creation script;
  - `buildAppleScriptForSession`.
- `SendControlCharacter` (`src/SendControlCharacter.ts`) maps a key name to its
  control code, and models the single AppleScript statement `send` runs.
- `TtyOutputReader` (`src/TtyOutputReader.ts`) covers `retrieveBuffer`, which
  returns the trimmed contents, and `call(linesOfOutput)`, which returns the
  last lines of them.
- `Index` (`src/index.ts`) covers the command-line loop `parseArgs`, the
  `outputLines` difference reported by `write_to_terminal`, and the
  `linesOfOutput` default of `read_terminal_output`.
- `JsText` and `JsNumber` model the JavaScript built-ins the core depends on:
  - `trim`, `toUpperCase`, `split('\n')` and `join('\n')`;
  - `parseInt`;
  - the decimal printing of a number inside a template literal.

Every external process call becomes an input of the model: its reply is
either the process's stdout or the message of the error it raised
(`Reply = Result<string>`). This covers the `osascript` probes, `open -a
iTerm`, the creation script, the write of a control character and the
`get contents` read. The launch probes are a function from attempt number to
reply. A thrown JavaScript `Error` is modelled by its message (`Err` /
`Fail`). Operations that mutate the registry return the new registry together
with the outcome, because the source updates the table in place before it can
throw.

Properties of the source worth knowing, which the model reproduces:

- JavaScript truthiness decides two things:
  - whether an agent or profile name counts as given (`IsSet`: present and
    non-empty);
  - whether a registered window id is usable (`IsTruthy`: neither `0` nor
    `NaN`, and `parseInt` yields `NaN` when the creation script prints no
    digits).
- The client name is escaped before it is placed in the creation script, but
  the profile name is not (`ProfileNameIsNotEscaped`). Nor is a single quote in
  any script escaped before the script goes between the single quotes of
  `osascript -e '…'`.
- `call(n)` returns `n + 1` lines, not `n`. A negative `n` below `-1` drops the
  first `-n - 1` lines instead of keeping the last ones. `read_terminal_output`
  passes `Number(arg) || 25`, so a missing, zero or non-numeric argument yields
  the last 26 lines.
- `outputLines` is the change in the number of newlines in the buffer. It can
  be negative.
- In `parseArgs`, a repeated option keeps its last value. An `--agent` or
  `--profile` with nothing after it is skipped. The token after `--agent` is
  taken as the name even when it is `--create-window`.

Further facts about the code that the model keeps:

- Only `--agent`, `--profile` and `--create-window` are recognised; any other
  argument, `--client` included, is skipped.
- Window creation does not touch the foreground application: the creation
  script only creates the window, names its session and prints its id.
- `send` ensures the agent's window before it looks at the letter, so an
  invalid letter can still create a window.
- Errors are plain `Error` messages, some with a fixed prefix; there are no
  distinct error classes per failure kind.
- `ensureWindowExists` returns nothing. The model's `created` field records
  the creation script that was run, if any.
- `call(0)` returns the whole buffer, since `0` is falsy.

## Model

| member | source | states |
|---|---|---|
| JsText.Trim | src/TtyOutputReader.ts:37 | the trimmed text neither starts nor ends with an ECMAScript whitespace or line-terminator character |
| JsText.TrimIsSlice | src/TtyOutputReader.ts:37 | trimming keeps one contiguous slice of the text and removes only whitespace on either side of it |
| JsText.TrimFixedPoint | src/WindowManager.ts:20 | trimming leaves a text unchanged exactly when it has no surrounding whitespace |
| JsText.TrimIdempotent | src/TtyOutputReader.ts:37 | trimming twice is trimming once |
| JsText.Upper | src/SendControlCharacter.ts:30-41 | upper-casing keeps the length, leaves no lower-case ASCII letter, turns each one into the capital 32 code points below it, and keeps every other character in place |
| JsText.UpperIdempotent | src/SendControlCharacter.ts:41 | upper-casing twice is upper-casing once |
| JsText.Split | src/TtyOutputReader.ts:21 | splitting on newlines gives one more line than the text has newlines, and no line holds a newline |
| JsText.JoinSplit | src/TtyOutputReader.ts:21-22 | joining the lines of a text with newlines gives the text back |
| JsText.SplitJoin | src/TtyOutputReader.ts:21-22 | splitting joined lines gives back the lines, when there is at least one and none holds a newline |
| JsText.JoinAppend | src/TtyOutputReader.ts:22 | joining two non-empty runs of lines puts exactly one newline between their joins |
| JsNumber.LeadingDigits | src/WindowManager.ts:95 | `parseInt` reads the longest run of digits at the start: every character in it is a digit and the next one is not |
| JsNumber.NatToString | src/WindowManager.ts:109 | a number prints as digits whose value is the number; the only rendering that starts with `0` is `0` itself |
| JsNumber.IntToString | src/WindowManager.ts:109 | an integer prints as a non-empty text that starts with a minus sign exactly when the integer is negative; `ParseIntOfPrinted` reads it back |
| JsNumber.ParseIntOfPrinted | src/WindowManager.ts:95 | `parseInt` reads back a printed integer, whatever non-digit text follows it; only after the integer 0 is an `x` or `X` excluded, since `0x` starts a hexadecimal number |
| JsNumber.ParseIntNoDigits | src/WindowManager.ts:95 | text that starts with neither whitespace, a sign nor a digit, the empty text included, reads as `NaN` |
| JsNumber.ParseIntStopsAtNonDigit | src/WindowManager.ts:95 | any run of decimal digits followed by text that cannot extend it reads as the run's value: reading stops at the first non-digit, `12x` included; only a lone `0` followed by `x` or `X` is excluded, since that is a hexadecimal prefix |
| JsNumber.ParseIntNegatesRun | src/WindowManager.ts:95 | with a minus sign in front, such a run reads as its negated value (`-12x` included; a lone `0` followed by `x` or `X` excluded) |
| WindowManager.PollUntilRunningFacts | src/WindowManager.ts:27-46 | the polling loop makes at most ten probes; every probe before the last was answered with something other than `true`; it succeeds exactly when the last probe reports running; a failed probe's error is passed on; otherwise the loop times out after ten probes |
| WindowManager.LaunchITerm | src/WindowManager.ts:10-51 | iTerm2 is opened exactly when the first probe answers something other than `true`; the check succeeds exactly when the first probe or the last post-launch probe reports running; probes follow only a successful open; every error carries the "Failed to ensure iTerm2 is running: " prefix |
| WindowManager.PollLoop | src/WindowManager.ts:27-46 | the `while` loop with its early exits makes between one and ten probes, all but the last answered with something other than `true`; it succeeds exactly when the last probe reports running; a failed probe's error is passed on; a last answer other than `true` means ten probes and the timeout error |
| WindowManager.PollOutcomeIsDetermined | src/WindowManager.ts:27-46 | those facts fix the outcome: any result meeting them is the one the recursive description of the loop computes |
| WindowManager.EnsureITermIsRunning | src/WindowManager.ts:10-51 | a failed first probe or a failed `open` is reported at once with the "Failed to ensure iTerm2 is running: " prefix; a first `true` means no launch and success; after a successful open, between one and ten probes are made, all but the last inconclusive, success exactly when the last reports running, a failed probe's error or the timeout otherwise, each prefixed |
| WindowManager.PollSucceedsIffSomeProbeReports | src/WindowManager.ts:28-42 | when every probe answers, polling succeeds if and only if one of the remaining probes reports running |
| WindowManager.LaunchSucceedsIffSomeProbeReports | src/WindowManager.ts:22-46 | after a launch with every probe answering, the check succeeds if and only if one of the ten probes reports running |
| WindowManager.PollTimesOut | src/WindowManager.ts:28-45 | ten answers other than `true` end polling with the timeout error after exactly ten probes |
| WindowManager.LaunchTimesOut | src/WindowManager.ts:44-49 | the timeout reaches the caller with the launch-check prefix |
| WindowManager.EscapeName | src/WindowManager.ts:83 | escaping adds one backslash per `"` and per `\` and leaves a name without them unchanged |
| WindowManager.UnescapeEscapeName | src/WindowManager.ts:83-88 | the escaped name, read as an AppleScript string literal with the `\"` and `\\` escapes, is the client name |
| WindowManager.EscapeNameOfUnescaped | src/WindowManager.ts:83-88 | any literal text using only the `\"` and `\\` escapes is the escaping of what it reads as, so escaping is a bijection onto such texts |
| WindowManager.ProfileNameIsNotEscaped | src/WindowManager.ts:82 | a profile name holding a quote is put into the script bare, giving a literal that does not read back |
| WindowManager.CreateScriptNamesClient | src/WindowManager.ts:84-92 | the creation script has the profile clause and session-naming head and the id-returning tail, and the name literal between them reads back as the client name |
| WindowManager.ParseWindowIdOfPrinted | src/WindowManager.ts:94-95 | the id a creation script prints, followed by the newline of `osascript` output, reads back as that id; an empty answer gives `NaN` |
| WindowManager.EnsureWindowExists | src/WindowManager.ts:53-100 | only the client's entry changes; every error has the "Failed to ensure window exists: " prefix; a failed launch check or a failed probe is passed on and changes nothing; success leaves the client registered; without creation nothing changes, and the call succeeds exactly when the launch check passed and the probe found the window; a window is created exactly when the launch check passed and no registered window was found (an unknown client, or any probe answer other than `exists`); an id is stored exactly when the creation script answered, and it is that answer parsed; a failed creation leaves the client without an entry and passes the error on |
| WindowManager.EnsureTwiceCreatesOnce | src/WindowManager.ts:58-96 | a new client gets a window on the first call, and a second call whose probe finds it creates nothing and changes nothing |
| WindowManager.StaleWindowIsReplaced | src/WindowManager.ts:73-98 | a registered window the probe does not report as `exists` is evicted and a window is created: the new parsed id replaces the old one when creation answers, and otherwise the client is left without an entry and the prefixed error is returned |
| WindowManager.EnsureNewClient | src/WindowManager.ts:59-96 | a client without an entry gets a window once the launch check passes, and the parsed id of the creation script's answer is recorded |
| WindowManager.BuildScriptForSession | src/WindowManager.ts:102-113 | the statement is built exactly when no client is named or the client's id is truthy; it ends with the operation; without a client it targets the current window, otherwise `window id <id>`; a missing window gives the "No window found" error |
| WindowManager.SessionScriptNamesWindow | src/WindowManager.ts:109 | the id printed into the statement reads back with `parseInt` as the registered id |
| WindowManager.CreatedWindowIsAddressed | src/WindowManager.ts:94-109 | after creating a window whose id is not zero, the client's statements address that window |
| SendControlCharacter.ControlCode | src/SendControlCharacter.ts:29-48 | a code exists exactly for `]`, `ESC`/`ESCAPE` in any case, or a single ASCII letter; 29 exactly for `]`; 27 exactly for the escape names; letters map into 1..26; anything else gives "Invalid control character letter" |
| SendControlCharacter.LetterCode | src/SendControlCharacter.ts:39-47 | a letter maps to its upper-case code minus 64, whatever its case |
| SendControlCharacter.LetterOfCode | src/SendControlCharacter.ts:47 | each code 1..26 comes from the letter at that alphabet position in either case, so the mapping is inverted by adding 64 |
| SendControlCharacter.ControlCodeIgnoresCase | src/SendControlCharacter.ts:30-42 | upper-casing the key name first changes nothing |
| SendControlCharacter.ControlCodeExamples | src/SendControlCharacter.ts:29-48 | `c` and `C` give 3, `esc` and `Escape` give 27, and the empty text, `1`, `[` and `AB` are rejected |
| SendControlCharacter.Send | src/SendControlCharacter.ts:21-61 | the agent's window is ensured before the letter is checked, and a failed check is passed on unchanged with nothing written; a rejected letter writes nothing; once the window check passed, a valid letter is written exactly when the session can be addressed, and otherwise the addressing error is returned; what is written is the statement typing the letter's code into the addressed session; success means it was written and the write answered; a write error has the "Failed to send control character: " prefix |
| SendControlCharacter.SendControlCToCurrentWindow | src/SendControlCharacter.ts:50-57 | without an agent, Control-C is written to the current window's session and the registry is untouched |
| TtyOutputReader.RetrieveBuffer | src/TtyOutputReader.ts:25-38 | the window is ensured only for a named agent; the read succeeds exactly when ensuring, addressing and reading all succeed; the text is the trimmed contents, with no surrounding whitespace and stable under trimming; each failure comes back as raised: the prefixed error of ensuring the window, else the `No window found` error of addressing, else the error of reading the contents |
| TtyOutputReader.RetrieveWithoutAgentIgnoresRegistryBridge | src/TtyOutputReader.ts:26-34 | without an agent no window is ensured, so the replies of the window bridge make no difference |
| TtyOutputReader.TailKeepsLastLines | src/TtyOutputReader.ts:21-22 | for a positive count n the tail is the last n + 1 lines (all when fewer), a suffix of the buffer, and the whole buffer when n + 1 covers it |
| TtyOutputReader.TailOfNegativeCount | src/TtyOutputReader.ts:22 | a count of -1 keeps the whole buffer; a count n below -1 drops the first -n - 1 lines |
| TtyOutputReader.TailFacts | src/TtyOutputReader.ts:21-22 | for every non-zero count, the tail is the last n + 1 lines (n > 0) or the lines after the first -n - 1 (n < 0) |
| TtyOutputReader.Call | src/TtyOutputReader.ts:16-23 | the registry and the success of the read are those of retrieving the buffer; errors pass through; no count or 0 returns the whole buffer; a positive count n returns a suffix of the buffer whose lines are exactly its last n + 1 lines (all when fewer); a negative count n returns the lines after the first -n - 1 |
| TtyOutputReader.CutToCount | src/TtyOutputReader.ts:18-22 | the same facts for a given retrieved buffer: falsy counts keep it, positive counts keep its last n + 1 lines, negative counts drop the first -n - 1 |
| TtyOutputReader.TailExample | src/TtyOutputReader.ts:21-22 | one line requested from `a\nb\nc\nd` gives `c\nd` |
| Index.UntokenizeTokenize | src/index.ts:21-31 | the steps of the argument loop cover every argument exactly once, in order |
| Index.Tokenize | src/index.ts:21-31 | each loop turn consumes at least one argument: there are no more steps than arguments, and no steps exactly when there are no arguments |
| Index.LastValueIsLastSetting | src/index.ts:21-27 | the value an option ends with is the one given at its last occurrence |
| Index.LastValueAbsent | src/index.ts:17-18 | an option has no value exactly when no step sets it |
| Index.ApplyGathers | src/index.ts:21-33 | after the loop each option holds its last given value (or its earlier one), and `createWindowOnly` is on exactly when `--create-window` occurred as a step |
| Index.ParseArgs | src/index.ts:15-34 | the index-skipping loop computes the step-wise result, one turn lemma per branch of the loop: last `--agent` and `--profile` values, and `createWindowOnly` exactly when `--create-window` is a step of its own |
| Index.TokenizeAppend | src/index.ts:21-31 | when the first arguments do not end with an option waiting for its value, the loop over a concatenation takes the steps of each part in turn |
| Index.ApplyAppend | src/index.ts:21-31 | taking two runs of steps is taking their concatenation |
| Index.LastOccurrenceWins | src/index.ts:22-27 | appending `--agent x` or `--profile x` sets that option to `x` and changes nothing else |
| Index.UnknownTokenIsSkipped | src/index.ts:21-31 | an unrecognised argument changes nothing |
| Index.FirstStep | src/index.ts:22-31 | the flag one loop turn reads from the front of the arguments consumes at least one and at most all of them, and is exactly the tokens it consumed |
| Index.AgentTurn | src/index.ts:22-24 | the turn that sets `agentName` to the next argument and skips it leaves the same final options as the steps still to come from that index |
| Index.ProfileTurn | src/index.ts:25-27 | the turn that sets `profileName` to the next argument and skips it leaves the same final options as the steps still to come |
| Index.CreateWindowTurn | src/index.ts:28-29 | the turn that sets `createWindowOnly` leaves the same final options as the steps still to come |
| Index.SkipTurn | src/index.ts:21-30 | an argument that matches no branch (an unknown one, or `--agent`/`--profile` with nothing after it) is passed over without changing the final options |
| Index.ParseExamplesSimple | src/index.ts:15-34 | no arguments give the defaults; `--agent "My Custom Window"` names that agent; a dangling `--agent` is ignored |
| Index.ParseExamplesValueTaken | src/index.ts:22-30 | `--agent --create-window` names the agent `--create-window` without setting the switch; of two `--agent`s the second wins |
| Index.ParseExamplesMixed | src/index.ts:21-31 | unknown flags around `--agent Test-Window` are skipped |
| Index.OutputLines | src/index.ts:105-112 | the reported line count is the change in the number of newlines between the two buffers |
| Index.OutputLinesCanBeNegative | src/index.ts:112 | a buffer that lost a line reports -1 |
| Index.LinesOfOutputOrDefault | src/index.ts:123 | the count is never 0: a non-zero number is kept, and a missing or zero one becomes 25 |
| Index.ReadTerminalOutput | src/index.ts:121-124 | the tool reads like `retrieveBuffer` (same registry, success and errors) and, for a positive or defaulted count n, returns a suffix of the buffer whose lines are exactly its last n + 1; for a negative count n, returns the lines after the first -n - 1 |
| Index.ReadTerminalOutputDefault | src/index.ts:122-124 | without a usable count the tool returns a suffix of the buffer whose lines are exactly its last 26 (all when fewer) |

## Left out

- Process execution is not modelled. Nothing about `exec`, `osascript` or AppleScript semantics is modelled: each call is an input reply, and the model records only which AppleScript statement is run (`created`, `written`). The `osascript -e '…'` shell wrapping around each statement is left out.
- Delays are left out: the one-second sleep before each launch probe and the two-second pause after a successful one affect timing only.
- The MCP server itself is left out: the tool schemas, the request dispatch, the response texts, logging, `process.exit`, and the standalone `--create-window` run. Only the arithmetic of the tool handlers is modelled.
- `write_to_terminal` is modelled only in its `outputLines` difference. `CommandExecutor.ts` is not part of this model.
- Concurrency is left out. Two concurrent `ensureWindowExists` calls for one client can interleave over the shared table. The model treats each call as atomic.
- The existence probe and the launch probe are modelled by their answer only (`exists`, `true`), not by their script text.
- Script layout is simplified: the multi-line template literals are modelled with one statement per line and no indentation, since AppleScript ignores the indentation.
- The test suite's copies of `parseArgs` stop at the first `--agent`. The model follows `src/index.ts`, where the last occurrence wins.
- JsText.Upper: only ASCII letters are upper-cased. JavaScript's full Unicode `toUpperCase` also maps, for example, `ı` to `I` and `ß` to `SS`. So a non-ASCII key name that JavaScript upper-cases into an accepted name is rejected here.
- SendControlCharacter.ControlCode: accepts exactly the ASCII key names. A non-ASCII name such as `ı`, which JavaScript's `toUpperCase` turns into the accepted `I`, gives the invalid-letter error here, because upper-casing is ASCII only (see `JsText.Upper`).
- JsNumber.ParseIntOfPrinted: `parseInt` is modelled on unbounded integers (this holds for `ParseIntStopsAtNonDigit` and `ParseIntNegatesRun` too). Double-precision rounding of numbers with more than 15 digits is left out, and so is the exponent notation of numbers at or above 1e21.
- Index.LinesOfOutputOrDefault: `Number(arg)` is modelled only for integer results. A fractional count, and the slicing it causes, is left out; `NaN` is folded into the missing case.
- WindowManager.UnescapeName: reads only the `\"` and `\\` escapes. AppleScript string literals also accept `\n`, `\r` and `\t`, which this reader rejects. The escaping of client names never produces them, so the round trip is unaffected.
