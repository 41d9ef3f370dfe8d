# meet-scheduler-agent: the `!schedule meet` handler, verified

This project models, in Dafny, the deterministic core of the Discord bot in
`app.py`. That is the logic of the `!schedule meet` command: it reads the
last messages of a channel, turns them into a transcript, hands it to a
language model and posts the answer. The model and the chat platform are
abstracted away.

- `pystr.dfy` (module `PyStr`): the Python string operations the handler
  relies on, with CPython's semantics:
  - `str.isspace` over the full whitespace set;
  - `strip()`;
  - `rstrip('\n')`;
  - `replace(old, new)`, a leftmost, non-overlapping scan.
- `sanitize.dfy` (module `Sanitize`): the `@everyone` / `@here` defusal of
  app.py:136 and what it guarantees. Neither token survives, the defusal is
  idempotent and changes nothing where there is nothing to defuse, and the
  text grows by at most one character per token.
- `transcript.dfy` (module `TranscriptBuilder`): the transcript builder of
  app.py:124-139, written imperatively:
  - an in-place reversal of an array of messages (`messages.reverse()`);
  - a loop that accumulates one `name: content\n` line per kept message;
  - the final `rstrip('\n')`.

  Both methods are proved against functional specifications (`Reversed`,
  `Lines`, `Join`, `Transcript`). Lemmas about those specifications state the
  filter, order, shape and mention properties of the transcript.
- `schedule.dfy` (module `ScheduleBot`):
  - the response clamp and the apology of `process_schedule_request`
    (app.py:46-56);
  - the whole decision chain of `schedule_meet` (app.py:97-169), as a pure
    function from its inputs to the one message the invocation posts;
  - the colour of `!ping` (app.py:179).

  In `ScheduleMeet` the inputs are the command argument, whether it came
  from a server channel or a direct message, how the history fetch ended,
  and the model chain, which is a function parameter. The
  function also records whether the history was requested and what the model
  was given.

A message is the record `(display_name, name, content)`. Strings are
sequences of Unicode characters, and lengths count characters, as Python's
`len` does.

Four behaviours of the code are easy to miss:

- Only message content is sanitised; author names are copied verbatim.
  A display name `@everyone` therefore reaches the transcript unchanged,
  shown by `TranscriptBuilder.UsernameIsNotSanitised`. The transcript is
  mention-free only when the names are (`TranscriptBuilder.TranscriptMentionFree`).
- The 500-character bound is checked on the stripped content before
  sanitising (app.py:134-136). A sanitised line's content can therefore be
  longer than 500 characters, by at most one character per defused token
  (`Sanitize.SanitizeShape`). For example, 495 letters followed by `@here`
  are kept and become 501 characters
  (`TranscriptBuilder.SanitisedContentMayExceedLimit`).
- When the model chain fails, the user sees "Sorry, I encountered an error
  while analyzing…". That text is returned by `process_schedule_request`
  (app.py:54-56) and posted like any answer. The handler's own "I'm having
  trouble analyzing…" branch (app.py:151-154) is unreachable for chain
  failures, because `process_schedule_request` already catches every
  exception.
- The command is not limited to servers. In a direct message `ctx.guild` is
  `None`, so the log line of app.py:146 raises `AttributeError` before the
  model is called. The catch-all handler of app.py:167-169 then posts the
  unexpected-error message (`ScheduleBot.DirectMessageOutcome`).

## Model

| member | source | states |
|---|---|---|
| PyStr.StripSpec | app.py:131 | `strip()` removes exactly the leading and trailing whitespace: the result is a slice of the input whose cut-off ends are all whitespace, whose own ends are not, and which is empty iff the input is all whitespace |
| PyStr.RStripSpec | app.py:139 | `rstrip('\n')` gives a prefix of the input; everything it drops is `\n`, and the result does not end in `\n` |
| Sanitize.SanitizeContent | app.py:136 | after both replacements the content holds neither `@everyone` nor `@here` |
| Sanitize.NoMentionAfterDefuse | app.py:136 | replacing `@w` leaves no `@w`, and creates no `@u` that was not already there; so the second replacement keeps the first one's guarantee |
| Sanitize.SanitizeWithoutMentionIsIdentity | app.py:136 | content with neither token is left exactly as it was |
| Sanitize.SanitizeIdempotent | app.py:136 | sanitising sanitised content changes nothing |
| Sanitize.DefuseGrowth | app.py:136 | one replacement never shortens the text, and adds at most one character per `\|@w\|` characters of input |
| Sanitize.DefuseKeepsLast | app.py:136 | one replacement keeps the last character of non-empty text |
| Sanitize.SanitizePaddedHere | app.py:136 | `k` letters followed by `@here` come out with the zero-width space after the `@`, one character longer |
| Sanitize.SanitizeShape | app.py:134-136 | sanitising never shortens content, grows it by at most 1/9 and then 1/5 (one character per `@everyone` / `@here`), and keeps its last character, so the 500-character bound measured before sanitising need not hold after it |
| TranscriptBuilder.Reversed | app.py:125 | the reversal has the same length, and position k holds the element at position n-1-k |
| TranscriptBuilder.ReverseInPlace | app.py:125 | `messages.reverse()` on an array leaves in it exactly the reversal of its old contents |
| TranscriptBuilder.Lines | app.py:128-137 | the filter gives at most one line per message |
| TranscriptBuilder.KeptIndices | app.py:133-134 | the kept positions are valid, strictly increasing, and are exactly the positions whose stripped content is non-empty and at most 500 characters |
| TranscriptBuilder.FormatTranscript | app.py:127-139 | the accumulating loop followed by `rstrip('\n')` yields exactly the kept lines joined by newlines |
| TranscriptBuilder.BuildTranscript | app.py:124-139 | reversing in place, then formatting, leaves the array reversed and returns the transcript of the fetched (newest-first) messages |
| TranscriptBuilder.LinesFollowKeptIndices | app.py:128-137 | the lines are, in order, the lines of the kept messages, one per kept message |
| TranscriptBuilder.TranscriptLinesInOrder | app.py:124-137 | each transcript line comes from a kept fetched message, no more lines than fetched messages, and later lines come from newer messages (chronological order) |
| TranscriptBuilder.KeptMessagesAppear | app.py:124-134 | a fetched message is among the sources of the transcript lines iff it passes the filter |
| TranscriptBuilder.LineShape | app.py:129-136 | a kept line starts with `display_name`, or with `name` when that is empty; its content has 1 to 500 characters before sanitising, visible characters at both ends, and does not shrink when sanitised |
| TranscriptBuilder.LineEndsInContent | app.py:131-137 | a kept line ends with the last character of its stripped content, which is not whitespace |
| TranscriptBuilder.LinesEndInContent | app.py:128-137 | no line of the transcript is empty or ends in whitespace |
| TranscriptBuilder.TerminatedIsJoinedPlusNewline | app.py:137-139 | the accumulated text is the newline join of the lines plus one final newline |
| TranscriptBuilder.StrippedTerminatedIsJoined | app.py:137-139 | since no line ends in `\n`, `rstrip('\n')` removes exactly the final newline the loop appended |
| TranscriptBuilder.JoinEmptyIff | app.py:139-141 | joining non-empty lines gives the empty string iff there are no lines |
| TranscriptBuilder.LinesEmptyIff | app.py:128-137 | there are no lines iff no message passes the filter |
| TranscriptBuilder.NoneKeptReversed | app.py:125 | reversing the messages does not change whether any of them passes the filter |
| TranscriptBuilder.TranscriptEmptyIff | app.py:133-141 | the transcript is empty iff no fetched message passes the filter |
| TranscriptBuilder.SanitisedContentMayExceedLimit | app.py:131-136 | a 500-character content (495 letters and `@here`) is kept, and its sanitised form has 501 characters |
| TranscriptBuilder.LineMentionFree | app.py:130-137 | a line holds no mass-mention token when its author name holds none |
| TranscriptBuilder.JoinMentionFree | app.py:137-139 | joining mention-free lines with newlines creates no mention |
| TranscriptBuilder.TranscriptMentionFree | app.py:130-139 | when no author name holds a raw token, the whole transcript holds neither `@everyone` nor `@here` |
| TranscriptBuilder.UsernameIsNotSanitised | app.py:130 | a display name `@everyone` is copied into the transcript with its token intact |
| ScheduleBot.ClampResponse | app.py:50-53 | the result is at most 2000 characters; text that fits is unchanged; longer text becomes its first 1950 characters followed by the truncation marker |
| ScheduleBot.ClampIdempotent | app.py:50-51 | clamping twice is clamping once |
| ScheduleBot.ProcessScheduleRequest | app.py:46-56 | the posted answer is at most 2000 characters; it is empty iff the model answered with the empty string; a failing chain gives the fixed apology |
| ScheduleBot.ScheduleMeet | app.py:97-169 | the history is requested iff the argument is `meet`; the model is only ever given a non-empty transcript, only after the history was requested and only in a server channel; every run posts exactly one non-empty message of at most 2000 characters |
| ScheduleBot.UsageIffWrongAction | app.py:97-99 | any argument other than `meet`, including none, gets the usage message without a fetch, and only such an argument does |
| ScheduleBot.FetchFailureOutcomes | app.py:108-169 | a fetch that times out, is forbidden, fails over HTTP or raises anything else ends with its own message, and the model is not consulted |
| ScheduleBot.EmptyHistoryOutcome | app.py:120-122 | an empty history gets "No messages found" and the model is not consulted |
| ScheduleBot.NoValidMessagesIff | app.py:139-143 | a non-empty history gets "No valid messages" iff no message passes the filter, and then the model is not consulted |
| ScheduleBot.ModelConsultedIff | app.py:120-150 | the model is consulted iff the argument is `meet`, the command came from a server channel, the fetch succeeded and some message passes the filter; it is then given exactly the transcript |
| ScheduleBot.DirectMessageOutcome | app.py:146-169 | in a direct message, a history with something kept ends with the unexpected-error message and the model is not consulted, because the server name logged at app.py:146 does not exist there |
| ScheduleBot.ModelAnswerOutcome | app.py:156-160 | once consulted, a non-empty answer is posted clamped, an empty one gets "couldn't generate a response", and a failure posts the apology |
| ScheduleBot.ModelOnlyMattersWhenConsulted | app.py:141-160 | two models that agree on the transcript the handler gives them lead to the same invocation |
| ScheduleBot.PingColour | app.py:179 | green iff latency < 100 ms, amber iff 100 ≤ latency < 300, red iff latency ≥ 300 |
| ScheduleBot.PingColourMonotone | app.py:179 | a slower ping never shows a better colour |

## Left out

- agent.py is not part of this model: the prompt template and the Gemini chain are a foreign call with opaque output. The chain is the parameter `model: string -> ModelResult` of `ScheduleMeet`.
- Discord plumbing is not modelled: bot construction, `on_ready`, `on_error`, `on_command_error`, the help embed, the typing indicator, `channel.history`, `ctx.send` and `channel.send`. All of it is I/O in a library that is not shown.
- Exceptions raised while sending a reply are not modelled. `Forbidden`, `HTTPException` and other exceptions are modelled only as ways the history fetch can end (the `FetchResult` variants).
- The 5-second `asyncio.wait_for` is not modelled as timing; only its outcome is, as the `TimedOut` fetch result.
- The `limit=20` of `channel.history` is not enforced on the input sequence. Every property holds for any number of messages.
- The cooldown decorators are not modelled: they are provided by the framework and depend on time.
- ScheduleBot.ScheduleMeet: does not model the "trouble analyzing" branch of app.py:151-154, because `process_schedule_request` catches every exception the chain raises, so that branch is never taken for a chain failure.
- ScheduleBot.PingColour: takes the latency as whole milliseconds. The float `bot.latency * 1000` and Python's `round` (app.py:175) are floating point. The embed title and description are not modelled.
- Logging, `validate_environment` and `main` are process and environment I/O, and are not modelled.
- PyStr.Replace: is defined only for a non-empty pattern, the only kind the handler uses. Python's rule for `replace('', …)` is not modelled.
- Strings are sequences of Unicode scalar values. `strip()` follows CPython's `isspace`, and no normalisation is applied.
