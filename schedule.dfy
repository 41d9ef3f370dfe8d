/** The `!schedule meet` and `!ping` commands of app.py with the chat platform
    and the language model abstracted away: the history fetch is an input
    (its result or its failure), and the model is a function from transcript
    to answer. */
module ScheduleBot {
  import opened TranscriptBuilder

  datatype Option<T> = None | Some(value: T)

  /** The platform's hard limit on one message (app.py:22). */
  const MaxMessageLength: nat := 2000

  /** How much of an oversized answer is kept before the marker. */
  const KeptPrefixLength: nat := MaxMessageLength - 50

  const TruncationMarker: string := "\n\n*[Response truncated]*"

  // The replies of app.py, verbatim.
  const UsageText: string := "\U{274C} Usage: `!schedule meet`"
  const TimeoutText: string := "\U{23F0} Timeout while fetching messages. Please try again."
  const NoMessagesText: string := "\U{274C} No messages found in this channel."
  const NoValidMessagesText: string := "\U{274C} No valid messages found to process."
  const AnalysisErrorText: string :=
    "\U{26A0}\U{FE0F} Sorry, I encountered an error while analyzing the conversation. Please try again later."
  const NoResponseText: string := "\U{26A0}\U{FE0F} I couldn't generate a response. Please try again."
  const NoPermissionText: string := "\U{274C} I don't have permission to read message history in this channel."
  const DiscordErrorText: string := "\U{274C} There was an issue communicating with Discord. Please try again."
  const UnexpectedErrorText: string := "\U{274C} An unexpected error occurred. The issue has been logged."

  // ---------------------------------------------------------------------
  // process_schedule_request (app.py:36-56)

  /** What the model chain gives back: its text, or an exception. */
  datatype ModelResult = Answered(text: string) | Failed

  /** The length clamp of app.py:50-51: an answer that fits is posted as it
      is; a longer one keeps its first 1950 characters and gets the marker,
      which brings it to 1974 characters, within the limit. */
  function ClampResponse(response: string): (r: string)
    ensures |r| <= MaxMessageLength
    ensures |response| <= MaxMessageLength ==> r == response
    ensures |response| > MaxMessageLength ==>
      && |r| == KeptPrefixLength + |TruncationMarker|
      && r[..KeptPrefixLength] == response[..KeptPrefixLength]
      && r[KeptPrefixLength..] == TruncationMarker
  {
    if |response| > MaxMessageLength then response[..KeptPrefixLength] + TruncationMarker else response
  }

  /** Clamping a clamped answer changes nothing more. */
  lemma ClampIdempotent(response: string)
    ensures ClampResponse(ClampResponse(response)) == ClampResponse(response)
  {
  }

  /** app.py:46-56: the clamped answer, or the fixed apology when the chain
      raises. Either way the text fits in one message, and it is empty only
      when the model answered with the empty string. */
  function ProcessScheduleRequest(result: ModelResult): (r: string)
    ensures |r| <= MaxMessageLength
    ensures r == [] <==> result == Answered([])
    ensures result.Failed? ==> r == AnalysisErrorText
  {
    match result
    case Failed => AnalysisErrorText
    case Answered(text) => ClampResponse(text)
  }

  // ---------------------------------------------------------------------
  // schedule_meet (app.py:90-169)

  /** How `channel.history(limit=20)` under the 5-second `wait_for` ended:
      the messages (newest first), the timeout, or one of the platform
      exceptions the handler tells apart. */
  datatype FetchResult =
    | Fetched(messages: seq<Message>)
    | TimedOut
    | Forbidden     // discord.Forbidden
    | HttpFailure   // discord.HTTPException
    | Crashed       // any other exception

  /** The one message an invocation ends with. */
  datatype Outcome =
    | Usage
    | FetchTimeout
    | NoPermission
    | DiscordError
    | UnexpectedError
    | NoMessages
    | NoValidMessages
    | Recommendation(text: string)
    | NoResponse

  /** The text of that message as the bot posts it. */
  function ReplyText(o: Outcome): string {
    match o
    case Usage => UsageText
    case FetchTimeout => TimeoutText
    case NoPermission => NoPermissionText
    case DiscordError => DiscordErrorText
    case UnexpectedError => UnexpectedErrorText
    case NoMessages => NoMessagesText
    case NoValidMessages => NoValidMessagesText
    case Recommendation(text) => text
    case NoResponse => NoResponseText
  }

  /** One run of the handler: whether the history was requested, the
      transcript the model was given (if it was consulted at all) and the
      single message posted. */
  datatype Invocation = Invocation(historyRequested: bool, modelInput: Option<string>, outcome: Outcome)

  const MeetAction: string := "meet"

  /** The `schedule_meet` handler as a function of its inputs. `action` is the
      optional sub-command argument; `inGuild` says whether the command came
      from a server channel rather than a direct message; `fetch` is how the
      history fetch ended; `model` is the model chain. In a direct message
      `ctx.guild` is `None`, so the log line of app.py:146 raises before the
      model is called, and the catch-all of app.py:167-169 answers. */
  function ScheduleMeet(action: Option<string>, inGuild: bool, fetch: FetchResult,
                        model: string -> ModelResult): (inv: Invocation)
    ensures inv.historyRequested <==> action == Some(MeetAction)
    ensures inv.modelInput.Some? ==> inv.historyRequested && inGuild && inv.modelInput.value != []
    ensures inv.outcome.Recommendation? ==> inv.modelInput.Some?
    ensures 0 < |ReplyText(inv.outcome)| <= MaxMessageLength
  {
    if action != Some(MeetAction) then Invocation(false, None, Usage)
    else
      match fetch
      case TimedOut => Invocation(true, None, FetchTimeout)
      case Forbidden => Invocation(true, None, NoPermission)
      case HttpFailure => Invocation(true, None, DiscordError)
      case Crashed => Invocation(true, None, UnexpectedError)
      case Fetched(messages) =>
        if messages == [] then Invocation(true, None, NoMessages)
        else
          var transcript := Transcript(messages);
          if transcript == [] then Invocation(true, None, NoValidMessages)
          else if !inGuild then Invocation(true, None, UnexpectedError)
          else
            var response := ProcessScheduleRequest(model(transcript));
            if response != [] then Invocation(true, Some(transcript), Recommendation(response))
            else Invocation(true, Some(transcript), NoResponse)
  }

  /** Any argument other than `meet` (including none) gets the usage message,
      and only such an argument does; no fetch, no model call. */
  lemma UsageIffWrongAction(action: Option<string>, inGuild: bool, fetch: FetchResult, model: string -> ModelResult)
    ensures ScheduleMeet(action, inGuild, fetch, model).outcome == Usage <==> action != Some(MeetAction)
    ensures action != Some(MeetAction) ==> ScheduleMeet(action, inGuild, fetch, model) == Invocation(false, None, Usage)
  {
  }

  /** A failed fetch ends the invocation with its own message before the
      model is consulted: the timeout first (app.py:116-118), then the
      exceptions caught around the whole body (app.py:162-169). */
  lemma FetchFailureOutcomes(inGuild: bool, fetch: FetchResult, model: string -> ModelResult)
    requires !fetch.Fetched?
    ensures ScheduleMeet(Some(MeetAction), inGuild, fetch, model).modelInput == None
    ensures ScheduleMeet(Some(MeetAction), inGuild, fetch, model).outcome ==
      match fetch
      case TimedOut => FetchTimeout
      case Forbidden => NoPermission
      case HttpFailure => DiscordError
      case Crashed => UnexpectedError
  {
  }

  /** An empty history gets "No messages found" without consulting the model. */
  lemma EmptyHistoryOutcome(inGuild: bool, model: string -> ModelResult)
    ensures ScheduleMeet(Some(MeetAction), inGuild, Fetched([]), model) == Invocation(true, None, NoMessages)
  {
  }

  /** A non-empty history in which every message is filtered out gets "No
      valid messages", and only such a history does; the model is not
      consulted. */
  lemma NoValidMessagesIff(messages: seq<Message>, inGuild: bool, model: string -> ModelResult)
    requires messages != []
    ensures ScheduleMeet(Some(MeetAction), inGuild, Fetched(messages), model).outcome == NoValidMessages
        <==> NoneKept(messages)
    ensures ScheduleMeet(Some(MeetAction), inGuild, Fetched(messages), model).outcome == NoValidMessages
        ==> ScheduleMeet(Some(MeetAction), inGuild, Fetched(messages), model).modelInput == None
  {
    TranscriptEmptyIff(messages);
  }

  /** The model is consulted exactly when the action is `meet`, the command
      came from a server channel, the fetch succeeded and at least one message
      survives the filter; it is then given the transcript of those messages. */
  lemma ModelConsultedIff(action: Option<string>, inGuild: bool, fetch: FetchResult, model: string -> ModelResult)
    ensures ScheduleMeet(action, inGuild, fetch, model).modelInput.Some? <==>
      && action == Some(MeetAction)
      && inGuild
      && fetch.Fetched?
      && !NoneKept(fetch.messages)
    ensures ScheduleMeet(action, inGuild, fetch, model).modelInput.Some? ==>
      ScheduleMeet(action, inGuild, fetch, model).modelInput.value == Transcript(fetch.messages)
  {
    if action == Some(MeetAction) && fetch.Fetched? {
      TranscriptEmptyIff(fetch.messages);
    }
  }

  /** In a direct message, a history with something to analyse ends with the
      unexpected-error message and the model is never consulted: the server
      name logged at app.py:146 does not exist there. */
  lemma DirectMessageOutcome(messages: seq<Message>, model: string -> ModelResult)
    requires !NoneKept(messages)
    ensures ScheduleMeet(Some(MeetAction), false, Fetched(messages), model) == Invocation(true, None, UnexpectedError)
  {
    TranscriptEmptyIff(messages);
  }

  /** Once consulted, the model's answer decides the message: a non-empty
      answer is posted (clamped), an empty one gets the "couldn't generate"
      message, a failure the apology (app.py:157-160, app.py:54-56). */
  lemma ModelAnswerOutcome(action: Option<string>, inGuild: bool, fetch: FetchResult, model: string -> ModelResult)
    requires ScheduleMeet(action, inGuild, fetch, model).modelInput.Some?
    ensures
      var inv := ScheduleMeet(action, inGuild, fetch, model);
      match model(inv.modelInput.value)
      case Failed => inv.outcome == Recommendation(AnalysisErrorText)
      case Answered(text) =>
        if text == [] then inv.outcome == NoResponse
        else inv.outcome == Recommendation(ClampResponse(text))
  {
  }

  /** The model's behaviour matters only where it is consulted, and there
      only on the transcript it is given. */
  lemma ModelOnlyMattersWhenConsulted(action: Option<string>, inGuild: bool, fetch: FetchResult,
                                      m1: string -> ModelResult, m2: string -> ModelResult)
    requires
      var input := ScheduleMeet(action, inGuild, fetch, m1).modelInput;
      input.None? || m1(input.value) == m2(input.value)
    ensures ScheduleMeet(action, inGuild, fetch, m1) == ScheduleMeet(action, inGuild, fetch, m2)
  {
  }

  // ---------------------------------------------------------------------
  // ping (app.py:171-181)

  const Green: int := 0x00ff00
  const Amber: int := 0xff6600
  const Red: int := 0xff0000

  /** The embed colour for a latency in whole milliseconds (app.py:179). */
  function PingColour(latencyMs: int): (colour: int)
    ensures colour == Green <==> latencyMs < 100
    ensures colour == Amber <==> 100 <= latencyMs < 300
    ensures colour == Red <==> 300 <= latencyMs
  {
    if latencyMs < 100 then Green else if latencyMs < 300 then Amber else Red
  }

  /** How bad a colour reads: green, then amber, then red. */
  function Severity(colour: int): nat {
    if colour == Green then 0 else if colour == Amber then 1 else 2
  }

  /** A slower ping never shows a better colour. */
  lemma PingColourMonotone(a: int, b: int)
    requires a <= b
    ensures Severity(PingColour(a)) <= Severity(PingColour(b))
  {
  }
}
