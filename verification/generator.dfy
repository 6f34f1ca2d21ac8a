/** One run of the component's `generateImage` handler as a pure state step.

    The HTTP request to the image service is not modelled: the reply it
    produced is a parameter of the step, and the step reports whether a
    request was sent at all and with which prompt. A `Session` replays a
    sequence of user events from the initial state.
 */
module ImageGenerator {
  import opened Wrappers
  import PromptHistory

  /** Prefix turning the service's base64 payload into an image URL. */
  const DataUrlPrefix: string := "data:image/png;base64,"

  /** The component's state: the text typed in the input field, the image
      shown, whether a request is in flight, and the prompt history. */
  datatype State = State(prompt: string, imageUrl: string, loading: bool, history: seq<string>)

  /** One element of the reply's `artifacts` array; `base64` is `None` when
      the field is missing or null. */
  datatype Artifact = Artifact(base64: Option<string>)

  /** What the request produced: a decoded JSON body, whose `artifacts` field
      may be missing, or an exception (network error, unreadable body). */
  datatype Reply = Body(artifacts: Option<seq<Artifact>>) | Thrown

  /** How a step ended. */
  datatype Outcome = Rejected | Generated | Failed

  /** A step's result: how it ended, the prompt sent to the image service
      (`None` when nothing was sent), and the state afterwards. */
  datatype Step = Step(outcome: Outcome, request: Option<string>, state: State)

  /** The state when the page opens; `defaultImage` is the bundled picture. */
  function Initial(defaultImage: string): (s: State)
    ensures WellFormed(s) && !s.loading && s.imageUrl == defaultImage
    ensures s.history == [] && s.prompt == ""
  {
    State("", defaultImage, false, [])
  }

  /** What the state keeps at every step: a short, duplicate-free history of
      prompts that were actually sent, so none of them is empty. */
  predicate WellFormed(s: State) {
    && |s.history| <= PromptHistory.Capacity
    && PromptHistory.NoDuplicates(s.history)
    && forall i :: 0 <= i < |s.history| ==> s.history[i] != ""
  }

  /** The prompt a call works on: the argument when it is a non-empty string,
      otherwise the typed text (`p || prompt`, where `null` and `""` are
      both falsy). */
  function EffectivePrompt(arg: Option<string>, typed: string): (p: string)
    ensures arg.Some? && arg.value != "" ==> p == arg.value
    ensures (arg.None? || arg.value == "") ==> p == typed
    ensures p == "" <==> (arg.None? || arg.value == "") && typed == ""
  {
    match arg
    case Some(a) => if a != "" then a else typed
    case None => typed
  }

  /** The image payload of a reply, if it has a usable one. An empty
      `artifacts` array is truthy in JavaScript, so the handler reads
      `artifacts[0].base64` on it, throws, and lands in its `catch`: that
      is a failure as well. */
  function Payload(reply: Reply): (r: Option<string>)
    ensures r.Some? ==> r.value != ""
    ensures r.Some? <==>
              && reply.Body?
              && reply.artifacts.Some?
              && |reply.artifacts.value| > 0
              && reply.artifacts.value[0].base64.Some?
              && reply.artifacts.value[0].base64.value != ""
    ensures r.Some? ==> r == reply.artifacts.value[0].base64
  {
    match reply
    case Thrown => None
    case Body(None) => None
    case Body(Some(artifacts)) =>
      if |artifacts| == 0 then None
      else match artifacts[0].base64
        case None => None
        case Some(b) => if b == "" then None else Some(b)
  }

  /** Sets the in-flight flag before the request goes out. */
  function Begin(s: State): (r: State)
    ensures r.loading
    ensures r.(loading := s.loading) == s
  {
    s.(loading := true)
  }

  /** Applies the reply of the request for prompt `p` and clears the
      in-flight flag. */
  function Complete(s: State, p: string, reply: Reply): (r: (Outcome, State))
    ensures !r.1.loading && r.1.prompt == s.prompt
    ensures r.0 != Rejected
    ensures r.0 == Generated <==> Payload(reply).Some?
    ensures r.0 == Generated ==>
              && r.1.imageUrl == DataUrlPrefix + Payload(reply).value
              && r.1.history == PromptHistory.Record(s.history, p)
    ensures r.0 == Failed ==> r.1.imageUrl == s.imageUrl && r.1.history == s.history
  {
    match Payload(reply)
    case Some(b) =>
      (Generated, s.(imageUrl := DataUrlPrefix + b, history := PromptHistory.Record(s.history, p), loading := false))
    case None =>
      (Failed, s.(loading := false))
  }

  /** One call of the handler with argument `arg` (`None` for the Generate
      button, a history entry for a history button), given the reply the
      service would send. */
  function Generate(s: State, arg: Option<string>, reply: Reply): (r: Step)
    ensures r.outcome == Rejected <==> (arg.None? || arg.value == "") && s.prompt == ""
    ensures r.outcome == Rejected ==> r.request.None? && r.state == s
    ensures r.outcome != Rejected ==>
              && r.request == Some(EffectivePrompt(arg, s.prompt))
              && !r.state.loading
              && r.state.prompt == s.prompt
    ensures r.outcome == Generated <==> r.outcome != Rejected && Payload(reply).Some?
    ensures r.outcome == Generated ==>
              && r.state.imageUrl == DataUrlPrefix + Payload(reply).value
              && r.state.history == PromptHistory.Record(s.history, r.request.value)
    ensures r.outcome == Failed ==> r.state.imageUrl == s.imageUrl && r.state.history == s.history
  {
    var p := EffectivePrompt(arg, s.prompt);
    if p == "" then
      Step(Rejected, None, s)
    else
      var done := Complete(Begin(s), p, reply);
      Step(done.0, Some(p), done.1)
  }

  /** Every step keeps the state well formed. */
  lemma GeneratePreservesWellFormed(s: State, arg: Option<string>, reply: Reply)
    requires WellFormed(s)
    ensures WellFormed(Generate(s, arg, reply).state)
  {
    var r := Generate(s, arg, reply);
    if r.outcome == Generated {
      var h := r.state.history;
      forall i | 0 <= i < |h|
        ensures h[i] != ""
      {
        assert h[i] in h;
      }
    }
  }

  /** A history button always sends its own prompt: entries are never empty,
      so the call is never rejected, whatever was typed. */
  lemma HistoryButtonSendsEntry(s: State, i: nat, reply: Reply)
    requires WellFormed(s) && i < |s.history|
    ensures Generate(s, Some(s.history[i]), reply).outcome != Rejected
    ensures Generate(s, Some(s.history[i]), reply).request == Some(s.history[i])
  {
  }

  /** Re-generating from a history button on success only reorders the
      history: the same prompts, the chosen one in front. */
  lemma HistoryButtonReorders(s: State, i: nat, reply: Reply)
    requires WellFormed(s) && i < |s.history|
    requires Payload(reply).Some?
    ensures var h := Generate(s, Some(s.history[i]), reply).state.history;
      && |h| == |s.history|
      && h[0] == s.history[i]
      && forall x :: x in h <==> x in s.history
  {
  }

  /** A user action: typing into the input field, pressing Generate, or
      pressing a history button; the last two carry the reply the service
      sends for the request they cause. */
  datatype Event = Type(text: string) | Submit(reply: Reply) | Reuse(entry: string, reply: Reply)

  /** The argument a button passes to the handler: nothing for Generate
      (`generateImage()`), the entry for a history button (`generateImage(h)`). */
  function ButtonArgument(e: Event): Option<string>
  {
    match e
    case Reuse(entry, _) => Some(entry)
    case _ => None
  }

  /** The state after one event, and the prompt whose generation succeeded
      during it, if any. */
  function Handle(s: State, e: Event): (r: (State, Option<string>))
    ensures e.Type? ==> r.0 == s.(prompt := e.text) && r.1.None?
    ensures !e.Type? ==> r.0 == Generate(s, ButtonArgument(e), e.reply).state
    ensures !e.Type? ==> r.0.prompt == s.prompt
    ensures r.1.Some? <==>
              !e.Type? && EffectivePrompt(ButtonArgument(e), s.prompt) != "" && Payload(e.reply).Some?
    ensures r.1.Some? ==> r.1.value == EffectivePrompt(ButtonArgument(e), s.prompt)
    ensures r.1.Some? ==> r.0.history == PromptHistory.Record(s.history, r.1.value)
    ensures r.1.None? ==> r.0.history == s.history
  {
    match e
    case Type(text) => (s.(prompt := text), None)
    case Submit(reply) =>
      var step := Generate(s, None, reply);
      (step.state, if step.outcome == Generated then step.request else None)
    case Reuse(entry, reply) =>
      var step := Generate(s, Some(entry), reply);
      (step.state, if step.outcome == Generated then step.request else None)
  }

  /** No event breaks well-formedness: typing leaves the history alone and a
      button press is one step of the handler. */
  lemma HandlePreservesWellFormed(s: State, e: Event)
    ensures WellFormed(s) ==> WellFormed(Handle(s, e).0)
  {
    if WellFormed(s) && !e.Type? {
      GeneratePreservesWellFormed(s, ButtonArgument(e), e.reply);
    }
  }

  /** The user only typed: no button was pressed. */
  predicate OnlyTyping(events: seq<Event>) {
    forall i :: 0 <= i < |events| ==> events[i].Type?
  }

  /** Every prompt of a log was sent, so none is empty. */
  predicate AllSent(log: seq<string>) {
    forall i :: 0 <= i < |log| ==> log[i] != ""
  }

  /** A history-button press with a non-empty entry whose reply carried an
      image: its entry is always generated. */
  predicate SuccessfulReuse(e: Event) {
    e.Reuse? && e.entry != "" && Payload(e.reply).Some?
  }

  /** Every successful history-button press left its entry in `log`. */
  predicate LogsReusedEntries(events: seq<Event>, log: seq<string>) {
    forall e :: e in events && SuccessfulReuse(e) ==> e.entry in log
  }

  /** Replays `events` from `s`; returns the final state and the log of the
      prompts `Handle` reported as generated, in order. Only button presses
      can add to the log, every logged prompt was sent and so is non-empty,
      the state stays well formed, and a session that starts idle ends idle. */
  function Session(s: State, events: seq<Event>): (r: (State, seq<string>))
    ensures |r.1| <= |events|
    ensures OnlyTyping(events) ==> r.1 == []
    ensures AllSent(r.1)
    ensures LogsReusedEntries(events, r.1)
    ensures WellFormed(s) ==> WellFormed(r.0)
    ensures !s.loading ==> !r.0.loading
    decreases |events|
  {
    if events == [] then (s, [])
    else
      var (mid, log) := Session(s, events[..|events| - 1]);
      HandlePreservesWellFormed(mid, events[|events| - 1]);
      var (last, generated) := Handle(mid, events[|events| - 1]);
      var log' := match generated case Some(p) => log + [p] case None => log;
      assert events[..|events| - 1] + [events[|events| - 1]] == events;
      (last, log')
  }

  /** The history a session builds is the history of its successful prompts. */
  lemma {:induction false} SessionHistory(defaultImage: string, events: seq<Event>)
    ensures var (s, log) := Session(Initial(defaultImage), events);
      s.history == PromptHistory.HistoryAfter(log)
    decreases |events|
  {
    if events != [] {
      SessionHistory(defaultImage, events[..|events| - 1]);
      var (mid, log) := Session(Initial(defaultImage), events[..|events| - 1]);
      var (last, generated) := Handle(mid, events[|events| - 1]);
      if generated.Some? {
        var log' := log + [generated.value];
        assert log'[..|log'| - 1] == log;
      }
    }
  }

  /** After any session the history shows the three most recently generated
      distinct prompts, newest first. */
  lemma SessionShowsRecentPrompts(defaultImage: string, events: seq<Event>)
    ensures var (s, log) := Session(Initial(defaultImage), events);
      s.history == PromptHistory.Take(PromptHistory.Recent(log), PromptHistory.Capacity)
  {
    SessionHistory(defaultImage, events);
    PromptHistory.HistoryIsRecent(Session(Initial(defaultImage), events).1);
  }
}
