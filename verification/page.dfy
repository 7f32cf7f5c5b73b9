/** The page that embeds the panel in a host client: it turns messages
    from the host into the seeded question and the reply destination, and
    sends a text rendering of each answer back to that destination. */
module Page {
  import opened Js
  import opened Actions
  import opened NostrEvents
  import opened QaPanel

  const NostrEventKind := "nostr-event"
  const UserMetadataKind := "user-metadata"

  /** The parts of a host message the listener reads: `kind`,
      `data.event.content` and `data.host_origin`, each possibly missing. */
  datatype HostEvent = HostEvent(content: Option<string>)
  datatype HostData = HostData(event: Option<HostEvent>, hostOrigin: Option<string>)
  datatype HostMessage = HostMessage(kind: string, data: Option<HostData>)

  /** The page's two pieces of state. */
  datatype PageState = PageState(initialQuestion: Option<string>, hostOrigin: Option<string>)

  /** `event.data?.event?.content` */
  function EventContent(m: HostMessage): Option<string> {
    if m.data.Some? && m.data.value.event.Some? then m.data.value.event.value.content else None
  }

  /** `event.data?.host_origin` */
  function MessageOrigin(m: HostMessage): Option<string> {
    if m.data.Some? then m.data.value.hostOrigin else None
  }

  predicate SeedsQuestion(m: HostMessage) {
    m.kind == NostrEventKind && Truthy(EventContent(m))
  }

  predicate SetsOrigin(m: HostMessage) {
    m.kind == UserMetadataKind && Truthy(MessageOrigin(m))
  }

  /** The listener: a `nostr-event` with non-empty content seeds the question,
      a `user-metadata` with a non-empty `host_origin` sets the destination,
      and nothing else changes anything. */
  function Dispatch(s: PageState, m: HostMessage): (s': PageState)
    ensures m.kind != NostrEventKind && m.kind != UserMetadataKind ==> s' == s
    ensures SeedsQuestion(m) ==> s'.initialQuestion == EventContent(m) && Truthy(s'.initialQuestion)
    ensures !SeedsQuestion(m) ==> s'.initialQuestion == s.initialQuestion
    ensures SetsOrigin(m) ==> s'.hostOrigin == MessageOrigin(m) && Truthy(s'.hostOrigin)
    ensures !SetsOrigin(m) ==> s'.hostOrigin == s.hostOrigin
  {
    var s1 := if SeedsQuestion(m) then s.(initialQuestion := EventContent(m)) else s;
    if SetsOrigin(m) then s1.(hostOrigin := MessageOrigin(m)) else s1
  }

  /** The state after the listener has seen the messages in order. */
  function DispatchAll(s: PageState, ms: seq<HostMessage>): PageState
    decreases |ms|
  {
    if ms == [] then s else Dispatch(DispatchAll(s, ms[..|ms| - 1]), ms[|ms| - 1])
  }

  ghost predicate IsLastSeed(ms: seq<HostMessage>, j: int) {
    0 <= j < |ms| && SeedsQuestion(ms[j]) && forall k :: j < k < |ms| ==> !SeedsQuestion(ms[k])
  }

  ghost predicate IsLastOrigin(ms: seq<HostMessage>, j: int) {
    0 <= j < |ms| && SetsOrigin(ms[j]) && forall k :: j < k < |ms| ==> !SetsOrigin(ms[k])
  }

  /** After any run of host messages, the seeded question is the content of
      the latest seeding message, or unchanged when no message seeds one. */
  lemma {:induction false} LatestSeedWins(s: PageState, ms: seq<HostMessage>)
    ensures (forall j :: 0 <= j < |ms| ==> !SeedsQuestion(ms[j])) ==>
              DispatchAll(s, ms).initialQuestion == s.initialQuestion
    ensures forall j :: IsLastSeed(ms, j) ==> DispatchAll(s, ms).initialQuestion == EventContent(ms[j])
    decreases |ms|
  {
    if ms != [] {
      var n := |ms| - 1;
      var init := ms[..n];
      LatestSeedWins(s, init);
      assert init + [ms[n]] == ms;
      var prev := DispatchAll(s, init);
      assert DispatchAll(s, ms) == Dispatch(prev, ms[n]);
      if SeedsQuestion(ms[n]) {
        forall j | IsLastSeed(ms, j)
          ensures j == n
        {
        }
      } else {
        forall j | IsLastSeed(ms, j)
          ensures IsLastSeed(init, j) && init[j] == ms[j]
        {
        }
        if forall j :: 0 <= j < |ms| ==> !SeedsQuestion(ms[j]) {
          forall j | 0 <= j < n
            ensures !SeedsQuestion(init[j])
          {
            assert init[j] == ms[j];
          }
        }
      }
    }
  }

  /** After any run of host messages, the destination is the origin of the
      latest origin-setting message, or unchanged when there is none. */
  lemma {:induction false} LatestOriginWins(s: PageState, ms: seq<HostMessage>)
    ensures (forall j :: 0 <= j < |ms| ==> !SetsOrigin(ms[j])) ==>
              DispatchAll(s, ms).hostOrigin == s.hostOrigin
    ensures forall j :: IsLastOrigin(ms, j) ==> DispatchAll(s, ms).hostOrigin == MessageOrigin(ms[j])
    decreases |ms|
  {
    if ms != [] {
      var n := |ms| - 1;
      var init := ms[..n];
      LatestOriginWins(s, init);
      assert init + [ms[n]] == ms;
      var prev := DispatchAll(s, init);
      assert DispatchAll(s, ms) == Dispatch(prev, ms[n]);
      if SetsOrigin(ms[n]) {
        forall j | IsLastOrigin(ms, j)
          ensures j == n
        {
        }
      } else {
        forall j | IsLastOrigin(ms, j)
          ensures IsLastOrigin(init, j) && init[j] == ms[j]
        {
        }
        if forall j :: 0 <= j < |ms| ==> !SetsOrigin(ms[j]) {
          forall j | 0 <= j < n
            ensures !SetsOrigin(init[j])
          {
            assert init[j] == ms[j];
          }
        }
      }
    }
  }

  /** The text sent back to the host: the answer, then the snippet in a
      fence when there is one. */
  function HostContext(r: Response): (context: string)
    ensures StartsWith(context, r.answer)
    ensures |context| == |r.answer| + (if Truthy(r.codeSnippet) then |CodeFence(r.codeSnippet.value)| else 0)
    ensures Truthy(r.codeSnippet) ==> EndsWith(context, CodeFence(r.codeSnippet.value))
    ensures !Truthy(r.codeSnippet) ==> context == r.answer
  {
    var context := if Truthy(r.codeSnippet) then r.answer + CodeFence(r.codeSnippet.value) else r.answer;
    assert context[..|r.answer|] == r.answer;
    context
  }

  /** The host context never includes the citation: changing it changes nothing. */
  lemma HostContextIgnoresCitation(r: Response, citation: Option<string>)
    ensures HostContext(r) == HostContext(r.(citation := citation))
  {
  }

  /** For a response without a widget, the shared note is the question
      followed by the host context and then the citation line. With a widget
      the note drops the snippet while the host context keeps it. */
  lemma ShareNoteExtendsHostContext(question: string, r: Response)
    ensures r.widgetCode.None? ==>
              ShareContent(question, r)
              == "Q: " + question + "\n\nA: " + HostContext(r)
                 + (if Truthy(r.citation) then CitationLine(r.citation.value) else "")
    ensures r.widgetCode.Some? ==>
              ShareContent(question, r)
              == "Q: " + question + "\n\nA: " + r.answer
                 + (if Truthy(r.citation) then CitationLine(r.citation.value) else "")
  {
  }

  /** A `sendContext(context, destination)` call. */
  datatype ContextMessage = ContextMessage(context: string, destination: string)

  /** `handleResponse`: nothing is sent until a destination is known. */
  function HandleResponse(hostOrigin: Option<string>, r: Response): (sent: Option<ContextMessage>)
    ensures sent.Some? <==> Truthy(hostOrigin)
    ensures sent.Some? ==> sent.value.destination == hostOrigin.value
    ensures sent.Some? ==> sent.value.context == HostContext(r)
  {
    if Truthy(hostOrigin) then Some(ContextMessage(HostContext(r), hostOrigin.value)) else None
  }

  /** A host-seeded question is submitted without the form's length check:
      a non-empty seed shorter than ten characters, which the form refuses,
      still reaches the generator unchanged. */
  lemma ShortSeedSkipsFormCheck(s: PageState, content: string, generate: QARequest -> GenOutcome)
    requires 0 < |content| < MinQuestionLength
    ensures var s' := Dispatch(s, HostMessage(NostrEventKind, Some(HostData(Some(HostEvent(Some(content))), None))));
            && s'.initialQuestion == Some(content)
            && CheckQuestion(content).Rejected?
            && (s.initialQuestion != Some(content) ==> AutoSubmitQuestion(s.initialQuestion, s'.initialQuestion) == Some(content))
            && AskQuestion(content, generate).calls == [QARequest(content, ApiDocs)]
  {
  }

  /** What one host message makes the panel submit: a seeding message whose
      content differs from the current seed submits that content; a repeat
      of the current seed, and any message that does not seed, submits
      nothing. */
  lemma SeedSubmittedIffNew(s: PageState, m: HostMessage)
    ensures SeedsQuestion(m) && s.initialQuestion != EventContent(m) ==>
              AutoSubmitQuestion(s.initialQuestion, Dispatch(s, m).initialQuestion) == EventContent(m)
    ensures !SeedsQuestion(m) || s.initialQuestion == EventContent(m) ==>
              AutoSubmitQuestion(s.initialQuestion, Dispatch(s, m).initialQuestion) == None
  {
  }

  /** Through the action, the panel never holds a widget or a snippet: the
      host gets the bare answer, and publishing a widget does nothing. */
  lemma ActionAnswersReachHostBare(
    question: string,
    generate: QARequest -> GenOutcome,
    hostOrigin: string,
    signer: Option<EventTemplate -> SignOutcome>,
    encode: string -> string,
    publish: (seq<string>, SignedEvent) -> seq<Relays.Reply>,
    nowMs: int)
    requires hostOrigin != ""
    ensures var st := OnSubmit(AskQuestion(question, generate).result, true);
            forall r :: r in st.notified ==>
              HandleResponse(Some(hostOrigin), r) == Some(ContextMessage(r.answer, hostOrigin))
    ensures var st := OnSubmit(AskQuestion(question, generate).result, true);
            PublishWidget(st.response, signer, encode, publish, nowMs) == NoEffects
  {
  }

}
