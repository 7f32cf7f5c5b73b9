/** The question panel's decision rules: the form's length check, the
    submit handler's treatment of the action's result, and the two Nostr
    handlers (share an answer as a text note, publish a generated widget),
    each from its guards through signing and the relay race to the toast
    the user sees. React state, transitions and rendering are not modelled;
    a handler's observable effects are collected in a record instead. */
module QaPanel {
  import opened Js
  import opened Actions
  import opened Relays
  import opened NostrEvents

  const MinQuestionLength := 10
  const TooShortMessage := "Question must be at least 10 characters."
  const UnknownError := "An unknown error occurred."
  const NoRelayError := "Failed to publish to any relay."
  /** The message V8 gives the `AggregateError` that `Promise.any` rejects
      with; other engines word it differently. */
  const AggregateMessage := "All promises were rejected"

  /** The response the panel holds. Results of the server action never carry
      `codeSnippet` or `widgetCode`, but the handlers read both. */
  datatype Response = Response(
    answer: string,
    codeSnippet: Option<string>,
    citation: Option<string>,
    widgetCode: Option<WidgetCode>)

  datatype Toast = Toast(destructive: bool, title: string, description: string)

  const MissingExtensionToast :=
    Toast(true, "Nostr extension not found", "Please install a Nostr browser extension like Alby or nos2x.")
  const ShareSuccessToast := Toast(false, "Successfully shared on Nostr!", "Your Q&A has been published.")

  /** The form's verdict on a question. */
  datatype FormCheck = Accepted(question: string) | Rejected(message: string)

  /** The form schema: a question of fewer than 10 characters is refused. */
  function CheckQuestion(question: string): (c: FormCheck)
    ensures c.Accepted? <==> |question| >= MinQuestionLength
    ensures c.Accepted? ==> c.question == question
    ensures c.Rejected? ==> c.message == TooShortMessage
  {
    if |question| >= MinQuestionLength then Accepted(question) else Rejected(TooShortMessage)
  }

  /** The action's result object as the panel sees it. */
  function FromActionResult(r: ActionResult): Response {
    Response(r.answer, None, r.citation, None)
  }

  /** The panel state `onSubmit` leaves behind. `notified` lists the calls
      made to the `onApiResponse` callback. */
  datatype SubmitState = SubmitState(response: Option<Response>, notified: seq<Response>, toast: Option<Toast>)

  /** `onSubmit`'s handling of the action's result; `listening` says whether
      an `onApiResponse` callback was supplied. */
  function OnSubmit(result: ActionResult, listening: bool): (s: SubmitState)
    ensures Truthy(result.error) <==> s.response.None?
    ensures Truthy(result.error) ==>
              s.notified == [] && s.toast == Some(Toast(true, "An error occurred", result.error.value))
    ensures s.response.Some? ==>
              s.response.value.answer == result.answer && s.response.value.citation == result.citation
              && s.response.value.codeSnippet.None? && s.response.value.widgetCode.None?
              && s.toast.None?
              && s.notified == (if listening then [s.response.value] else [])
  {
    if Truthy(result.error) then
      SubmitState(None, [], Some(Toast(true, "An error occurred", result.error.value)))
    else
      var response := FromActionResult(result);
      SubmitState(Some(response), if listening then [response] else [], None)
  }

  /** Submitting a question end to end: the callback hears of the result at
      most once, and exactly when the action returned no error. */
  lemma SubmitNotifiesIffNoError(question: string, generate: QARequest -> GenOutcome)
    ensures var result := AskQuestion(question, generate).result;
            |OnSubmit(result, true).notified| == (if result.error.None? then 1 else 0)
  {
  }

  /** The empty question never reaches the callback and clears the response. */
  lemma EmptySubmitClearsResponse(generate: QARequest -> GenOutcome)
    ensures var s := OnSubmit(AskQuestion("", generate).result, true);
            s.response.None? && s.notified == []
            && s.toast == Some(Toast(true, "An error occurred", EmptyQuestionError))
  {
  }

  /** The auto-submit effect. It depends on `[initialQuestion]`, so it runs
      only when the value differs from the one it last ran with (`previous`;
      the page starts with none). A truthy new value is then submitted as is.
      It goes straight to `onSubmit`, so the form's length check is skipped. */
  function AutoSubmitQuestion(previous: Option<string>, initialQuestion: Option<string>): (q: Option<string>)
    ensures q.Some? <==> Truthy(initialQuestion) && initialQuestion != previous
    ensures q.Some? ==> q == initialQuestion
  {
    if initialQuestion == previous then None
    else if Truthy(initialQuestion) then initialQuestion
    else None
  }

  /** The fenced block added for a code snippet. */
  function CodeFence(code: string): string {
    "\n\n```\n" + code + "\n```"
  }

  /** The line added for a citation. */
  function CitationLine(citation: string): string {
    "\n\nCitation: " + citation
  }

  /** The opening of every shared note. */
  function QaHeader(question: string, answer: string): string {
    "Q: " + question + "\n\nA: " + answer
  }

  /** The text note's content: question and answer, the snippet in a fence
      only when there is no widget, then the citation when there is one. */
  function ShareContent(question: string, r: Response): (content: string)
    ensures StartsWith(content, QaHeader(question, r.answer))
    ensures |content| == |QaHeader(question, r.answer)|
                         + (if Truthy(r.codeSnippet) && r.widgetCode.None? then |CodeFence(r.codeSnippet.value)| else 0)
                         + (if Truthy(r.citation) then |CitationLine(r.citation.value)| else 0)
    ensures Truthy(r.citation) ==> EndsWith(content, CitationLine(r.citation.value))
    ensures !Truthy(r.citation) && Truthy(r.codeSnippet) && r.widgetCode.None? ==>
              EndsWith(content, CodeFence(r.codeSnippet.value))
  {
    var withCode :=
      if Truthy(r.codeSnippet) && r.widgetCode.None? then QaHeader(question, r.answer) + CodeFence(r.codeSnippet.value)
      else QaHeader(question, r.answer);
    var content := if Truthy(r.citation) then withCode + CitationLine(r.citation.value) else withCode;
    assert content[..|QaHeader(question, r.answer)|] == QaHeader(question, r.answer);
    content
  }

  /** A signer's answer to `signEvent`. */
  datatype SignOutcome = Signed(event: SignedEvent) | SignThrew(error: Exception)

  /** One `pool.publish` to a relay list. */
  datatype Publication = Publication(relays: seq<string>, event: SignedEvent)

  /** What a publishing handler did: the templates it asked to have signed,
      the publications it made, and the toast it showed. */
  datatype Effects = Effects(signRequests: seq<EventTemplate>, publications: seq<Publication>, toast: Option<Toast>)

  const NoEffects := Effects([], [], None)

  /** Sign a template, publish it to the relay set and race for the first
      acknowledgement; the error (if any) is what the handler's catch sees. */
  datatype Attempt = Attempt(signRequests: seq<EventTemplate>, publications: seq<Publication>, error: Option<Exception>)

  function SignAndPublish(
    template: EventTemplate,
    sign: EventTemplate -> SignOutcome,
    publish: (seq<string>, SignedEvent) -> seq<Reply>): (a: Attempt)
    ensures a.signRequests == [template]
    ensures a.publications == [] <==> sign(template).SignThrew?
    ensures a.publications != [] ==> a.publications == [Publication(RelayUrls, sign(template).event)]
    ensures sign(template).SignThrew? ==> a.error == Some(sign(template).error)
    ensures a.error.None? <==>
              sign(template).Signed?
              && exists i :: 0 <= i < |publish(RelayUrls, sign(template).event)|
                             && publish(RelayUrls, sign(template).event)[i].Ack?
    ensures a.error.Some? && sign(template).Signed? ==>
              a.error.value.AggregateError? && a.error.value.message == Some(AggregateMessage)
              && |a.error.value.errors| == |RelayUrls|
    ensures a.error.Some? && sign(template).Signed?
            && OneReplyPerRelay(RelayUrls, publish(RelayUrls, sign(template).event)) ==>
              forall j :: 0 <= j < |RelayUrls| ==>
                Failed(RelayUrls[j], a.error.value.errors[j]) in publish(RelayUrls, sign(template).event)
  {
    match sign(template)
    case SignThrew(e) => Attempt([template], [], Some(e))
    case Signed(event) =>
      var published := [Publication(RelayUrls, event)];
      match Race(RelayUrls, publish(RelayUrls, event))
      case Acknowledged(_) => Attempt([template], published, None)
      case AllFailed(reasons) =>
        Attempt([template], published, Some(AggregateError(Some(AggregateMessage), reasons)))
  }

  /** The share handler's description of a failure. */
  function ShareErrorMessage(e: Exception): string {
    if e.AggregateError? then NoRelayError else OrElse(e.message, UnknownError)
  }

  /** The widget handler's description of a failure: it has no
      `AggregateError` case. */
  function WidgetErrorMessage(e: Exception): string {
    OrElse(e.message, UnknownError)
  }

  /** `handleShareOnNostr`. `signer` is `window.nostr`'s `signEvent` when the
      extension is present; `publish` gives each relay's reply in arrival
      order; `question` is the form's current value. */
  function ShareOnNostr(
    response: Option<Response>,
    question: string,
    signer: Option<EventTemplate -> SignOutcome>,
    publish: (seq<string>, SignedEvent) -> seq<Reply>,
    nowMs: int): (fx: Effects)
    ensures response.None? ==> fx == NoEffects
    ensures response.Some? && signer.None? ==> fx == Effects([], [], Some(MissingExtensionToast))
    ensures fx.signRequests != [] ==> fx.signRequests == [TextNote(ShareContent(question, response.value), nowMs)]
    ensures forall p :: p in fx.publications ==> p.relays == RelayUrls
    ensures fx.publications != [] ==> fx.signRequests != []
    ensures response.Some? && signer.Some? ==>
              (var t := TextNote(ShareContent(question, response.value), nowMs);
               fx.signRequests == [t]
               && fx.publications == (if signer.value(t).Signed? then [Publication(RelayUrls, signer.value(t).event)] else []))
  {
    if response.None? then NoEffects
    else if signer.None? then Effects([], [], Some(MissingExtensionToast))
    else
      var a := SignAndPublish(TextNote(ShareContent(question, response.value), nowMs), signer.value, publish);
      var toast :=
        if a.error.None? then ShareSuccessToast
        else Toast(true, "Failed to share on Nostr", ShareErrorMessage(a.error.value));
      Effects(a.signRequests, a.publications, Some(toast))
  }

  /** Sharing reports success exactly when there is a response, a signer that
      signs the note, and at least one relay that acknowledges it. */
  lemma ShareSucceedsIffSomeRelayAcks(
    response: Option<Response>,
    question: string,
    signer: Option<EventTemplate -> SignOutcome>,
    publish: (seq<string>, SignedEvent) -> seq<Reply>,
    nowMs: int)
    ensures ShareOnNostr(response, question, signer, publish, nowMs).toast == Some(ShareSuccessToast)
            <==> response.Some? && signer.Some?
                 && (var t := TextNote(ShareContent(question, response.value), nowMs);
                     signer.value(t).Signed?
                     && exists i :: 0 <= i < |publish(RelayUrls, signer.value(t).event)|
                                    && publish(RelayUrls, signer.value(t).event)[i].Ack?)
  {
  }

  /** When every relay fails (each of the relay set replying once), sharing
      says so with the fixed message. */
  lemma ShareAllRelaysFailed(
    response: Response,
    question: string,
    sign: EventTemplate -> SignOutcome,
    publish: (seq<string>, SignedEvent) -> seq<Reply>,
    nowMs: int)
    requires var t := TextNote(ShareContent(question, response), nowMs);
             sign(t).Signed?
             && OneReplyPerRelay(RelayUrls, publish(RelayUrls, sign(t).event))
             && forall i :: 0 <= i < |publish(RelayUrls, sign(t).event)| ==> publish(RelayUrls, sign(t).event)[i].Failed?
    ensures ShareOnNostr(Some(response), question, Some(sign), publish, nowMs).toast
         == Some(Toast(true, "Failed to share on Nostr", NoRelayError))
  {
  }

  /** A signer failure is reported with its message, or the fallback, and
      nothing is published. */
  lemma ShareSignFailure(
    response: Response,
    question: string,
    sign: EventTemplate -> SignOutcome,
    publish: (seq<string>, SignedEvent) -> seq<Reply>,
    nowMs: int)
    requires var t := TextNote(ShareContent(question, response), nowMs);
             sign(t).SignThrew? && sign(t).error.Error?
    ensures var fx := ShareOnNostr(Some(response), question, Some(sign), publish, nowMs);
            var e := sign(TextNote(ShareContent(question, response), nowMs)).error;
            fx.publications == []
            && fx.toast == Some(Toast(true, "Failed to share on Nostr",
                                      if Truthy(e.message) then e.message.value else UnknownError))
  {
  }

  const WidgetFailureTitle := "Failed to publish widget"

  /** `handlePublishWidget`; `encode` stands for `encodeURIComponent`. */
  function PublishWidget(
    response: Option<Response>,
    signer: Option<EventTemplate -> SignOutcome>,
    encode: string -> string,
    publish: (seq<string>, SignedEvent) -> seq<Reply>,
    nowMs: int): (fx: Effects)
    ensures response.None? || response.value.widgetCode.None? ==> fx == NoEffects
    ensures response.Some? && response.value.widgetCode.Some? && signer.None? ==>
              fx == Effects([], [], Some(MissingExtensionToast))
    ensures fx.signRequests != [] ==>
              fx.signRequests == [WidgetEvent(response.value.widgetCode.value, encode, nowMs)]
    ensures forall p :: p in fx.publications ==> p.relays == RelayUrls
    ensures response.Some? && response.value.widgetCode.Some? && signer.Some? ==>
              (var t := WidgetEvent(response.value.widgetCode.value, encode, nowMs);
               fx.signRequests == [t]
               && fx.publications == (if signer.value(t).Signed? then [Publication(RelayUrls, signer.value(t).event)] else []))
  {
    if response.None? || response.value.widgetCode.None? then NoEffects
    else if signer.None? then Effects([], [], Some(MissingExtensionToast))
    else
      var w := response.value.widgetCode.value;
      var a := SignAndPublish(WidgetEvent(w, encode, nowMs), signer.value, publish);
      var toast :=
        if a.error.None? then Toast(false, "Widget Published!", w.widgetName + " is now available on Nostr.")
        else Toast(true, WidgetFailureTitle, WidgetErrorMessage(a.error.value));
      Effects(a.signRequests, a.publications, Some(toast))
  }

  /** When every relay fails (each of the relay set replying once), the
      widget handler shows the aggregate error's own message, not the share
      handler's fixed text. */
  lemma WidgetAllRelaysFailed(
    response: Response,
    sign: EventTemplate -> SignOutcome,
    encode: string -> string,
    publish: (seq<string>, SignedEvent) -> seq<Reply>,
    nowMs: int)
    requires response.widgetCode.Some?
    requires var t := WidgetEvent(response.widgetCode.value, encode, nowMs);
             sign(t).Signed?
             && OneReplyPerRelay(RelayUrls, publish(RelayUrls, sign(t).event))
             && forall i :: 0 <= i < |publish(RelayUrls, sign(t).event)| ==> publish(RelayUrls, sign(t).event)[i].Failed?
    ensures PublishWidget(Some(response), Some(sign), encode, publish, nowMs).toast
         == Some(Toast(true, WidgetFailureTitle, AggregateMessage))
  {
  }

  /** A signer failure while publishing a widget is reported with its
      message, or the fallback, and nothing is published. */
  lemma WidgetSignFailure(
    response: Response,
    sign: EventTemplate -> SignOutcome,
    encode: string -> string,
    publish: (seq<string>, SignedEvent) -> seq<Reply>,
    nowMs: int)
    requires response.widgetCode.Some?
    requires var t := WidgetEvent(response.widgetCode.value, encode, nowMs);
             sign(t).SignThrew?
    ensures var fx := PublishWidget(Some(response), Some(sign), encode, publish, nowMs);
            var e := sign(WidgetEvent(response.widgetCode.value, encode, nowMs)).error;
            fx.publications == []
            && fx.toast == Some(Toast(true, WidgetFailureTitle,
                                      if Truthy(e.message) then e.message.value else UnknownError))
  {
  }

  /** Publishing a widget reports success exactly when a relay acknowledges
      the signed widget event. */
  lemma WidgetSucceedsIffSomeRelayAcks(
    response: Response,
    sign: EventTemplate -> SignOutcome,
    encode: string -> string,
    publish: (seq<string>, SignedEvent) -> seq<Reply>,
    nowMs: int)
    requires response.widgetCode.Some?
    ensures var w := response.widgetCode.value;
            var t := WidgetEvent(w, encode, nowMs);
            PublishWidget(Some(response), Some(sign), encode, publish, nowMs).toast
              == Some(Toast(false, "Widget Published!", w.widgetName + " is now available on Nostr."))
            <==> sign(t).Signed?
                 && exists i :: 0 <= i < |publish(RelayUrls, sign(t).event)|
                                && publish(RelayUrls, sign(t).event)[i].Ack?
  {
  }

}
