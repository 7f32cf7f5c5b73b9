/** The server action `askQuestionAction`: it guards against an empty
    question, makes one call to the documentation Q&A generator and folds
    the outcome into one of four result shapes. */
module Actions {
  import opened Js

  const EmptyQuestionError := "Question cannot be empty."
  const UnexpectedError := "An unexpected error occurred. Please try again."
  /** The text the generation library puts in its error when the model declines. */
  const RefusalMarker := "The model refused to respond to the prompt"
  const RefusalAnswer := "I am unable to answer this question based on the provided documentation. Please try rephrasing your question or ask about a different topic."
  const NoCitation := "No citation available."

  /** The API documentation handed to the generator. Its text is opaque here:
      the action passes it through verbatim and never inspects it. */
  const ApiDocs: string

  /** The generator's input: the question and the documentation. */
  datatype QARequest = QARequest(question: string, documentation: string)

  /** The generator's output schema: an answer and an optional citation. */
  datatype QAOutput = QAOutput(answer: string, citation: Option<string>)

  /** One generator call either returns an output or throws. */
  datatype GenOutcome = Answered(output: QAOutput) | Threw(error: Exception)

  /** The object the action returns; `error` is absent on success. */
  datatype ActionResult = ActionResult(answer: string, citation: Option<string>, error: Option<string>)

  /** The action's result together with the generator calls it made. */
  datatype AskRun = AskRun(result: ActionResult, calls: seq<QARequest>)

  /** The generator's message signals that the model declined to answer. */
  predicate IsRefusal(e: Exception) {
    e.message.Some? && Includes(e.message.value, RefusalMarker)
  }

  /** Shape of every error result: a non-empty message and empty fields. */
  predicate IsErrorShape(r: ActionResult) {
    r.error.Some? && r.error.value != "" && r.answer == "" && r.citation == Some("")
  }

  /** `askQuestionAction(question)` with the generator `answerQuestionFromDocs`
      given as `generate`. */
  function AskQuestion(question: string, generate: QARequest -> GenOutcome): (run: AskRun)
    ensures |run.calls| <= 1
    ensures run.calls == [] <==> question == ""
    ensures forall c :: c in run.calls ==> c == QARequest(question, ApiDocs)
    ensures run.result.error.Some? ==> IsErrorShape(run.result)
  {
    if question == "" then
      AskRun(ActionResult("", Some(""), Some(EmptyQuestionError)), [])
    else
      var request := QARequest(question, ApiDocs);
      var result :=
        match generate(request)
        case Answered(out) =>
          ActionResult(out.answer, out.citation, None)
        case Threw(e) =>
          if IsRefusal(e) then ActionResult(RefusalAnswer, Some(NoCitation), None)
          else ActionResult("", Some(""), Some(OrElse(e.message, UnexpectedError)));
      AskRun(result, [request])
  }

  /** An empty question is rejected with the fixed message, before any call. */
  lemma EmptyQuestionRejected(generate: QARequest -> GenOutcome)
    ensures AskQuestion("", generate)
         == AskRun(ActionResult("", Some(""), Some(EmptyQuestionError)), [])
  {
  }

  /** The guard is only `!question`: any non-empty question, however short or
      blank, reaches the generator exactly once with the question unchanged. */
  lemma NonEmptyQuestionCallsGeneratorOnce(question: string, generate: QARequest -> GenOutcome)
    requires question != ""
    ensures AskQuestion(question, generate).calls == [QARequest(question, ApiDocs)]
  {
  }

  /** A generator success is passed through unchanged and carries no error. */
  lemma SuccessPassesThrough(question: string, generate: QARequest -> GenOutcome)
    requires question != ""
    requires generate(QARequest(question, ApiDocs)).Answered?
    ensures (var out := generate(QARequest(question, ApiDocs)).output;
             AskQuestion(question, generate).result == ActionResult(out.answer, out.citation, None))
  {
  }

  /** A refusal becomes the fixed apology with the fixed citation, and no error. */
  lemma RefusalBecomesApology(question: string, generate: QARequest -> GenOutcome)
    requires question != ""
    requires (var g := generate(QARequest(question, ApiDocs));
              g.Threw? && g.error.message.Some?
              && exists i :: OccursAt(g.error.message.value, RefusalMarker, i))
    ensures AskQuestion(question, generate).result
         == ActionResult(RefusalAnswer, Some(NoCitation), None)
  {
    var m := generate(QARequest(question, ApiDocs)).error.message.value;
    IncludesIffOccurs(m, RefusalMarker);
  }

  /** Any other exception yields its message, or the fallback when the
      message is missing or empty, with empty answer and citation. */
  lemma OtherErrorReported(question: string, generate: QARequest -> GenOutcome)
    requires question != ""
    requires (var g := generate(QARequest(question, ApiDocs));
              g.Threw? && !(g.error.message.Some?
                            && exists i :: OccursAt(g.error.message.value, RefusalMarker, i)))
    ensures (var e := generate(QARequest(question, ApiDocs)).error;
             var r := AskQuestion(question, generate).result;
             && r.answer == "" && r.citation == Some("")
             && (e.message.Some? && e.message.value != "" ==> r.error == e.message)
             && (e.message.None? || e.message == Some("") ==> r.error == Some(UnexpectedError)))
  {
    var e := generate(QARequest(question, ApiDocs)).error;
    if e.message.Some? {
      IncludesIffOccurs(e.message.value, RefusalMarker);
    }
  }

  /** The result carries an error exactly when the question was empty or the
      generator threw something other than a refusal. */
  lemma ErrorIffRejectedOrFailed(question: string, generate: QARequest -> GenOutcome)
    ensures (var g := generate(QARequest(question, ApiDocs));
             AskQuestion(question, generate).result.error.Some?
             <==> question == "" || (g.Threw? && !IsRefusal(g.error)))
  {
  }

}
