# YaKiwi question panel: decision rules in Dafny

YaKiwi is a small web app that answers questions about the YakiHonne API.
It can share an answer, or publish a generated "smart widget", as a signed
Nostr event. It can also run embedded in a host client that seeds the
question and receives the answer back. This project models the parts of it
that can be stated exactly, as pure functions over immutable records:

- `Actions`: the server action `askQuestionAction`. It guards against an
  empty question, calls the documentation Q&A generator once, and maps the
  outcome to one of four result shapes: empty-input error, passthrough,
  refusal apology, or other error.
- `QaPanel`: the panel's form rule (at least 10 characters) and `onSubmit`'s
  handling of the action's result, including the `onApiResponse` callback.
  It also models the auto-submit of a seeded question and the two Nostr
  handlers. Each handler runs from its guards through the event template,
  signing and the relay race to the toast the user sees.
- `NostrEvents`: the kind-1 text note and the widget event template (kind,
  `d`/`url`/`image` tags, data-URI prefix, content), with `created_at` as whole
  seconds. It also has a reader that recovers a widget's name, kind and encoded
  HTML from its event.
- `Relays`: the `Promise.any` race over the relay set, modelled by its outcome.
  Replies are listed in arrival order. The first acknowledgement wins, and the
  race fails only when every reply is a failure, with one reason per relay.
- `Page`: the host listener that sets the seeded question and the reply
  destination, and the text context sent back to the host.
- `Js`: JavaScript truthiness of possibly-missing strings, `includes`, and
  thrown values.

The outside world enters as parameters:

- the Q&A generator (a function from request to answer-or-exception);
- the browser signer (absent, or a function from template to signed-or-exception);
- the relay pool (a function giving each relay's reply);
- `encodeURIComponent` (an uninterpreted string function);
- the clock (milliseconds since the epoch).

A handler's observable effects are returned as a record:

- the templates it asked to have signed;
- the publications it made;
- the toast it showed.

The text of a shared note uses the form's current question, which the user
may have edited since the answer arrived. The model takes that question as a
separate input.

The page's help text says the assistant can also generate a ready-to-use
widget from a plain description, which the "Publish Widget" button then
publishes (src/app/page.tsx:79, 91). The server action does not do this:
`askQuestionAction` always calls the documentation Q&A generator, and the
object it returns has no code snippet and no widget. The model follows the
code and proves the consequence. On answers that come through the action,
the publish-widget handler does nothing and the host receives the bare
answer.

`NostrEvents.ReadWidgetEvent` is not part of the app. It is a reference
reader for widget events. It recovers the name, the kind and the encoded HTML
only from an event whose tags are exactly `d`, `url` (with the data-URI
prefix) and `image`, in that order, and whose content is "Widget: " followed
by the name. `NostrEvents.WidgetEventRoundTrip` uses it to pin down the
event that the widget handler builds.

## Model

| member | source | states |
|---|---|---|
| `Js.IncludesIffOccurs` | src/app/actions.ts:68 | the `includes` test used to recognise a refusal holds exactly when the marker occurs at some offset of the message |
| `Actions.AskQuestion` | src/app/actions.ts:53-80 | at most one generator call, none exactly for the empty question, always with the question unchanged and the fixed documentation; every error result has a non-empty message and empty answer and citation |
| `Actions.EmptyQuestionRejected` | src/app/actions.ts:55-57 | the empty question gives error "Question cannot be empty." with empty answer and citation, and makes no generator call |
| `Actions.NonEmptyQuestionCallsGeneratorOnce` | src/app/actions.ts:55-62 | the guard is only `!question`: every non-empty question, even a blank or short one, makes exactly one call with the question and the documentation |
| `Actions.SuccessPassesThrough` | src/app/actions.ts:59-64 | a generator success is returned unchanged with no error field |
| `Actions.RefusalBecomesApology` | src/app/actions.ts:68-73 | an exception whose message contains the refusal marker gives the fixed apology, citation "No citation available." and no error |
| `Actions.OtherErrorReported` | src/app/actions.ts:74-78 | any other exception gives its message as the error when non-empty, else "An unexpected error occurred. Please try again.", with empty answer and citation |
| `Actions.ErrorIffRejectedOrFailed` | src/app/actions.ts:53-80 | the result has an error exactly when the question was empty or the generator threw a non-refusal |
| `Relays.FirstAck` | src/components/qa-panel.tsx:118 | among the replies in arrival order, there is a winner iff some relay acknowledges, and the winner is the earliest acknowledging relay |
| `Relays.FirstAckIgnoresLaterReplies` | src/components/qa-panel.tsx:118 | once a relay has acknowledged, replies arriving later do not change the outcome |
| `Relays.Race` | src/components/qa-panel.tsx:116-118 | the race succeeds iff some relay acknowledges, naming the earliest acknowledging relay. Otherwise it fails with exactly one reason per relay of the list. When each relay replied once, the j-th reason is the one carried by the j-th listed relay's own failure (relay-list order, as in `AggregateError.errors`) |
| `Relays.RaceAsWritten` | src/components/qa-panel.tsx:118 | the code as written rejects only for an empty relay list. Otherwise it resolves exactly when some relay acknowledges (the same relay as the intended race) and never settles when none does |
| `Relays.AllFailingRelaysNeverSettleAsWritten` | src/components/qa-panel.tsx:118 | for a non-empty relay list where each relay replies once and every reply fails, the code as written never settles, while the intended race fails with each relay's own reason |
| `Relays.ThreeFailuresNeverSettleAsWritten` | src/components/qa-panel.tsx:96-118 | concrete case: the three configured relays fail, the last-listed first. The code as written never settles; the intended race lists the reasons in relay order |
| `NostrEvents.CreatedAt` | src/components/qa-panel.tsx:108 | `created_at` is the floor of milliseconds over 1000: the second that contains the instant |
| `NostrEvents.TextNote` | src/components/qa-panel.tsx:106-111 | the shared note has kind 1, no tags, the composed content and the floored timestamp |
| `NostrEvents.WidgetEventRoundTrip` | src/components/qa-panel.tsx:156-171 | the widget event has exactly three tags (`d`, `url`, `image`, in that order) and the floored timestamp; reading it back gives the widget's name, its kind unvalidated and the encoded HTML after the data-URI prefix |
| `QaPanel.CheckQuestion` | src/components/qa-panel.tsx:49-53 | the form accepts a question iff it has at least 10 characters, unchanged; otherwise it shows the fixed message |
| `QaPanel.OnSubmit` | src/components/qa-panel.tsx:197-212 | an error result clears the response, shows the error and does not call the callback. Otherwise the response is set to the action's answer and citation, with no code snippet and no widget, and the callback is called once with it |
| `QaPanel.SubmitNotifiesIffNoError` | src/components/qa-panel.tsx:200-211 | through the action, the callback is called exactly once when the result has no error and never otherwise |
| `QaPanel.EmptySubmitClearsResponse` | src/components/qa-panel.tsx:198-207 | submitting the empty question leaves no response, no callback and the "Question cannot be empty." toast |
| `QaPanel.AutoSubmitQuestion` | src/components/qa-panel.tsx:74-80 | the effect submits the seeded question, unchanged, exactly when it is non-empty and differs from the value the effect last ran with |
| `QaPanel.ShareContent` | src/components/qa-panel.tsx:98-104 | the note starts with the Q/A header; its length is the header plus the fence iff there is a snippet and no widget, plus the citation line iff there is a citation; it ends with the citation line when there is one |
| `QaPanel.SignAndPublish` | src/components/qa-panel.tsx:113-118 | the template is signed once. Nothing is published when signing throws, and the error is the signer's own exception. Otherwise there is one publication of the signed event to the three relays. There is no error exactly when some relay acknowledges. After signing, an error is an `AggregateError` with one reason per relay of the set; when each relay replied once, each reason is that relay's own |
| `QaPanel.ShareOnNostr` | src/components/qa-panel.tsx:82-142 | no response gives no effect; no extension gives only the missing-extension toast; with both, exactly one signing request, the text note of the composed content, and one publication of the signed event to the relay set when signing succeeds, none otherwise |
| `QaPanel.ShareSucceedsIffSomeRelayAcks` | src/components/qa-panel.tsx:113-125 | sharing shows the success toast exactly when there is a response, a signer that signs, and a relay that acknowledges |
| `QaPanel.ShareAllRelaysFailed` | src/components/qa-panel.tsx:126-133 | when each relay replies once and every reply fails, sharing shows "Failed to publish to any relay." |
| `QaPanel.ShareSignFailure` | src/components/qa-panel.tsx:126-138 | a signing error publishes nothing and shows its message, or "An unknown error occurred." when it has none |
| `QaPanel.PublishWidget` | src/components/qa-panel.tsx:144-195 | no widget gives no effect; no extension gives only the missing-extension toast; with a widget and a signer, exactly one signing request, the widget event, and one publication of the signed event to the relay set when signing succeeds, none otherwise |
| `QaPanel.WidgetAllRelaysFailed` | src/components/qa-panel.tsx:185-191 | the widget handler has no aggregate case: when each relay replies once and every reply fails, it shows the aggregate error's own message |
| `QaPanel.WidgetSignFailure` | src/components/qa-panel.tsx:185-191 | a signing error while publishing a widget publishes nothing and shows "Failed to publish widget" with its message, or "An unknown error occurred." when it has none |
| `QaPanel.WidgetSucceedsIffSomeRelayAcks` | src/components/qa-panel.tsx:173-183 | publishing a widget shows "Widget Published!" with the name exactly when the event is signed and some relay acknowledges it |
| `Page.Dispatch` | src/app/page.tsx:25-39 | a `nostr-event` with non-empty content sets the seeded question; a `user-metadata` with a non-empty `host_origin` sets the destination; any other message changes nothing |
| `Page.LatestSeedWins` | src/app/page.tsx:27-33 | after any run of messages the seeded question is the content of the latest seeding message, or unchanged when none seeds |
| `Page.LatestOriginWins` | src/app/page.tsx:34-38 | after any run of messages the destination is the origin of the latest origin-setting message, or unchanged when none sets it |
| `Page.HostContext` | src/app/page.tsx:50-53 | the context starts with the answer. It is followed by the fenced snippet iff the snippet is non-empty (its length and its ending say so), and is exactly the answer otherwise |
| `Page.HostContextIgnoresCitation` | src/app/page.tsx:50-53 | the host context does not depend on the citation |
| `Page.ShareNoteExtendsHostContext` | src/components/qa-panel.tsx:98-104 | without a widget the shared note is "Q: …\n\nA: " + host context + citation line; with a widget it drops the snippet that the host context keeps |
| `Page.HandleResponse` | src/app/page.tsx:47-56 | context is sent iff a destination is set, to that destination, and it is the host context of the response |
| `Page.SeedSubmittedIffNew` | src/app/page.tsx:27-33 | a host message makes the panel submit exactly when it seeds content different from the current seed, and then submits that content; a repeat of the current seed submits nothing |
| `Page.ShortSeedSkipsFormCheck` | src/components/qa-panel.tsx:74-80 | a host-seeded question shorter than 10 characters, which the form refuses, still reaches the generator unchanged when it differs from the current seed |
| `Page.ActionAnswersReachHostBare` | src/app/page.tsx:47-56 | for answers that come through the action, the host receives exactly the answer and publishing a widget does nothing |

## Findings

| source | as written | input that shows it | evidently intended | confidence | as-written member | corrected member |
|---|---|---|---|---|---|---|
| src/components/qa-panel.tsx:118 | each relay's promise is `new Promise(r => p.on('ok', r))`. It resolves on an acknowledgement and never rejects, so `Promise.any` over three relays never settles when all of them fail. The "Failed to publish to any relay." branch (lines 129-130) cannot be reached, and the pending flag is never reset. The widget handler (line 177) has the same shape. | all three relays fail or time out | a relay failure rejects its promise, so an all-failed publish ends in `AggregateError` and the failure toast | medium, not executed. It assumes each object `pool.publish` returns has an `on` method that registers a listener; the relay library's version is not part of this model. If those objects have no `on`, each executor throws and every promise rejects at once. Then every share ends in "Failed to publish to any relay." and every widget publish in "All promises were rejected", whatever the relays reply | `Relays.AllFailingRelaysNeverSettleAsWritten` | `Relays.Race` |

The handlers in `QaPanel` use the corrected race; see the lines for them under "## Left out".

## Left out

- The generation flows (answer, example code, summary, widget code) are language-model calls. The Q&A generator is a parameter that returns an output or throws. The other three flows are not called by the modelled code.
- The documentation text is an opaque constant (`Actions.ApiDocs`). The documentation data file is not part of this model.
- Rendering, toasts as UI, React state and transitions, the pending flags, `form.setValue`, the example-prompt buttons, and the timing of the auto-submit effect are UI concerns. Only the rule deciding what is auto-submitted is modelled.
- `signEvent`, `SimplePool` networking, `pool.close`, per-relay timeouts and the concurrency of the race are left out. Signing is an opaque outcome. The race is modelled as the list of replies in arrival order.
- `encodeURIComponent` is an uninterpreted, total function parameter. `Date.now` is a parameter. In JavaScript, `encodeURIComponent` throws `URIError` on a lone surrogate in the widget's HTML (src/components/qa-panel.tsx:159). Nothing is then signed, and the toast is "Failed to publish widget" with "URI malformed" (lines 185-191). Strings here are sequences of Unicode scalar values, so the model cannot express that case.
- The three `console.error` calls (src/app/actions.ts:66, src/components/qa-panel.tsx:127 and 186) only log. They do not affect any result and are not modelled.
- `QaPanel.AutoSubmitQuestion` assumes the panel renders between host messages. If React batches two seeding messages into one render, the effect sees only the last value, so only that question is submitted.
- `SWhandler.client.ready`, the listener's teardown, and `sendContext` delivery itself are not modelled. The model produces the message that would be sent.
- A thrown value that is not an object (such as `null`, whose `message` access would itself throw inside the catch) is not modelled. Every exception is an error record with a possibly-missing message.
- `QaPanel.CheckQuestion` counts characters as Unicode scalar values. JavaScript's `length` counts UTF-16 code units, so the two differ for characters outside the Basic Multilingual Plane.
- The widget kind is modelled as an integer. A JavaScript number could also be fractional or `NaN`. The code passes it through unvalidated, as the model does.
- `QaPanel.AggregateMessage` is the message V8 gives `Promise.any`'s rejection. Other engines word it differently.
- `QaPanel.SignAndPublish`: uses the corrected `Relays.Race`. As written, a publish where every relay fails never settles (`Relays.RaceAsWritten`), so the handlers' catch blocks are not reached in that case.
- `QaPanel.ShareOnNostr`: uses the corrected `Relays.Race`. As written, sharing hangs with the pending flag set when every relay fails, instead of showing a toast.
- `QaPanel.PublishWidget`: uses the corrected `Relays.Race`. As written, publishing a widget hangs when every relay fails, instead of showing a toast.
- `QaPanel.ShareAllRelaysFailed`: states the evident intent of lines 129-130. As written, that branch is never reached for the three-relay list, because the race never settles (`Relays.AllFailingRelaysNeverSettleAsWritten`).
- `QaPanel.WidgetAllRelaysFailed`: states what the widget catch block would show if the race rejected. As written, the race never settles when every relay fails.
- The relay pool's replies are a function parameter. The all-failed lemmas assume what `pool.publish` provides: one reply per relay of the list (`Relays.OneReplyPerRelay`). The handler functions themselves accept any reply list.
- `Page.HandleResponse`: its `hostOrigin` argument is the value captured by the render whose `onSubmit` started the request, because that render's `onApiResponse` callback is the one that is called (src/components/qa-panel.tsx:199-210). So a question seeded before the `user-metadata` message arrives gets no reply, even if the origin arrives while the request is running. React's closure capture is not modelled.
