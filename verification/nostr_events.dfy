/** The unsigned Nostr event templates the panel asks the browser signer to
    sign: a kind-1 text note for sharing an answer, and a widget event whose
    tags carry the widget's name, its HTML as a data URI, and an icon. */
module NostrEvents {
  import opened Js

  const TextNoteKind := 1
  const DataUriPrefix := "data:text/html;charset=utf-8,"
  const WidgetIcon := "https://yakihonne.com/favicon.ico"
  const WidgetContentPrefix := "Widget: "

  /** What is handed to `signEvent`. */
  datatype EventTemplate = EventTemplate(kind: int, createdAt: int, tags: seq<seq<string>>, content: string)

  /** What `signEvent` returns: the template plus id, signature and key. */
  datatype SignedEvent = SignedEvent(template: EventTemplate, id: string, sig: string, pubkey: string)

  /** A generated widget (the `widgetCode` of a response). The kind is the
      number the generator chose, not checked against any list. */
  datatype WidgetCode = WidgetCode(explanation: string, widgetName: string, htmlCode: string, widgetKind: int)

  /** `Math.floor(Date.now() / 1000)`: whole seconds from milliseconds. */
  function CreatedAt(nowMs: int): (secs: int)
    ensures secs * 1000 <= nowMs < secs * 1000 + 1000
  {
    nowMs / 1000
  }

  /** The text note that shares an answer: kind 1, no tags. */
  function TextNote(content: string, nowMs: int): (t: EventTemplate)
    ensures t.kind == TextNoteKind && t.tags == [] && t.content == content
    ensures t.createdAt * 1000 <= nowMs < t.createdAt * 1000 + 1000
  {
    EventTemplate(TextNoteKind, CreatedAt(nowMs), [], content)
  }

  /** The widget event; `encode` stands for `encodeURIComponent`. */
  function WidgetEvent(w: WidgetCode, encode: string -> string, nowMs: int): EventTemplate {
    EventTemplate(
      w.widgetKind,
      CreatedAt(nowMs),
      [["d", w.widgetName], ["url", DataUriPrefix + encode(w.htmlCode)], ["image", WidgetIcon]],
      WidgetContentPrefix + w.widgetName)
  }

  /** What a reader of a widget event recovers from it. */
  datatype WidgetRef = WidgetRef(name: string, kind: int, encodedHtml: string)

  /** Reads a widget event back: exactly the `d`, `url` and `image` tags in
      that order, a data URI in the `url` tag, and content naming the widget. */
  function ReadWidgetEvent(t: EventTemplate): (r: Option<WidgetRef>)
    ensures r.Some? ==> t.content == WidgetContentPrefix + r.value.name
  {
    if |t.tags| == 3
       && |t.tags[0]| == 2 && t.tags[0][0] == "d"
       && |t.tags[1]| == 2 && t.tags[1][0] == "url" && StartsWith(t.tags[1][1], DataUriPrefix)
       && t.tags[2] == ["image", WidgetIcon]
       && t.content == WidgetContentPrefix + t.tags[0][1]
    then Some(WidgetRef(t.tags[0][1], t.kind, t.tags[1][1][|DataUriPrefix|..]))
    else None
  }

  /** Building a widget event and reading it back gives the widget's name,
      its kind unchanged and the encoded HTML; the tag list is exactly
      `d`, `url`, `image`. */
  lemma WidgetEventRoundTrip(w: WidgetCode, encode: string -> string, nowMs: int)
    ensures ReadWidgetEvent(WidgetEvent(w, encode, nowMs))
         == Some(WidgetRef(w.widgetName, w.widgetKind, encode(w.htmlCode)))
    ensures |WidgetEvent(w, encode, nowMs).tags| == 3
    ensures WidgetEvent(w, encode, nowMs).createdAt == CreatedAt(nowMs)
  {
  }

}
