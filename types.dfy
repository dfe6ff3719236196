/** The records of a Telegram channel export that the converter reads. */
module Types {

  datatype Option<+T> = None | Some(value: T)

  /** The outcome of an operation that can fail. */
  datatype Result<+T, +E> = Ok(value: T) | Err(error: E)

  /** One typed span of a message's `text_entities`: its type tag (`plain`,
      `bold`, `text_link`, ... or any other string), its text, and the link
      target that only `text_link` spans carry. */
  datatype TextEntity = TextEntity(kind: string, text: string, href: Option<string>)

  /** One element of the array form of a message's `text` field: a bare
      string or a typed object. */
  datatype TextPart = StringPart(s: string) | ObjectPart(kind: string, text: string)

  /** A message's `text` field: a string, an array of parts, or (in a
      malformed export) a value of some other JSON type. */
  datatype MessageText = TextString(s: string) | TextArray(parts: seq<TextPart>) | TextOther

  /** One record of the export's `messages` array, with the fields the
      converter reads; `kind` is the record's `type`. */
  datatype Message = Message(
    id: int,
    kind: string,
    date: string,
    text: MessageText,
    entities: seq<TextEntity>,
    photo: Option<string>,
    mediaType: Option<string>,
    forwardedFrom: Option<string>)

  /** The export document: the channel's display name and its messages. */
  datatype TelegramExport = TelegramExport(name: string, messages: seq<Message>)

  /** JavaScript truthiness of an optional string field: present and not empty. */
  predicate IsTruthy(o: Option<string>) {
    o.Some? && o.value != ""
  }
}
