/** src/parser.ts: which messages of an export are turned into posts. */
module Parser {
  import opened JsString
  import opened Types

  /** `every` over the parts of an array-valued text: each part is a bare
      string that trims to nothing. */
  function AllBlankParts(parts: seq<TextPart>): (r: bool)
    ensures r <==> forall i :: 0 <= i < |parts| ==> parts[i].StringPart? && AllWhitespace(parts[i].s)
  {
    if parts == [] then true
    else
      var first := match parts[0]
        case StringPart(s) => Trim(s) == ""
        case ObjectPart(_, _) => false;
      assert forall i :: 1 <= i < |parts| ==> parts[i] == parts[1..][i - 1];
      first && AllBlankParts(parts[1..])
  }

  /** `isEmptyText`: a string is empty when it trims to nothing; an array
      when all its parts are such strings, so that any typed part makes it
      non-empty and the empty array is empty; any other value is empty. */
  function IsEmptyText(text: MessageText): (r: bool)
    ensures text.TextString? ==> (r <==> AllWhitespace(text.s))
    ensures text.TextArray? ==>
      (r <==> forall i :: 0 <= i < |text.parts| ==> text.parts[i].StringPart? && AllWhitespace(text.parts[i].s))
    ensures text.TextOther? ==> r
  {
    match text
    case TextString(s) => Trim(s) == ""
    case TextArray(parts) => AllBlankParts(parts)
    case TextOther => true
  }

  /** The filter callback of `parseExport`, in its order of early returns. */
  function Keep(msg: Message): (r: bool)
    ensures r <==>
      && msg.kind == "message"
      && (msg.forwardedFrom.None? || msg.forwardedFrom.value == "")
      && !(msg.mediaType == Some("video_file") && IsEmptyText(msg.text))
  {
    if msg.kind != "message" then false
    else if IsTruthy(msg.forwardedFrom) then false
    else if msg.mediaType == Some("video_file") && IsEmptyText(msg.text) then false
    else true
  }

  /** `data.messages.filter(...)`. */
  function FilterMessages(ms: seq<Message>): (r: seq<Message>)
    ensures |r| <= |ms|
    ensures forall i :: 0 <= i < |r| ==> Keep(r[i]) && r[i] in ms
    ensures forall i :: 0 <= i < |ms| && Keep(ms[i]) ==> ms[i] in r
  {
    if ms == [] then []
    else
      var rest := FilterMessages(ms[1..]);
      assert forall i :: 1 <= i < |ms| ==> ms[i] == ms[1..][i - 1];
      (if Keep(ms[0]) then [ms[0]] else []) + rest
  }

  /** Filtering keeps the order: the messages kept from a concatenation are
      those kept from the first part followed by those kept from the second. */
  lemma {:induction false} FilterMessagesAppend(a: seq<Message>, b: seq<Message>)
    ensures FilterMessages(a + b) == FilterMessages(a) + FilterMessages(b)
  {
    if a == [] {
      assert a + b == b;
    } else {
      assert (a + b)[1..] == a[1..] + b;
      FilterMessagesAppend(a[1..], b);
    }
  }

  /** An export whose messages are all kept is passed through unchanged. */
  lemma {:induction false} FilterMessagesAllKept(ms: seq<Message>)
    requires forall i :: 0 <= i < |ms| ==> Keep(ms[i])
    ensures FilterMessages(ms) == ms
  {
    if ms != [] {
      FilterMessagesAllKept(ms[1..]);
    }
  }

  /** The number of messages kept is the number of inputs that pass. */
  function CountKept(ms: seq<Message>): nat
  {
    if ms == [] then 0 else (if Keep(ms[0]) then 1 else 0) + CountKept(ms[1..])
  }

  lemma {:induction false} FilterMessagesCount(ms: seq<Message>)
    ensures |FilterMessages(ms)| == CountKept(ms)
  {
    if ms != [] {
      FilterMessagesCount(ms[1..]);
    }
  }

  /** What `parseExport` returns once the file has been read: the channel
      name and the kept messages. */
  datatype ParseResult = ParseResult(channelName: string, messages: seq<Message>)

  function ParseExport(data: TelegramExport): (r: ParseResult)
    ensures r.channelName == data.name
    ensures forall i :: 0 <= i < |r.messages| ==> Keep(r.messages[i]) && r.messages[i] in data.messages
    ensures forall i :: 0 <= i < |data.messages| && Keep(data.messages[i]) ==> data.messages[i] in r.messages
  {
    ParseResult(data.name, FilterMessages(data.messages))
  }
}
