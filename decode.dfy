/**
 * `decode_tool_result`: turns the content items of an MCP tool result into a
 * list of plain entries, one per item and in the same order. `json.loads` is
 * a parameter `parse` (None where it raises); `repr(item)` for an item of an
 * unrecognised kind is carried by the item itself.
 */
module Decode {
  import opened JsonTree
  import opened Sanitizer

  /** A content item of a tool result. */
  datatype Content =
    | TextContent(text: string)
    | JsonContent(data: Json)
    | OtherContent(kind: string, repr: string)   // `item.type` and `repr(item)`

  /** A decoded entry: the dicts {"type": "json", "data": …}, {"type": "text", "text": …}
      and {"type": item.type, "repr": …}. */
  datatype Entry =
    | JsonEntry(data: Json)
    | TextEntry(text: string)
    | OpaqueEntry(kind: string, repr: string)

  /** `entry.get("type")`. */
  function TypeTag(e: Entry): string
  {
    match e
    case JsonEntry(_) => "json"
    case TextEntry(_) => "text"
    case OpaqueEntry(kind, _) => kind
  }

  /** `entry.get("type") == "json"`. */
  predicate TypedJson(e: Entry)
  {
    TypeTag(e) == "json"
  }

  /** `isinstance(parsed, (dict, list))`, where a failed parse leaves `parsed` as None. */
  predicate IsContainer(parsed: Option<Json>)
  {
    parsed.Some? && (parsed.value.List? || parsed.value.Object?)
  }

  /** The item yields a "json" entry. */
  predicate YieldsJson(item: Content, parse: string -> Option<Json>)
  {
    item.JsonContent? || (item.TextContent? && IsContainer(parse(item.text)))
  }

  /** The value a "json"-yielding item carries before sanitising. */
  function RawData(item: Content, parse: string -> Option<Json>): Json
    requires YieldsJson(item, parse)
  {
    if item.JsonContent? then item.data else parse(item.text).value
  }

  /** The entry one loop iteration appends for `item`. */
  function DecodeItem(item: Content, parse: string -> Option<Json>): (e: Entry)
    ensures e.JsonEntry? <==> YieldsJson(item, parse)
    ensures e.JsonEntry? ==> e.data == Sanitize(RawData(item, parse)) && Redacted(e.data)
    ensures e.JsonEntry? && item.TextContent? ==> e.data.List? || e.data.Object?
    ensures e.TextEntry? <==> item.TextContent? && !IsContainer(parse(item.text))
    ensures e.TextEntry? ==> e.text == item.text
    ensures e.OpaqueEntry? <==> item.OtherContent?
    ensures e.OpaqueEntry? ==> e.kind == item.kind && e.repr == item.repr
    ensures TypedJson(e) <==> YieldsJson(item, parse) || (item.OtherContent? && item.kind == "json")
  {
    match item
    case TextContent(text) =>
      var parsed := parse(text);
      if IsContainer(parsed) then
        SanitizeRedacts(parsed.value);
        JsonEntry(Sanitize(parsed.value))
      else TextEntry(text)
    case JsonContent(data) =>
      SanitizeRedacts(data);
      JsonEntry(Sanitize(data))
    case OtherContent(kind, repr) => OpaqueEntry(kind, repr)
  }

  /** The whole decoded list, as a value. */
  function Decoded(content: seq<Content>, parse: string -> Option<Json>): (entries: seq<Entry>)
    ensures |entries| == |content|
    ensures forall i :: 0 <= i < |content| ==> entries[i] == DecodeItem(content[i], parse)
  {
    seq(|content|, i requires 0 <= i < |content| => DecodeItem(content[i], parse))
  }

  /** `decode_tool_result(result)`: exactly one entry per content item, in the same order. */
  method DecodeToolResult(content: seq<Content>, parse: string -> Option<Json>) returns (decoded: seq<Entry>)
    ensures decoded == Decoded(content, parse)
  {
    decoded := [];
    for i := 0 to |content|
      invariant |decoded| == i
      invariant forall k :: 0 <= k < i ==> decoded[k] == DecodeItem(content[k], parse)
    {
      match content[i]
      case TextContent(text) =>
        var parsed := parse(text);
        if IsContainer(parsed) {
          decoded := decoded + [JsonEntry(Sanitize(parsed.value))];
        } else {
          decoded := decoded + [TextEntry(text)];
        }
      case JsonContent(data) =>
        decoded := decoded + [JsonEntry(Sanitize(data))];
      case OtherContent(kind, repr) =>
        decoded := decoded + [OpaqueEntry(kind, repr)];
    }
  }
}
