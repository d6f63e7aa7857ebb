/**
 * The uri pick in `run_pipeline`: the first decoded entry whose type is
 * "json" decides the uri, read as `entry["data"].get("data", {}).get("uri")`,
 * and the loop stops there whatever that lookup gives. Python's `None` is
 * `Null`; a lookup that raises is an `Err`.
 */
module UriSelection {
  import opened JsonTree
  import opened Sanitizer
  import opened Decode

  /** The exceptions the lookup can raise. */
  datatype LookupError =
    | KeyError(key: string)          // `entry["data"]` on an entry without "data"
    | AttributeError(receiver: Json) // `.get` on a value that is not a dict

  datatype Result<+T> = Ok(value: T) | Err(error: LookupError)

  /** `data = entry["data"]; data.get("data", {}).get("uri")` for one entry. */
  function UriOf(e: Entry): (r: Result<Json>)
    ensures r.Ok? && r.value != Null ==>
              e.JsonEntry? && e.data.Object? &&
              Get(e.data.members, "data").Some? && Get(e.data.members, "data").value.Object? &&
              Get(Get(e.data.members, "data").value.members, "uri") == Some(r.value)
    ensures e.JsonEntry? && e.data.Object? && Get(e.data.members, "data").None? ==> r == Ok(Null)
    ensures e.JsonEntry? && e.data.Object? && Get(e.data.members, "data").Some? &&
            Get(e.data.members, "data").value.Object? ==>
              r == Ok(GetOr(Get(e.data.members, "data").value.members, "uri", Null))
    ensures r.Err? && r.error.KeyError? <==> !e.JsonEntry?
    ensures r.Err? && r.error.AttributeError? <==>
              e.JsonEntry? && (!e.data.Object? ||
                               (Get(e.data.members, "data").Some? && !Get(e.data.members, "data").value.Object?))
  {
    match e
    case JsonEntry(data) =>
      if !data.Object? then Err(AttributeError(data))
      else
        var inner := GetOr(data.members, "data", Object([]));
        if !inner.Object? then Err(AttributeError(inner))
        else Ok(GetOr(inner.members, "uri", Null))
    case _ => Err(KeyError("data"))
  }

  /** Entry `k` is the first whose type is "json". */
  predicate FirstJsonAt(entries: seq<Entry>, k: int)
  {
    0 <= k < |entries| && TypedJson(entries[k]) &&
    forall m :: 0 <= m < k ==> !TypedJson(entries[m])
  }

  /** The uri the pick ends with, as a value. */
  function SelectUri(entries: seq<Entry>): (r: Result<Json>)
    ensures (forall k :: 0 <= k < |entries| ==> !TypedJson(entries[k])) ==> r == Ok(Null)
    ensures forall k :: FirstJsonAt(entries, k) ==> r == UriOf(entries[k])
    decreases |entries|
  {
    if entries == [] then Ok(Null)
    else if TypedJson(entries[0]) then UriOf(entries[0])
    else
      var r := SelectUri(entries[1..]);
      assert forall k :: FirstJsonAt(entries, k) ==> FirstJsonAt(entries[1..], k - 1);
      r
  }

  /** The loop at the uri pick: stop at the first "json" entry. */
  method PickUri(entries: seq<Entry>) returns (r: Result<Json>)
    ensures (forall k :: 0 <= k < |entries| ==> !TypedJson(entries[k])) ==> r == Ok(Null)
    ensures forall k :: FirstJsonAt(entries, k) ==> r == UriOf(entries[k])
    ensures r == SelectUri(entries)
  {
    r := Ok(Null);
    var i := 0;
    while i < |entries|
      invariant 0 <= i <= |entries|
      invariant forall m :: 0 <= m < i ==> !TypedJson(entries[m])
      invariant r == Ok(Null)
    {
      if TypedJson(entries[i]) {
        r := UriOf(entries[i]);
        assert FirstJsonAt(entries, i);
        break;
      }
      i := i + 1;
    }
  }

  /** Entries after the first "json" entry are never consulted, even when that entry has no uri. */
  lemma {:induction false} LaterEntriesIgnored(before: seq<Entry>, e: Entry, after: seq<Entry>)
    requires forall m :: 0 <= m < |before| ==> !TypedJson(before[m])
    requires TypedJson(e)
    ensures SelectUri(before + [e] + after) == UriOf(e)
  {
    var entries := before + [e] + after;
    assert FirstJsonAt(entries, |before|);
  }

  /** The uri under "data" of a decoded dict survives sanitising: "data" and "uri" are not "base64_data". */
  lemma SanitizedUri(outer: seq<(string, Json)>, inner: seq<(string, Json)>, uri: Json)
    requires Get(outer, "data") == Some(Object(inner)) && Get(inner, "uri") == Some(uri)
    ensures UriOf(JsonEntry(Sanitize(Object(outer)))) == Ok(Sanitize(uri))
  {
    GetSanitized(outer, "data");
    GetSanitized(inner, "uri");
  }

  /** The decoded entry at `k` is the first typed "json" when no earlier item yields one. */
  lemma DecodedFirstJson(content: seq<Content>, parse: string -> Option<Json>, k: nat)
    requires k < |content| && YieldsJson(content[k], parse)
    requires forall m :: 0 <= m < k ==> !YieldsJson(content[m], parse) &&
                                         !(content[m].OtherContent? && content[m].kind == "json")
    ensures FirstJsonAt(Decoded(content, parse), k)
    ensures Decoded(content, parse)[k] == JsonEntry(Sanitize(RawData(content[k], parse)))
  {
    var entries := Decoded(content, parse);
    forall m | 0 <= m < k ensures !TypedJson(entries[m]) {
      assert entries[m] == DecodeItem(content[m], parse);
    }
  }

  /**
   * Decoding then picking: when the first "json"-yielding item holds a dict
   * whose "data" member is a dict with a "uri", that uri, sanitised, is what the
   * pick returns; a string uri comes back unchanged.
   */
  lemma DecodedUri(content: seq<Content>, parse: string -> Option<Json>, k: nat,
                   outer: seq<(string, Json)>, inner: seq<(string, Json)>, uri: Json)
    requires k < |content| && YieldsJson(content[k], parse)
    requires forall m :: 0 <= m < k ==> !YieldsJson(content[m], parse) &&
                                         !(content[m].OtherContent? && content[m].kind == "json")
    requires RawData(content[k], parse) == Object(outer)
    requires Get(outer, "data") == Some(Object(inner)) && Get(inner, "uri") == Some(uri)
    ensures SelectUri(Decoded(content, parse)) == Ok(Sanitize(uri))
    ensures uri.Str? ==> SelectUri(Decoded(content, parse)) == Ok(uri)
  {
    DecodedFirstJson(content, parse, k);
    SanitizedUri(outer, inner, uri);
  }

  /** The pick raises `KeyError` exactly when the first entry typed "json" is not a decoded json entry. */
  lemma {:induction false} SelectUriKeyError(entries: seq<Entry>)
    ensures SelectUri(entries).Err? && SelectUri(entries).error.KeyError? <==>
            exists k :: FirstJsonAt(entries, k) && !entries[k].JsonEntry?
    decreases |entries|
  {
    if entries != [] && !TypedJson(entries[0]) {
      SelectUriKeyError(entries[1..]);
      if exists k :: FirstJsonAt(entries[1..], k) && !entries[1..][k].JsonEntry? {
        var k :| FirstJsonAt(entries[1..], k) && !entries[1..][k].JsonEntry?;
        assert FirstJsonAt(entries, k + 1);
      }
      if exists k :: FirstJsonAt(entries, k) && !entries[k].JsonEntry? {
        var k :| FirstJsonAt(entries, k) && !entries[k].JsonEntry?;
        assert FirstJsonAt(entries[1..], k - 1);
      }
    } else if entries != [] {
      if exists k :: FirstJsonAt(entries, k) && !entries[k].JsonEntry? {
        var k :| FirstJsonAt(entries, k) && !entries[k].JsonEntry?;
        assert k == 0;
      }
    }
  }

  /**
   * After decoding, the pick raises `KeyError` exactly when the first entry
   * typed "json" comes from an item of an unrecognised kind whose type is "json".
   */
  lemma DecodedKeyError(content: seq<Content>, parse: string -> Option<Json>)
    ensures SelectUri(Decoded(content, parse)).Err? && SelectUri(Decoded(content, parse)).error.KeyError?
            <==> exists k :: FirstJsonAt(Decoded(content, parse), k) && content[k].OtherContent?
  {
    var entries := Decoded(content, parse);
    SelectUriKeyError(entries);
    forall k | 0 <= k < |content| 
      ensures TypedJson(entries[k]) ==> (entries[k].JsonEntry? <==> !content[k].OtherContent?)
    {
      assert entries[k] == DecodeItem(content[k], parse);
    }
  }
}
