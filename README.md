# Result post-processing of the mmodal-mcp pipeline client

The script `scripts/fastmcp_pipeline.py` drives the image server through an
MCP stdio session. It calls a tool and turns the tool's answer into plain
entries. From those entries it picks the uri of the generated asset. It then
passes the path part of that uri (`urlparse(uri).path`) to the describe and
validate tools. This project models the
logic that does not depend on I/O:

- `sanitize_payload` (module `Sanitizer`). It copies a JSON-like value. In the
  copy, every string stored in a dict under `"base64_data"` becomes the
  placeholder `"<base64 len=N>"`, where N is the string's length. A
  non-string under that key is sanitised like any other value. Lists and
  dicts keep their length, keys and order, and scalars come back unchanged.
  Dicts are sequences of members, so insertion order is part of the model.
  `str(N)` is written out in module `Decimal`, together with its inverse.
- `decode_tool_result` (module `Decode`). This is a method with a loop that
  appends one entry per content item:
  - a text item that `json.loads` turns into a dict or a list becomes a json entry holding the sanitised value;
  - any other text item becomes a text entry holding the original text;
  - a JSON item becomes a json entry holding its sanitised data;
  - an item of any other kind becomes an opaque entry.
- The uri pick in `run_pipeline` (module `UriSelection`). A loop finds the
  first entry typed `"json"` and evaluates
  `entry["data"].get("data", {}).get("uri")` on it. The loop stops there even
  when that entry has no uri. Python's `None` is `Null`. The lookup can raise
  `KeyError` or `AttributeError`, and the model returns those as `Err`
  values. An item of an unrecognised kind whose `type` is `"json"` gives an
  opaque entry without `"data"`. When it is the first entry typed json, the
  pick raises `KeyError`; `UriSelection.DecodedKeyError` states exactly when
  that happens.

`json.loads` is a parameter `parse: string -> Option<Json>`, where `None`
stands for "raised an exception". `repr(item)` and `item.type` of an
unrecognised item are fields that the item carries.

## Model

| member | source | states |
|---|---|---|
| `Sanitizer.Sanitize` | scripts/fastmcp_pipeline.py:30-38 | the result has the same Python type as the input; scalars, None and top-level strings come back unchanged; a list keeps its length; a dict keeps exactly its keys, in the same order |
| `Sanitizer.SanitizeObjectMember` | scripts/fastmcp_pipeline.py:31-35 | member i of a sanitised dict keeps its key. A `"base64_data"` string of length N becomes the placeholder, and that placeholder records N. Any other value, including a non-string under `"base64_data"`, is sanitised recursively |
| `Sanitizer.SanitizeListElement` | scripts/fastmcp_pipeline.py:36-37 | a sanitised list has the same length, with element i the sanitised element i |
| `Sanitizer.SanitizeAt` | scripts/fastmcp_pipeline.py:30-38 | the sanitised value has exactly the paths of the original. A path ending at a string under `"base64_data"` ends at that string's placeholder. Every other path ends at the sanitised sub-value |
| `Sanitizer.StringsKeptOutsideBase64` | scripts/fastmcp_pipeline.py:33-38 | a string anywhere in the value that is not a dict value under `"base64_data"` is left unchanged |
| `Sanitizer.SanitizeRedacts` | scripts/fastmcp_pipeline.py:33 | after sanitising, every string under `"base64_data"` at any depth is a placeholder |
| `Sanitizer.SanitizeWellFormed` | scripts/fastmcp_pipeline.py:32-35 | if every dict in the input has distinct keys, so does every dict in the output |
| `Sanitizer.GetSanitized` | scripts/fastmcp_pipeline.py:32-35 | looking up a key in a sanitised dict gives the sanitised member value, or nothing when the original dict lacks the key |
| `Sanitizer.PlaceholderLengthCorrect` | scripts/fastmcp_pipeline.py:33 | a string reads back as a placeholder recording N exactly when it equals the placeholder for N |
| `Decimal.ShowIsCanonical` | scripts/fastmcp_pipeline.py:33 | the decimal rendering of N has only digits and no leading zero, and it reads back as N |
| `Decimal.ShowOfValue` | scripts/fastmcp_pipeline.py:33 | every canonical numeral is the rendering of its own value |
| `Decimal.ShowInjective` | scripts/fastmcp_pipeline.py:33 | `str` is injective on non-negative integers: different lengths render differently |
| `Sanitizer.PlaceholderInjective` | scripts/fastmcp_pipeline.py:33 | equal placeholders record equal lengths, so different lengths give different placeholders |
| `JsonTree.Get` | scripts/fastmcp_pipeline.py:107 | `d.get(key)` gives nothing exactly when no member has the key; otherwise it gives the value of the first member with that key |
| `JsonTree.GetOr` | scripts/fastmcp_pipeline.py:107 | `d.get(key, default)` gives the stored value when the key is present and the default otherwise |
| `Decode.DecodeItem` | scripts/fastmcp_pipeline.py:44-58 | an item yields a json entry exactly when it is a JSON item or text that parses to a dict or list. That entry holds the sanitised, redacted data. An unparseable or scalar-parsing text yields a text entry with the original text. Only an unrecognised item yields an opaque entry, and it carries that item's `type` and `repr` |
| `Decode.Decoded` | scripts/fastmcp_pipeline.py:41-59 | one entry per content item, entry i decoding item i |
| `Decode.DecodeToolResult` | scripts/fastmcp_pipeline.py:41-59 | the append loop returns the decoded list: one entry per content item, in the same order, entry i being the decoding of item i |
| `UriSelection.UriOf` | scripts/fastmcp_pipeline.py:106-107 | for a json entry whose data is a dict: a missing `"data"` gives None; a dict under `"data"` gives its `"uri"` value, or None when that is missing. A non-None uri always comes from that place. `KeyError` is raised exactly for entries that are not json entries. `AttributeError` is raised exactly when the data, or the value under `"data"`, is not a dict |
| `UriSelection.SelectUri` | scripts/fastmcp_pipeline.py:103-108 | with no entry typed json the uri stays None; otherwise the first entry typed json alone decides it |
| `UriSelection.PickUri` | scripts/fastmcp_pipeline.py:103-108 | the loop with `break` returns None when no entry is typed json, and otherwise the lookup on the first such entry |
| `UriSelection.LaterEntriesIgnored` | scripts/fastmcp_pipeline.py:103-108 | entries after the first json entry never change the result, even when that entry has no uri |
| `UriSelection.SanitizedUri` | scripts/fastmcp_pipeline.py:104-107 | sanitising a tool result never changes where the uri sits: the lookup on the sanitised dict finds the sanitised uri |
| `UriSelection.DecodedFirstJson` | scripts/fastmcp_pipeline.py:100-105 | the first item that yields json is also the first decoded entry typed json, provided no earlier unrecognised item is typed json |
| `UriSelection.DecodedUri` | scripts/fastmcp_pipeline.py:99-108 | decoding and then picking returns the uri stored in the first json-yielding item, and a string uri comes back unchanged |
| `UriSelection.SelectUriKeyError` | scripts/fastmcp_pipeline.py:104-106 | the pick raises `KeyError` exactly when the first entry typed json is not a json entry |
| `UriSelection.DecodedKeyError` | scripts/fastmcp_pipeline.py:57-58 | after decoding, the pick raises `KeyError` exactly when the first entry typed json comes from an unrecognised item |

## Left out

- `call_tool`, `pretty_print` and the rest of `run_pipeline`: the stdio MCP session, the environment, printing, and the calls to the describe and validate tools are I/O.
- The `if not uri` test after the pick is left out; it only decides whether the script goes on. `urlparse(uri).path` is left out too; it only builds the argument of the next tool calls.
- `json.loads` is a library call. It is a parameter, so the model does not decide which texts parse, and it does not model duplicate keys or non-finite numbers in the parsed JSON.
- The MCP `types` classes are not part of this model. Content items are a three-way datatype, and the model does not check whether the library matches an item to `TextContent` or to `JsonContent`.
- `repr(item)` is foreign formatting. It is an opaque string carried by the item.
- `Sanitizer.Sanitize`: Python's recursion limit is not modelled. `sanitize_payload` recurses once per nesting level, so a payload nested about 1000 deep raises `RecursionError` outside any `try`, and `decode_tool_result` fails; the model returns the sanitised value for any depth.
- JSON floats are left out. `sanitize_payload` returns every scalar unchanged, so a float behaves like the modelled `Int`.
- Strings are sequences of Unicode scalar values. A Python string can also hold lone surrogates, which the model cannot express. `len` counts code points in both.
- `Sanitizer.SanitizeObjectMember`, `JsonTree.Get`: a dict is a member sequence, and lookup takes the first member with the key. That matches a Python dict only when keys are distinct, which `WellFormed` states and `Sanitizer.SanitizeWellFormed` preserves.
- The other files of the repository are not part of this model. These include `test_server.py`, `scripts/demo_pipeline.py`, and the server, cache, generator, validator, storage and cleanup modules they import.
