# Streaming-response accumulator of the on-demand chat client

The client in `main.cs` creates a chat session and submits one query. In
stream mode the server answers with a body of server-sent-event lines, and
`SubmitQuery` folds those lines into four values: the full answer text, the
last session id, the last message id and the metrics dictionary. In sync mode
it patches the single JSON response by putting the session's context metadata
into its `data` object.

This project models both pieces and proves what they promise.

- `wrappers.dfy` (`Wrappers`): `Option` and `Result`.
- `json.dfy` (`Json`): what System.Text.Json hands the client. A property value is
  either a C# null (`JNull`) or an element given by its `ToString()` rendering
  (`JElem`). Deserialising a text into `Dictionary<string, object>` either
  throws (`Malformed`), returns null (`NullDocument`) or yields an object. The
  serializer itself is a parameter, `decode`, of every operation.
- `text.dfy` (`Text`): `Trim`, `TrimStart` and `TrimEnd` over the .NET
  `char.IsWhiteSpace` set, with lemmas that characterise them.
- `stream.dfy` (`Stream`): the read loop. `Classify` is the prefix test and
  `Substring(5).Trim()`. `ApplyEvent` is the `try` block for one payload, and
  `Fold`/`Accumulate` are the loop as a function. `AccumulateStream` is the
  loop as the program runs it: four locals updated in place, `break` on
  `[DONE]`, and a skip wherever the code would throw into its `catch`. It is
  proved equal to `Accumulate`.
- `writes.dfy` (`Writes`): last-writer-wins as a reference definition. It reads a
  sequence of writes backwards from the latest one.
- `stream_properties.dfy` (`StreamProperties`): the loop split into classifier
  and dispatcher, and the properties of the accumulated values.
- `sync_patch.dfy` (`SyncPatch`): the sync-mode patch of the response.

The model follows the code, which reads the `data:` field of server-sent
events (section 9.2 of the WHATWG HTML Living Standard) loosely. It trims all
surrounding white space rather than one leading space. It does not join
multi-line data. It ignores the `event`, `id` and `retry` fields. It treats
`[DONE]` as a terminator.

The model also follows the code in three details that are easy to misread:

- A `fulfillment` event updates in the order answer, sessionId, messageId. A
  property that is present with the JSON value null throws on `ToString()`.
  That abandons the updates after it but keeps those before it. So a key
  present with the value null is not treated like a missing key.
- `metricsLog` does not take `publicMetrics` as it is. It deserialises the
  `ToString()` rendering again. A rendering that does not deserialise changes
  nothing. The JSON text `null` makes metrics a C# null, modelled as `None`.
- `eventType` is compared by its `ToString()` rendering, so it need not be a
  JSON string. A missing or null `eventType` throws, and the payload is skipped.

## Model

| member | source | states |
|---|---|---|
| `Text.IsWhiteSpace` | main.cs:218 | the white space `Trim` drops is the .NET `char.IsWhiteSpace` set, which within ASCII is exactly the space and the controls from tab to carriage return |
| `Text.Trim` | main.cs:218 | the trimmed text is no longer than its input and has no white space at either end |
| `Text.TrimStartSpec` | main.cs:218 | `TrimStart` keeps a suffix of its input, everything it drops is white space, and the suffix does not start with white space |
| `Text.TrimEndSpec` | main.cs:218 | `TrimEnd` keeps a prefix of its input, everything it drops is white space, and the prefix does not end with white space |
| `Text.TrimSpec` | main.cs:218 | the trimmed payload is a piece of the line's remainder with only white space around it, and it has no white space at either end |
| `Text.TrimUnique` | main.cs:218 | any piece with only white space around it and none at its ends is exactly what `Trim` returns |
| `Text.TrimPadding` | main.cs:218 | trimming white space from around a core without white space at its ends gives back the core |
| `Stream.Classify` | main.cs:216-223 | exactly the lines starting with `data:` are read; the payload of such a line is never `[DONE]`, is no longer than the rest of the line and has no white space at either end |
| `Stream.EventType` | main.cs:228 | the event type is read exactly when the key is present with a non-null value, and it is that value's rendering |
| `Stream.ApplyFulfillment` | main.cs:228-242 | a `fulfillment` event keeps metrics, appends a present non-null `answer` and otherwise leaves the answer, and changes an identifier only to the value the event carries; a null `answer` changes nothing, a present non-null `sessionId` is written unless `answer` was null, a present non-null `messageId` is written unless `answer` or `sessionId` was null, and a null `sessionId` leaves `messageId` as it was |
| `Stream.ApplyMetricsLog` | main.cs:243-249 | a `metricsLog` event changes only metrics: a non-null `publicMetrics` whose rendering deserialises to an object replaces metrics with that object, one that deserialises to null makes metrics `None`, and a missing, null or malformed `publicMetrics` changes nothing |
| `Stream.ApplyEvent` | main.cs:225-254 | the frame of one payload: it never removes answer text; a payload that does not deserialise to an object, lacks a usable `eventType` or has another event type changes nothing; only `fulfillment` touches answer and identifiers, only `metricsLog` touches metrics. Its whole effect is stated by `EventEffect` |
| `Stream.Fold` | main.cs:214-256 | the loop never removes answer text, and lines that do not start with `data:` leave all four values unchanged |
| `Stream.Accumulate` | main.cs:205-256 | a body without `data:` lines gives empty answer, empty identifiers and an empty metrics dictionary |
| `Stream.AccumulateStream` | main.cs:205-256 | the loop with its in-place updates, `break` and skipped payloads ends with the four values that `Accumulate` specifies |
| `StreamProperties.Payloads` | main.cs:214-223 | at most one payload per line is dispatched, and none of the dispatched payloads is the terminator |
| `StreamProperties.FoldIsFoldOverPayloads` | main.cs:214-256 | the read loop is the per-payload handler folded over the payloads of the `data:` lines before the first terminator |
| `StreamProperties.FoldPayloadsSnoc` | main.cs:214-256 | handling one more payload at the end applies the handler to the state reached so far |
| `StreamProperties.Fragment` | main.cs:228-233 | a payload contributes answer text only as the non-null `answer` of a `fulfillment` event, and a payload that is skipped contributes none |
| `StreamProperties.IdWrite` | main.cs:228-241 | a payload writes a session id (message id) only as the non-null value a `fulfillment` event carries under that key, and only when no null value earlier in the order answer, sessionId, messageId has thrown |
| `StreamProperties.MetricsWrite` | main.cs:243-248 | a payload writes metrics only from a `metricsLog` event, and what it writes is the whole document its `publicMetrics` rendering deserialises to |
| `StreamProperties.EventEffect` | main.cs:227-249 | one payload appends its answer fragment and makes three independent last-writer writes: sessionId, messageId and metrics |
| `StreamProperties.AnswerIsJoined` | main.cs:230-233 | the answer after a run of payloads is the earlier answer followed by their fragments in order |
| `StreamProperties.FinalAnswer` | main.cs:230-233 | the final answer is the in-order concatenation of the answer fragments of the dispatched payloads, with nothing dropped, repeated or reordered |
| `StreamProperties.AnswerPrefix` | main.cs:214-233 | the answer after the first k lines is a prefix of the answer after all lines |
| `StreamProperties.IdIsLastWrite` | main.cs:234-241 | the sessionId (messageId) after a run of payloads is the latest value written by one of them, or the earlier value if none writes |
| `StreamProperties.IdLastWriterWins` | main.cs:234-241 | the final sessionId (messageId) is the value written by the last dispatched payload that writes it |
| `StreamProperties.IdWithoutWriter` | main.cs:234-241 | when no dispatched payload writes the sessionId (messageId), it stays the empty string |
| `StreamProperties.MetricsIsLastWrite` | main.cs:243-248 | metrics after a run of payloads are those of the latest replacing `metricsLog` event, or the earlier ones if there is none |
| `StreamProperties.MetricsLastWriterWins` | main.cs:243-248 | the final metrics are exactly those of the last replacing `metricsLog` event, with no merge |
| `StreamProperties.MetricsWithoutWriter` | main.cs:243-248 | without a replacing `metricsLog` event, metrics stay the empty dictionary |
| `StreamProperties.MetricsReplacedWholesale` | main.cs:245-248 | a `metricsLog` event whose `publicMetrics` deserialises to an object replaces the whole dictionary with it and changes nothing else |
| `StreamProperties.MetricsKept` | main.cs:243-254 | a `metricsLog` event whose `publicMetrics` is missing, null or not deserialisable changes nothing |
| `StreamProperties.FulfillmentWithAllFields` | main.cs:228-241 | a `fulfillment` event carrying non-null answer, sessionId and messageId, whatever else it carries, appends the answer, overwrites both identifiers and keeps metrics |
| `StreamProperties.FulfillmentStopsAtNull` | main.cs:230-254 | a null sessionId inside a `fulfillment` event keeps the answer already appended and writes neither identifier |
| `StreamProperties.ClassifyDataLine` | main.cs:216-223 | a `data:` line yields its payload without the surrounding white space, or the terminator when that payload is `[DONE]` |
| `StreamProperties.DoneStops` | main.cs:220-223 | after a terminator line nothing is read: the result is that of the lines before it, whatever follows |
| `StreamProperties.FoldAppend` | main.cs:214-256 | reading xs then ys is reading ys from the state after xs, when xs holds no terminator |
| `StreamProperties.SkippedLineDoesNotInterrupt` | main.cs:225-254 | a `data:` line whose payload is skipped, wherever it stands in the body, gives the same result as leaving it out |
| `StreamProperties.IgnoredLineAnywhere` | main.cs:214-216 | a line that does not start with `data:`, wherever it stands in the body, gives the same result as leaving it out |
| `StreamProperties.TwoPayloadsThenDone` | main.cs:214-256 | two payload lines and a terminator give the state after dispatching both payloads, whatever follows |
| `StreamProperties.ClassifyObjectLine` | main.cs:216-218 | `data: {...}` yields the object text as its payload |
| `StreamProperties.ClassifyDoneLine` | main.cs:218-223 | `data: [DONE]` is the terminator |
| `StreamProperties.OneAnswerResponse` | main.cs:205-256 | a fulfillment event, a metrics event and `[DONE]` give answer "Hi", ids "s1" and "m1", and metrics `{tokens: 5}`, whatever follows |
| `SyncPatch.Lift` | main.cs:173-177 | a deserialised dictionary keeps every key, and each value stays the JSON element it was deserialised as |
| `SyncPatch.PatchSyncResponse` | main.cs:173-180 | with a `data` object, `data.contextMetadata` becomes the supplied list, and every other key inside and outside `data` keeps its value. Without `data` the response is untouched. Each way the code throws is reported as its exception |

## Left out

- HTTP traffic, status-code checks and the reading of the body (main.cs:98-127, 160-203, 210-214) are I/O. The model takes the body as a given sequence of lines, so line splitting by `ReadLineAsync` is not modelled.
- The sync patch deserialises the response with `PropertyNameCaseInsensitive = true` (main.cs:172-173) and the `data` object with default options (main.cs:177). The model uses one `decode` for both. The option only affects binding to typed members, not the keys of a `Dictionary<string, object>`, so no observable behaviour is lost.
- JSON deserialisation is a parameter of every operation, because it is a foreign library. Only its three possible outcomes are modelled: it throws, it returns null, or it yields an object. `JsonElement.ToString()` is represented by its result, the element's rendering.
- `line.StartsWith("data:")` is modelled as an ordinal prefix test. The .NET call compares culture-sensitively, so characters that the current culture ignores (such as a soft hyphen) are not modelled.
- Session creation, request-body construction, the hard-coded configuration (including the floating-point sampling parameters), the `API_KEY` guard with `Environment.Exit` and the generated `EXTERNAL_USER_ID` (main.cs:12-27, 49-58, 76-151) are process control and plumbing with no logic to verify.
- Console output, the final streamed response object and the re-serialisation of the sync response (main.cs:109-118, 155-158, 182-189, 258-274) are presentation only.
- `async`/`await` is left out: the flow is strictly sequential.
- SyncPatch.PatchSyncResponse: an exception that escapes the patch ends the real program. The model returns it as a `Failure` value. The patched `data` dictionary is stored by value, because the model has no reference aliasing; the code does not touch `data` after storing it, so nothing observable is lost.
