/**
 * The streaming-response accumulator of `SubmitQuery` in stream mode.
 *
 * The response body is read line by line. A line that starts with `data:`
 * carries a payload: the rest of the line without surrounding white space.
 * The payload `[DONE]` ends the read; any other payload is deserialised as a
 * JSON object and dispatched on its `eventType`. Four values are accumulated:
 * the answer text, the last session id, the last message id and the metrics
 * object. Any exception while handling one payload abandons that payload only.
 */
module Stream {
  import opened Wrappers
  import opened Json
  import opened Text

  const DataPrefix := "data:"
  const DoneSentinel := "[DONE]"

  const EventTypeKey := "eventType"
  const Fulfillment := "fulfillment"
  const MetricsLog := "metricsLog"
  const AnswerKey := "answer"
  const SessionIdKey := "sessionId"
  const MessageIdKey := "messageId"
  const PublicMetricsKey := "publicMetrics"

  /**
   * The four local variables of the read loop. `metrics` is None when the
   * variable holds a C# null.
   */
  datatype Acc = Acc(
    fullAnswer: string,
    sessionId: string,
    messageId: string,
    metrics: Option<JObject>)

  /** The state before the first line: empty strings and an empty dictionary. */
  const Initial := Acc("", "", "", Some(map[]))

  /** How the read loop treats one line. */
  datatype LineKind =
    | Ignored              // not a `data:` line
    | Done                 // the terminator: the loop breaks
    | Payload(data: string)

  /**
   * Prefix test, then `Substring(5).Trim()`, then the comparison with `[DONE]`.
   * Exactly the `data:` lines are read; a payload is never the terminator and
   * has no white space at either end.
   */
  function Classify(line: string): (k: LineKind)
    ensures k.Ignored? <==> !(DataPrefix <= line)
    ensures k.Payload? ==> k.data != DoneSentinel && |k.data| <= |line| - |DataPrefix|
    ensures k.Payload? && k.data != [] ==> !IsWhiteSpace(k.data[0]) && !IsWhiteSpace(k.data[|k.data| - 1])
  {
    if !(DataPrefix <= line) then Ignored
    else
      var data := Trim(line[|DataPrefix|..]);
      if data == DoneSentinel then Done else Payload(data)
  }

  /** `ToString()` of a property the event holds would throw: its value is null. */
  predicate Throws(event: JObject, key: string) {
    key in event && event[key].JNull?
  }

  /**
   * `eventDict["eventType"].ToString()`, or None when that throws: the key is
   * missing (KeyNotFoundException) or its value is null.
   */
  function EventType(event: JObject): (t: Option<string>)
    ensures t.Some? <==> EventTypeKey in event && !Throws(event, EventTypeKey)
    ensures t.Some? ==> event[EventTypeKey] == JElem(t.value)
  {
    if EventTypeKey in event && event[EventTypeKey].JElem? then Some(event[EventTypeKey].text) else None
  }

  /**
   * A `fulfillment` event: append `answer`, then overwrite `sessionId`, then
   * overwrite `messageId`, each only when the key is present. A null value
   * throws, which abandons the updates after it and keeps those before it.
   */
  function ApplyFulfillment(acc: Acc, event: JObject): (r: Acc)
    ensures r.metrics == acc.metrics
    ensures acc.fullAnswer <= r.fullAnswer
    ensures r.fullAnswer != acc.fullAnswer ==>
              AnswerKey in event && event[AnswerKey] == JElem(r.fullAnswer[|acc.fullAnswer|..])
    ensures r.sessionId != acc.sessionId ==> SessionIdKey in event && event[SessionIdKey] == JElem(r.sessionId)
    ensures r.messageId != acc.messageId ==> MessageIdKey in event && event[MessageIdKey] == JElem(r.messageId)
    ensures Throws(event, AnswerKey) ==> r == acc
    ensures AnswerKey in event && event[AnswerKey].JElem? ==> r.fullAnswer == acc.fullAnswer + event[AnswerKey].text
    ensures !Throws(event, AnswerKey) && SessionIdKey in event && event[SessionIdKey].JElem? ==>
              r.sessionId == event[SessionIdKey].text
    ensures !Throws(event, AnswerKey) && !Throws(event, SessionIdKey) && MessageIdKey in event && event[MessageIdKey].JElem? ==>
              r.messageId == event[MessageIdKey].text
    ensures Throws(event, SessionIdKey) ==> r.messageId == acc.messageId
  {
    if Throws(event, AnswerKey) then acc
    else
      var withAnswer :=
        if AnswerKey in event then acc.(fullAnswer := acc.fullAnswer + event[AnswerKey].text) else acc;
      if Throws(event, SessionIdKey) then withAnswer
      else
        var withSession :=
          if SessionIdKey in event then withAnswer.(sessionId := event[SessionIdKey].text) else withAnswer;
        if Throws(event, MessageIdKey) then withSession
        else if MessageIdKey in event then withSession.(messageId := event[MessageIdKey].text)
        else withSession
  }

  /**
   * A `metricsLog` event: the rendering of `publicMetrics` is deserialised
   * again and replaces the whole metrics dictionary. A null value or a
   * rendering that does not deserialise throws and changes nothing; a
   * rendering that deserialises to null makes metrics null.
   */
  function ApplyMetricsLog(decode: Decoder, acc: Acc, event: JObject): (r: Acc)
    ensures r.(metrics := acc.metrics) == acc
    ensures r.metrics != acc.metrics ==>
              && PublicMetricsKey in event && event[PublicMetricsKey].JElem?
              && decode(event[PublicMetricsKey].text) == (if r.metrics.Some? then Object(r.metrics.value) else NullDocument)
    ensures PublicMetricsKey !in event || Throws(event, PublicMetricsKey) || decode(event[PublicMetricsKey].text).Malformed? ==>
              r == acc
    ensures PublicMetricsKey in event && event[PublicMetricsKey].JElem? && decode(event[PublicMetricsKey].text).Object? ==>
              r.metrics == Some(decode(event[PublicMetricsKey].text).fields)
    ensures PublicMetricsKey in event && event[PublicMetricsKey].JElem? && decode(event[PublicMetricsKey].text).NullDocument? ==>
              r.metrics == None
  {
    if PublicMetricsKey !in event then acc
    else
      match event[PublicMetricsKey]
      case JNull => acc
      case JElem(text) =>
        match decode(text)
        case Malformed => acc
        case NullDocument => acc.(metrics := None)
        case Object(fields) => acc.(metrics := Some(fields))
  }

  /** The payload reaches one of the two handled event types. */
  predicate Handled(decode: Decoder, p: string) {
    decode(p).Object? && EventType(decode(p).fields) in {Some(Fulfillment), Some(MetricsLog)}
  }

  /**
   * The `try` block for one payload, with the `catch` that skips it. A
   * payload that does not deserialise to an object, lacks a usable
   * `eventType` or has another event type changes nothing; only `fulfillment`
   * touches the answer and the identifiers, only `metricsLog` the metrics.
   * These are frame conditions: the whole effect of a payload, as an append
   * to the answer and three last-writer writes, is `EventEffect` in
   * `StreamProperties`.
   */
  function ApplyEvent(decode: Decoder, acc: Acc, payload: string): (r: Acc)
    ensures acc.fullAnswer <= r.fullAnswer
    ensures !Handled(decode, payload) ==> r == acc
    ensures r.(metrics := acc.metrics) != acc ==>
              decode(payload).Object? && EventType(decode(payload).fields) == Some(Fulfillment)
    ensures r.metrics != acc.metrics ==>
              decode(payload).Object? && EventType(decode(payload).fields) == Some(MetricsLog)
  {
    match decode(payload)
    case Object(event) =>
      (match EventType(event)
       case None => acc
       case Some(t) =>
         if t == Fulfillment then ApplyFulfillment(acc, event)
         else if t == MetricsLog then ApplyMetricsLog(decode, acc, event)
         else acc)
    case _ => acc  // JsonException, or a NullReferenceException on a null document
  }

  /**
   * The read loop from state `acc` over `lines`, up to the first terminator.
   * It never removes answer text, and lines without the `data:` prefix leave
   * the state as it is.
   */
  function Fold(decode: Decoder, acc: Acc, lines: seq<string>): (r: Acc)
    ensures acc.fullAnswer <= r.fullAnswer
    ensures (forall i :: 0 <= i < |lines| ==> !(DataPrefix <= lines[i])) ==> r == acc
    decreases |lines|
  {
    if lines == [] then acc
    else
      match Classify(lines[0])
      case Ignored => Fold(decode, acc, lines[1..])
      case Done => acc
      case Payload(p) => Fold(decode, ApplyEvent(decode, acc, p), lines[1..])
  }

  /**
   * The result of reading a whole response body. A body without `data:`
   * lines gives an empty answer, empty identifiers and an empty metrics
   * dictionary.
   */
  function Accumulate(decode: Decoder, lines: seq<string>): (r: Acc)
    ensures (forall i :: 0 <= i < |lines| ==> !(DataPrefix <= lines[i])) ==> r == Acc("", "", "", Some(map[]))
  {
    Fold(decode, Initial, lines)
  }

  /**
   * The read loop of `SubmitQuery` as the program runs it: four locals
   * updated in place, `break` on the terminator and a skip of the rest of a
   * payload wherever the program would throw into its `catch`.
   */
  method AccumulateStream(decode: Decoder, lines: seq<string>)
    returns (fullAnswer: string, finalSessionId: string, finalMessageId: string, metrics: Option<JObject>)
    ensures Acc(fullAnswer, finalSessionId, finalMessageId, metrics) == Accumulate(decode, lines)
  {
    fullAnswer, finalSessionId, finalMessageId, metrics := "", "", "", Some(map[]);
    for i := 0 to |lines|
      invariant Fold(decode, Acc(fullAnswer, finalSessionId, finalMessageId, metrics), lines[i..])
             == Accumulate(decode, lines)
    {
      var line := lines[i];
      ghost var before := Acc(fullAnswer, finalSessionId, finalMessageId, metrics);
      assert lines[i..] == [line] + lines[i + 1..];
      if DataPrefix <= line {
        var dataStr := Trim(line[|DataPrefix|..]);
        if dataStr == DoneSentinel {
          break;
        }
        assert Classify(line) == Payload(dataStr);
        ghost var after := ApplyEvent(decode, before, dataStr);
        assert Fold(decode, before, lines[i..]) == Fold(decode, after, lines[i + 1..]);
        var parsed := decode(dataStr);
        if !parsed.Object? {
          continue;
        }
        var eventDict := parsed.fields;
        if EventTypeKey !in eventDict || eventDict[EventTypeKey].JNull? {
          continue;
        }
        var eventType := eventDict[EventTypeKey].text;
        if eventType == Fulfillment {
          assert after == ApplyFulfillment(before, eventDict);
          if AnswerKey in eventDict {
            if eventDict[AnswerKey].JNull? {
              continue;
            }
            fullAnswer := fullAnswer + eventDict[AnswerKey].text;
          }
          if SessionIdKey in eventDict {
            if eventDict[SessionIdKey].JNull? {
              continue;
            }
            finalSessionId := eventDict[SessionIdKey].text;
          }
          if MessageIdKey in eventDict {
            if eventDict[MessageIdKey].JNull? {
              continue;
            }
            finalMessageId := eventDict[MessageIdKey].text;
          }
        } else if eventType == MetricsLog {
          assert after == ApplyMetricsLog(decode, before, eventDict);
          if PublicMetricsKey in eventDict {
            var publicMetrics := eventDict[PublicMetricsKey];
            if publicMetrics.JNull? {
              continue;
            }
            var reparsed := decode(publicMetrics.text);
            if reparsed.Malformed? {
              continue;
            }
            metrics := if reparsed.Object? then Some(reparsed.fields) else None;
          }
        }
      }
    }
  }
}
