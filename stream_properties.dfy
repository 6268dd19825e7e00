/**
 * What the read loop promises, proved about `Stream.Fold`.
 *
 * The loop is first split into its two halves: the line classifier, which
 * turns the lines into the payloads handled before the terminator
 * (`Payloads`), and the dispatcher folded over those payloads
 * (`FoldPayloads`). Each payload's effect on each variable is then read off
 * the decoded event directly (`Fragment`, `IdWrite`, `MetricsWrite`), and the
 * variables at the end are characterised by those effects alone.
 */
module StreamProperties {
  import opened Wrappers
  import opened Json
  import opened Text
  import opened Writes
  import opened Stream

  // ----- The classifier and the dispatcher, separately -----

  /** The payloads the loop dispatches: those of the `data:` lines before the first terminator. */
  function Payloads(lines: seq<string>): (ps: seq<string>)
    ensures |ps| <= |lines|
    ensures forall i :: 0 <= i < |ps| ==> ps[i] != DoneSentinel
  {
    if lines == [] then []
    else
      match Classify(lines[0])
      case Ignored => Payloads(lines[1..])
      case Done => []
      case Payload(p) => [p] + Payloads(lines[1..])
  }

  /** The dispatcher applied to each payload in turn. */
  function FoldPayloads(decode: Decoder, acc: Acc, ps: seq<string>): Acc
    decreases |ps|
  {
    if ps == [] then acc else FoldPayloads(decode, ApplyEvent(decode, acc, ps[0]), ps[1..])
  }

  /** The read loop is the dispatcher folded over the classified payloads. */
  lemma {:induction false} FoldIsFoldOverPayloads(decode: Decoder, acc: Acc, lines: seq<string>)
    ensures Fold(decode, acc, lines) == FoldPayloads(decode, acc, Payloads(lines))
    decreases |lines|
  {
    if lines != [] {
      match Classify(lines[0])
      case Ignored => FoldIsFoldOverPayloads(decode, acc, lines[1..]);
      case Done =>
      case Payload(p) =>
        FoldIsFoldOverPayloads(decode, ApplyEvent(decode, acc, p), lines[1..]);
        assert ([p] + Payloads(lines[1..]))[1..] == Payloads(lines[1..]);
    }
  }

  /** Handling one more payload at the end. */
  lemma {:induction false} FoldPayloadsSnoc(decode: Decoder, acc: Acc, ps: seq<string>, p: string)
    ensures FoldPayloads(decode, acc, ps + [p]) == ApplyEvent(decode, FoldPayloads(decode, acc, ps), p)
    decreases |ps|
  {
    if ps != [] {
      assert (ps + [p])[1..] == ps[1..] + [p];
      FoldPayloadsSnoc(decode, ApplyEvent(decode, acc, ps[0]), ps[1..], p);
    }
  }

  // ----- The effect of one payload on each variable -----

  /**
   * The text one payload appends to the answer: the `answer` of a
   * `fulfillment` event, and nothing for any other payload.
   */
  function Fragment(decode: Decoder, p: string): (r: string)
    ensures r != "" ==>
              && decode(p).Object? && EventType(decode(p).fields) == Some(Fulfillment)
              && AnswerKey in decode(p).fields && decode(p).fields[AnswerKey] == JElem(r)
    ensures !Handled(decode, p) ==> r == ""
  {
    match decode(p)
    case Object(event) =>
      if EventType(event) == Some(Fulfillment) && AnswerKey in event && event[AnswerKey].JElem?
      then event[AnswerKey].text
      else ""
    case _ => ""
  }

  /** The two identifiers a `fulfillment` event may overwrite. */
  datatype IdField = SessionIdField | MessageIdField

  /** The property of a `fulfillment` event that carries the identifier. */
  function IdKey(f: IdField): string {
    match f
    case SessionIdField => SessionIdKey
    case MessageIdField => MessageIdKey
  }

  function IdOf(acc: Acc, f: IdField): string {
    match f
    case SessionIdField => acc.sessionId
    case MessageIdField => acc.messageId
  }

  /** A non-null value under `key` is written; otherwise nothing is. */
  function TextWrite(event: JObject, key: string): Write<string> {
    if key in event && event[key].JElem? then Set(event[key].text) else Keep
  }

  /**
   * What one payload writes to an identifier: a `fulfillment` event writes
   * the value it carries, unless a null value earlier in the order answer,
   * sessionId, messageId has already thrown.
   */
  function IdWrite(decode: Decoder, p: string, f: IdField): (w: Write<string>)
    ensures w.Set? ==>
              && decode(p).Object? && EventType(decode(p).fields) == Some(Fulfillment)
              && !Throws(decode(p).fields, AnswerKey)
              && IdKey(f) in decode(p).fields && decode(p).fields[IdKey(f)] == JElem(w.value)
    ensures w.Set? && f == MessageIdField ==> !Throws(decode(p).fields, SessionIdKey)
  {
    match decode(p)
    case Object(event) =>
      if EventType(event) != Some(Fulfillment) || Throws(event, AnswerKey) then Keep
      else
        (match f
         case SessionIdField => TextWrite(event, SessionIdKey)
         case MessageIdField => if Throws(event, SessionIdKey) then Keep else TextWrite(event, MessageIdKey))
    case _ => Keep
  }

  /**
   * What one payload writes to metrics: the whole document that the
   * `publicMetrics` rendering of a `metricsLog` event deserialises to.
   */
  function MetricsWrite(decode: Decoder, p: string): (w: Write<Option<JObject>>)
    ensures w.Set? ==>
              && decode(p).Object? && EventType(decode(p).fields) == Some(MetricsLog)
              && PublicMetricsKey in decode(p).fields && decode(p).fields[PublicMetricsKey].JElem?
              && decode(decode(p).fields[PublicMetricsKey].text)
                 == (if w.value.Some? then Object(w.value.value) else NullDocument)
  {
    match decode(p)
    case Object(event) =>
      if EventType(event) != Some(MetricsLog) || PublicMetricsKey !in event then Keep
      else
        (match event[PublicMetricsKey]
         case JNull => Keep
         case JElem(text) =>
           match decode(text)
           case Malformed => Keep
           case NullDocument => Set(None)
           case Object(m) => Set(Some(m)))
    case _ => Keep
  }

  /** One payload's whole effect: an append to the answer and three independent writes. */
  lemma EventEffect(decode: Decoder, acc: Acc, p: string)
    ensures ApplyEvent(decode, acc, p) == Acc(
      acc.fullAnswer + Fragment(decode, p),
      Override(acc.sessionId, IdWrite(decode, p, SessionIdField)),
      Override(acc.messageId, IdWrite(decode, p, MessageIdField)),
      Override(acc.metrics, MetricsWrite(decode, p)))
  {
  }

  // ----- The answer: in-order concatenation, growing only -----

  /** The fragments of `ps`, in order. */
  function Joined(decode: Decoder, ps: seq<string>): string {
    if ps == [] then "" else Fragment(decode, ps[0]) + Joined(decode, ps[1..])
  }

  lemma {:induction false} AnswerIsJoined(decode: Decoder, acc: Acc, ps: seq<string>)
    ensures FoldPayloads(decode, acc, ps).fullAnswer == acc.fullAnswer + Joined(decode, ps)
    decreases |ps|
  {
    if ps != [] {
      var next := ApplyEvent(decode, acc, ps[0]);
      var fragment, rest := Fragment(decode, ps[0]), Joined(decode, ps[1..]);
      calc {
        FoldPayloads(decode, acc, ps).fullAnswer;
        FoldPayloads(decode, next, ps[1..]).fullAnswer;
        { AnswerIsJoined(decode, next, ps[1..]); }
        next.fullAnswer + rest;
        { EventEffect(decode, acc, ps[0]); }
        (acc.fullAnswer + fragment) + rest;
        acc.fullAnswer + (fragment + rest);
        acc.fullAnswer + Joined(decode, ps);
      }
    }
  }

  /** The final answer is the concatenation of the answers of the dispatched payloads, in order. */
  lemma FinalAnswer(decode: Decoder, lines: seq<string>)
    ensures Accumulate(decode, lines).fullAnswer == Joined(decode, Payloads(lines))
  {
    FoldIsFoldOverPayloads(decode, Initial, lines);
    AnswerIsJoined(decode, Initial, Payloads(lines));
  }

  /** The answer after the first `k` lines is a prefix of the answer after all of them. */
  lemma {:induction false} AnswerPrefix(decode: Decoder, acc: Acc, lines: seq<string>, k: int)
    requires 0 <= k <= |lines|
    ensures Fold(decode, acc, lines[..k]).fullAnswer <= Fold(decode, acc, lines).fullAnswer
    decreases k
  {
    if k == 0 {
      assert lines[..k] == [];
    } else {
      assert lines[..k][0] == lines[0] && lines[..k][1..] == lines[1..][..k - 1];
      match Classify(lines[0])
      case Ignored => AnswerPrefix(decode, acc, lines[1..], k - 1);
      case Done =>
      case Payload(p) => AnswerPrefix(decode, ApplyEvent(decode, acc, p), lines[1..], k - 1);
    }
  }

  // ----- The identifiers and metrics: last writer wins -----

  function IdWrites(decode: Decoder, ps: seq<string>, f: IdField): seq<Write<string>> {
    seq(|ps|, i requires 0 <= i < |ps| => IdWrite(decode, ps[i], f))
  }

  function MetricsWrites(decode: Decoder, ps: seq<string>): seq<Write<Option<JObject>>> {
    seq(|ps|, i requires 0 <= i < |ps| => MetricsWrite(decode, ps[i]))
  }

  lemma {:induction false} IdIsLastWrite(decode: Decoder, acc: Acc, ps: seq<string>, f: IdField)
    ensures IdOf(FoldPayloads(decode, acc, ps), f) == LastWrite(IdOf(acc, f), IdWrites(decode, ps, f))
    decreases |ps|
  {
    if ps != [] {
      var front, last := ps[..|ps| - 1], ps[|ps| - 1];
      assert ps == front + [last];
      FoldPayloadsSnoc(decode, acc, front, last);
      EventEffect(decode, FoldPayloads(decode, acc, front), last);
      IdIsLastWrite(decode, acc, front, f);
      assert IdWrites(decode, ps, f)[..|ps| - 1] == IdWrites(decode, front, f);
    }
  }

  lemma {:induction false} MetricsIsLastWrite(decode: Decoder, acc: Acc, ps: seq<string>)
    ensures FoldPayloads(decode, acc, ps).metrics == LastWrite(acc.metrics, MetricsWrites(decode, ps))
    decreases |ps|
  {
    if ps != [] {
      var front, last := ps[..|ps| - 1], ps[|ps| - 1];
      assert ps == front + [last];
      FoldPayloadsSnoc(decode, acc, front, last);
      EventEffect(decode, FoldPayloads(decode, acc, front), last);
      MetricsIsLastWrite(decode, acc, front);
      assert MetricsWrites(decode, ps)[..|ps| - 1] == MetricsWrites(decode, front);
    }
  }

  /**
   * The final session id (message id) is the one written by the last
   * dispatched payload that writes it.
   */
  lemma IdLastWriterWins(decode: Decoder, lines: seq<string>, f: IdField, k: int)
    requires 0 <= k < |Payloads(lines)|
    requires IdWrite(decode, Payloads(lines)[k], f).Set?
    requires forall j :: k < j < |Payloads(lines)| ==> IdWrite(decode, Payloads(lines)[j], f).Keep?
    ensures IdOf(Accumulate(decode, lines), f) == IdWrite(decode, Payloads(lines)[k], f).value
  {
    var ps := Payloads(lines);
    FoldIsFoldOverPayloads(decode, Initial, lines);
    IdIsLastWrite(decode, Initial, ps, f);
    LastWriteIsLatestSet(IdOf(Initial, f), IdWrites(decode, ps, f), k);
  }

  /** Without a payload that writes it, the identifier stays empty. */
  lemma IdWithoutWriter(decode: Decoder, lines: seq<string>, f: IdField)
    requires forall j :: 0 <= j < |Payloads(lines)| ==> IdWrite(decode, Payloads(lines)[j], f).Keep?
    ensures IdOf(Accumulate(decode, lines), f) == ""
  {
    var ps := Payloads(lines);
    FoldIsFoldOverPayloads(decode, Initial, lines);
    IdIsLastWrite(decode, Initial, ps, f);
    LastWriteWithoutSet(IdOf(Initial, f), IdWrites(decode, ps, f));
  }

  /** The final metrics are those of the last `metricsLog` event that replaced them: no merge. */
  lemma MetricsLastWriterWins(decode: Decoder, lines: seq<string>, k: int)
    requires 0 <= k < |Payloads(lines)|
    requires MetricsWrite(decode, Payloads(lines)[k]).Set?
    requires forall j :: k < j < |Payloads(lines)| ==> MetricsWrite(decode, Payloads(lines)[j]).Keep?
    ensures Accumulate(decode, lines).metrics == MetricsWrite(decode, Payloads(lines)[k]).value
  {
    var ps := Payloads(lines);
    FoldIsFoldOverPayloads(decode, Initial, lines);
    MetricsIsLastWrite(decode, Initial, ps);
    LastWriteIsLatestSet(Initial.metrics, MetricsWrites(decode, ps), k);
  }

  /** Without a replacing `metricsLog` event, metrics stay the empty dictionary. */
  lemma MetricsWithoutWriter(decode: Decoder, lines: seq<string>)
    requires forall j :: 0 <= j < |Payloads(lines)| ==> MetricsWrite(decode, Payloads(lines)[j]).Keep?
    ensures Accumulate(decode, lines).metrics == Some(map[])
  {
    var ps := Payloads(lines);
    FoldIsFoldOverPayloads(decode, Initial, lines);
    MetricsIsLastWrite(decode, Initial, ps);
    LastWriteWithoutSet(Initial.metrics, MetricsWrites(decode, ps));
  }

  // ----- Single events -----

  /** A `metricsLog` event replaces the whole dictionary and touches nothing else. */
  lemma MetricsReplacedWholesale(decode: Decoder, acc: Acc, p: string, event: JObject, text: string, m: JObject)
    requires decode(p) == Object(event) && EventType(event) == Some(MetricsLog)
    requires PublicMetricsKey in event && event[PublicMetricsKey] == JElem(text)
    requires decode(text) == Object(m)
    ensures ApplyEvent(decode, acc, p) == acc.(metrics := Some(m))
  {
  }

  /**
   * A `fulfillment` event carrying all three properties, whatever else it
   * carries, appends the answer and overwrites both identifiers.
   */
  lemma FulfillmentWithAllFields(decode: Decoder, acc: Acc, p: string, event: JObject,
                                 answer: string, sessionId: string, messageId: string)
    requires decode(p) == Object(event) && EventType(event) == Some(Fulfillment)
    requires AnswerKey in event && event[AnswerKey] == JElem(answer)
    requires SessionIdKey in event && event[SessionIdKey] == JElem(sessionId)
    requires MessageIdKey in event && event[MessageIdKey] == JElem(messageId)
    ensures ApplyEvent(decode, acc, p) == acc.(fullAnswer := acc.fullAnswer + answer, sessionId := sessionId, messageId := messageId)
  {
  }

  /** A `metricsLog` event whose `publicMetrics` is missing, null or not an object changes nothing. */
  lemma MetricsKept(decode: Decoder, acc: Acc, p: string, event: JObject)
    requires decode(p) == Object(event) && EventType(event) == Some(MetricsLog)
    requires PublicMetricsKey !in event || Throws(event, PublicMetricsKey)
          || decode(event[PublicMetricsKey].text).Malformed?
    ensures ApplyEvent(decode, acc, p) == acc
  {
  }

  /**
   * Inside a `fulfillment` event a null `sessionId` stops the updates after
   * the answer: the answer is appended, both identifiers are kept.
   */
  lemma FulfillmentStopsAtNull(decode: Decoder, acc: Acc, p: string, event: JObject, answer: string)
    requires decode(p) == Object(event) && EventType(event) == Some(Fulfillment)
    requires AnswerKey in event && event[AnswerKey] == JElem(answer)
    requires Throws(event, SessionIdKey)
    ensures ApplyEvent(decode, acc, p) == acc.(fullAnswer := acc.fullAnswer + answer)
  {
  }

  // ----- Lines -----

  /** A `data:` line yields its payload without the surrounding white space. */
  lemma ClassifyDataLine(pre: string, core: string, post: string)
    requires AllWhiteSpace(pre) && AllWhiteSpace(post)
    requires core == [] || (!IsWhiteSpace(core[0]) && !IsWhiteSpace(core[|core| - 1]))
    ensures Classify(DataPrefix + pre + core + post) == if core == DoneSentinel then Done else Payload(core)
  {
    var line := DataPrefix + pre + core + post;
    assert line[|DataPrefix|..] == pre + core + post;
    TrimPadding(pre, core, post);
  }

  /** Nothing after the terminator is read. */
  lemma {:induction false} DoneStops(decode: Decoder, acc: Acc, xs: seq<string>, done: string, ys: seq<string>)
    requires Classify(done) == Done
    ensures Fold(decode, acc, xs + [done] + ys) == Fold(decode, acc, xs)
    decreases |xs|
  {
    if xs == [] {
      assert (xs + [done] + ys)[0] == done;
    } else {
      assert (xs + [done] + ys)[0] == xs[0];
      assert (xs + [done] + ys)[1..] == xs[1..] + [done] + ys;
      match Classify(xs[0])
      case Ignored => DoneStops(decode, acc, xs[1..], done, ys);
      case Done =>
      case Payload(p) => DoneStops(decode, ApplyEvent(decode, acc, p), xs[1..], done, ys);
    }
  }

  /** Reading `xs` and then `ys` is reading `ys` from where `xs` left off, when `xs` has no terminator. */
  lemma {:induction false} FoldAppend(decode: Decoder, acc: Acc, xs: seq<string>, ys: seq<string>)
    requires forall i :: 0 <= i < |xs| ==> !Classify(xs[i]).Done?
    ensures Fold(decode, acc, xs + ys) == Fold(decode, Fold(decode, acc, xs), ys)
    decreases |xs|
  {
    if xs != [] {
      assert (xs + ys)[0] == xs[0];
      assert (xs + ys)[1..] == xs[1..] + ys;
      match Classify(xs[0])
      case Ignored => FoldAppend(decode, acc, xs[1..], ys);
      case Payload(p) => FoldAppend(decode, ApplyEvent(decode, acc, p), xs[1..], ys);
    } else {
      assert xs + ys == ys;
    }
  }

  /** A skipped payload, wherever it stands, gives the same result as leaving its line out. */
  lemma {:induction false} SkippedLineDoesNotInterrupt(decode: Decoder, acc: Acc, xs: seq<string>, line: string, ys: seq<string>)
    requires Classify(line).Payload? && !Handled(decode, Classify(line).data)
    ensures Fold(decode, acc, xs + [line] + ys) == Fold(decode, acc, xs + ys)
    decreases |xs|
  {
    if xs == [] {
      assert xs + [line] + ys == [line] + ys && xs + ys == ys;
      assert ([line] + ys)[0] == line && ([line] + ys)[1..] == ys;
    } else {
      assert (xs + [line] + ys)[0] == xs[0] && (xs + ys)[0] == xs[0];
      assert (xs + [line] + ys)[1..] == xs[1..] + [line] + ys;
      assert (xs + ys)[1..] == xs[1..] + ys;
      match Classify(xs[0])
      case Ignored => SkippedLineDoesNotInterrupt(decode, acc, xs[1..], line, ys);
      case Done =>
      case Payload(p) => SkippedLineDoesNotInterrupt(decode, ApplyEvent(decode, acc, p), xs[1..], line, ys);
    }
  }

  /** A line without the `data:` prefix, wherever it stands, gives the same result as leaving it out. */
  lemma {:induction false} IgnoredLineAnywhere(decode: Decoder, acc: Acc, xs: seq<string>, line: string, ys: seq<string>)
    requires !(DataPrefix <= line)
    ensures Fold(decode, acc, xs + [line] + ys) == Fold(decode, acc, xs + ys)
    decreases |xs|
  {
    if xs == [] {
      assert xs + [line] + ys == [line] + ys && xs + ys == ys;
      assert ([line] + ys)[0] == line && ([line] + ys)[1..] == ys;
    } else {
      assert (xs + [line] + ys)[0] == xs[0] && (xs + ys)[0] == xs[0];
      assert (xs + [line] + ys)[1..] == xs[1..] + [line] + ys;
      assert (xs + ys)[1..] == xs[1..] + ys;
      match Classify(xs[0])
      case Ignored => IgnoredLineAnywhere(decode, acc, xs[1..], line, ys);
      case Done =>
      case Payload(p) => IgnoredLineAnywhere(decode, ApplyEvent(decode, acc, p), xs[1..], line, ys);
    }
  }

  // ----- A whole response -----

  const FirstEvent := "{" + "\"eventType\":\"fulfillment\",\"answer\":\"Hi\",\"sessionId\":\"s1\",\"messageId\":\"m1\"" + "}"
  const SecondEvent := "{" + "\"eventType\":\"metricsLog\",\"publicMetrics\":{\"tokens\":5}" + "}"
  const Tokens := "{\"tokens\":5}"

  /** A `data: ` line whose payload is a JSON object text yields that payload. */
  lemma ClassifyObjectLine(fields: string)
    ensures Classify("data: " + ("{" + fields + "}")) == Payload("{" + fields + "}")
  {
    var core := "{" + fields + "}";
    assert core[0] == '{' && core[|core| - 1] == '}';
    assert core[0] != DoneSentinel[0];
    ClassifyDataLine(" ", core, "");
    assert DataPrefix + " " + core + "" == "data: " + core;
  }

  /** The terminator line as the server sends it. */
  lemma ClassifyDoneLine()
    ensures Classify("data: [DONE]") == Done
  {
    ClassifyDataLine(" ", DoneSentinel, "");
    assert DataPrefix + " " + DoneSentinel + "" == "data: [DONE]";
  }

  /** Two dispatched payloads and a terminator: the state after the second payload, whatever follows. */
  lemma TwoPayloadsThenDone(decode: Decoder, first: string, second: string, done: string, rest: seq<string>,
                            p1: string, p2: string)
    requires Classify(first) == Payload(p1) && Classify(second) == Payload(p2) && Classify(done) == Done
    ensures Accumulate(decode, [first, second, done] + rest)
         == ApplyEvent(decode, ApplyEvent(decode, Initial, p1), p2)
  {
    var lines := [first, second, done] + rest;
    var afterFirst := ApplyEvent(decode, Initial, p1);
    var afterSecond := ApplyEvent(decode, afterFirst, p2);
    assert lines[0] == first && lines[1..] == [second, done] + rest;
    assert Fold(decode, Initial, lines) == Fold(decode, afterFirst, [second, done] + rest);
    assert ([second, done] + rest)[0] == second && ([second, done] + rest)[1..] == [done] + rest;
    assert Fold(decode, afterFirst, [second, done] + rest) == Fold(decode, afterSecond, [done] + rest);
    assert ([done] + rest)[0] == done;
  }

  /**
   * A fulfillment event, a metrics event and the terminator give the answer,
   * both identifiers and the metrics, whatever follows the terminator.
   */
  lemma OneAnswerResponse(decode: Decoder, rest: seq<string>)
    requires decode(FirstEvent) == Object(map[
      EventTypeKey := JElem(Fulfillment), AnswerKey := JElem("Hi"),
      SessionIdKey := JElem("s1"), MessageIdKey := JElem("m1")])
    requires decode(SecondEvent) == Object(map[
      EventTypeKey := JElem(MetricsLog), PublicMetricsKey := JElem(Tokens)])
    requires decode(Tokens) == Object(map["tokens" := JElem("5")])
    ensures Accumulate(decode, ["data: " + FirstEvent, "data: " + SecondEvent, "data: [DONE]"] + rest)
         == Acc("Hi", "s1", "m1", Some(map["tokens" := JElem("5")]))
  {
    ClassifyObjectLine("\"eventType\":\"fulfillment\",\"answer\":\"Hi\",\"sessionId\":\"s1\",\"messageId\":\"m1\"");
    ClassifyObjectLine("\"eventType\":\"metricsLog\",\"publicMetrics\":{\"tokens\":5}");
    ClassifyDoneLine();
    TwoPayloadsThenDone(decode, "data: " + FirstEvent, "data: " + SecondEvent, "data: [DONE]", rest,
                        FirstEvent, SecondEvent);
    var first := decode(FirstEvent).fields;
    assert first[EventTypeKey] == JElem(Fulfillment) && first[AnswerKey] == JElem("Hi");
    assert first[SessionIdKey] == JElem("s1") && first[MessageIdKey] == JElem("m1");
    FulfillmentWithAllFields(decode, Initial, FirstEvent, first, "Hi", "s1", "m1");
    MetricsReplacedWholesale(decode, Acc("Hi", "s1", "m1", Some(map[])), SecondEvent,
                             map[EventTypeKey := JElem(MetricsLog), PublicMetricsKey := JElem(Tokens)],
                             Tokens, map["tokens" := JElem("5")]);
  }
}
