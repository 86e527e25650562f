/** `NMEAParser` as built from `src/NMEAParser.cpp`: validate, tokenize,
    dispatch on the first token, run the sentence handler, and notify the
    registered listeners of a valid fix.

    The bodies of the two sentence handlers are not part of this model: each
    is a parameter from the token list and the record so far to the record
    after the handler ran. A listener is an opaque value of type `L`; calling
    it is recorded as a `Notification` in the order the calls happen. */
module NmeaParser {
  import opened Wrappers
  import opened Checksum
  import opened Tokenizer
  import opened GpsData

  /** `INMEASentence::parse(tokens, data)`, with `data` passed in and out. */
  type Handler = (seq<string>, GpsData) -> GpsData

  /** The two concrete handlers the dispatcher knows. */
  datatype Handlers = Handlers(gga: Handler, rmc: Handler)

  const GgaTag: string := "$GPGGA"
  const RmcTag: string := "$GPRMC"

  /** The parser's only state: the listeners registered with `onFix`. */
  datatype Parser<L> = Parser(listeners: seq<L>)

  /** One call `listener(data)`. */
  datatype Notification<L> = Notification(listener: L, fix: GpsData)

  /** What `parse` returns, together with the listener calls it made. */
  datatype Outcome<L> = Outcome(fix: GpsData, calls: seq<Notification<L>>)

  /** `onFix`: append the callback; nothing already registered moves. */
  function OnFix<L>(p: Parser<L>, callback: L): (p': Parser<L>)
    ensures |p'.listeners| == |p.listeners| + 1
    ensures p'.listeners[..|p.listeners|] == p.listeners
    ensures p'.listeners[|p.listeners|] == callback
  {
    Parser(p.listeners + [callback])
  }

  /** `notifyListeners`: every listener is called once with `data`, in
      registration order. */
  function NotifyListeners<L>(listeners: seq<L>, data: GpsData): (calls: seq<Notification<L>>)
    ensures |calls| == |listeners|
    ensures forall i :: 0 <= i < |calls| ==> calls[i] == Notification(listeners[i], data)
  {
    if listeners == [] then []
    else NotifyListeners(listeners[..|listeners| - 1], data)
         + [Notification(listeners[|listeners| - 1], data)]
  }

  /** The handler the dispatcher picks for a first token, if any. */
  function Dispatch(handlers: Handlers, tag: string): (h: Option<Handler>)
    ensures h.Some? <==> tag == GgaTag || tag == RmcTag
    ensures tag == GgaTag ==> h == Some(handlers.gga)
    ensures tag == RmcTag ==> h == Some(handlers.rmc)
  {
    if tag == GgaTag then Some(handlers.gga)
    else if tag == RmcTag then Some(handlers.rmc)
    else None
  }

  /** `NMEAParser::parse` in `src/`. */
  function Parse<L>(p: Parser<L>, handlers: Handlers, sentence: string): (r: Outcome<L>)
    ensures !ValidateChecksum(sentence) ==> r == Outcome(Default(), [])
    ensures r.calls == (if r.fix.isValid then NotifyListeners(p.listeners, r.fix) else [])
  {
    if !ValidateChecksum(sentence) then Outcome(Default(), [])
    else
      var tokens := Split(sentence, ',');
      if tokens == [] then Outcome(Default(), [])
      else match Dispatch(handlers, tokens[0])
        case None => Outcome(Default(), [])
        case Some(handler) =>
          var data := handler(tokens, Default().(isValid := true));
          Outcome(data, if data.isValid then NotifyListeners(p.listeners, data) else [])
  }

  /** A sentence that passes the checksum contains a `$`, so it always has a
      first token: the `tokens.empty()` return is never taken. */
  lemma ValidSentenceHasTokens(sentence: string)
    requires ValidateChecksum(sentence)
    ensures Split(sentence, ',') != []
  {
  }

  /** The first token of a sentence, or the empty text when there is none. */
  function Tag(sentence: string): (tag: string)
    ensures ',' !in tag
  {
    var tokens := Split(sentence, ',');
    if tokens == [] then [] else tokens[0]
  }

  /** The two ways `parse` fails both return the all-default record and call
      no listener: a failed checksum, or a first token other than exactly
      `$GPGGA` or `$GPRMC`. */
  lemma InvalidPathsGiveDefault<L>(p: Parser<L>, handlers: Handlers, sentence: string)
    requires !ValidateChecksum(sentence) || (Tag(sentence) != GgaTag && Tag(sentence) != RmcTag)
    ensures Parse(p, handlers, sentence) == Outcome(Default(), [])
    ensures IsEmptyRecord(Parse(p, handlers, sentence).fix)
  {
  }

  /** A known tag hands the tokens to its handler with a record that is
      default except for `isValid`, set to true before the handler runs; the
      handler's result is what `parse` returns. */
  lemma KnownTagRunsHandler<L>(p: Parser<L>, handlers: Handlers, sentence: string)
    ensures ValidateChecksum(sentence) && (Tag(sentence) == GgaTag || Tag(sentence) == RmcTag) ==>
            var start := Default().(isValid := true);
            var tokens := Split(sentence, ',');
            Parse(p, handlers, sentence).fix
              == (if Tag(sentence) == GgaTag then handlers.gga(tokens, start) else handlers.rmc(tokens, start))
  {
  }

  /** Every listener call carries the returned record, which is valid. */
  lemma CallsOnlyForValidFix<L>(p: Parser<L>, handlers: Handlers, sentence: string)
    ensures var r := Parse(p, handlers, sentence);
            forall i :: 0 <= i < |r.calls| ==> r.calls[i].fix == r.fix && r.fix.isValid
  {
  }

  /** Notifying a list that ends with `callback` calls the earlier listeners
      first and `callback` last. */
  lemma NotifyAppend<L>(listeners: seq<L>, callback: L, data: GpsData)
    ensures NotifyListeners(listeners + [callback], data)
            == NotifyListeners(listeners, data) + [Notification(callback, data)]
  {
    assert (listeners + [callback])[..|listeners|] == listeners;
  }

  /** Registering one more listener does not change the record `parse`
      returns, and adds exactly one call, after all the others, when the
      record is valid. */
  lemma RegisterThenParse<L>(p: Parser<L>, callback: L, handlers: Handlers, sentence: string)
    ensures var before := Parse(p, handlers, sentence);
            var after := Parse(OnFix(p, callback), handlers, sentence);
            && after.fix == before.fix
            && after.calls == before.calls + (if before.fix.isValid then [Notification(callback, before.fix)] else [])
  {
    var before := Parse(p, handlers, sentence);
    NotifyAppend(p.listeners, callback, before.fix);
  }
}
