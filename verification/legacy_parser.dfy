/** The older `NMEAParser` in the repository root (`NMEAParser.cpp`, declared
    by `NMEAParser.h`). Its checksum validator, splitter and hex converter are
    textually the same as in `src/` and are shared with that model; what
    differs is that `parse` has no listeners and that the coordinate
    converter calls `std::stod` without catching its exceptions. */
module LegacyNmeaParser {
  import opened Wrappers
  import opened Checksum
  import opened Tokenizer
  import opened GpsData
  import opened Coordinate
  import NmeaParser

  /** `NMEAParser::parse` in the root: a pure function of the sentence. */
  function Parse(handlers: NmeaParser.Handlers, sentence: string): (r: GpsData)
    ensures !ValidateChecksum(sentence) ==> r == Default()
    ensures NmeaParser.Tag(sentence) != NmeaParser.GgaTag && NmeaParser.Tag(sentence) != NmeaParser.RmcTag
            ==> r == Default() && !r.isValid
  {
    if !ValidateChecksum(sentence) then Default()
    else
      var tokens := Split(sentence, ',');
      if tokens == [] then Default()
      else match NmeaParser.Dispatch(handlers, tokens[0])
        case None => Default().(isValid := false)
        case Some(handler) => handler(tokens, Default().(isValid := true))
  }

  /** Given the same handler functions, both versions return the same record
      for every sentence; the newer one only adds the listener calls. Handlers
      are taken to return normally. */
  lemma SameRecordAsNewer<L>(p: NmeaParser.Parser<L>, handlers: NmeaParser.Handlers, sentence: string)
    ensures Parse(handlers, sentence) == NmeaParser.Parse(p, handlers, sentence).fix
  {
  }

  /** Both cut texts are numbers `std::stod` accepts; otherwise the older
      converter throws out of `parse`. */
  predicate Convertible(pos: string, direction: string, stod: string -> Option<real>)
  {
    match CutCoordinate(pos, direction)
    case NoCoordinate => true
    case Cut(deg, min, _) => stod(deg).Some? && stod(min).Some?
  }

  /** `NMEAParser::convertToDecimalDegrees` in the root. */
  function ConvertToDecimalDegrees(pos: string, direction: string, stod: string -> Option<real>): (r: real)
    requires Convertible(pos, direction, stod)
    ensures CutCoordinate(pos, direction).NoCoordinate? ==> r == 0.0
  {
    match CutCoordinate(pos, direction)
    case NoCoordinate => 0.0
    case Cut(deg, min, negate) => Combine(stod(deg).value, stod(min).value, negate)
  }

  /** Where the older converter does not throw, it agrees with the newer,
      guarded one, provided `stod` rejects the empty text as `std::stod`
      does. The only input the guard newly admits is a `.` at index 2, whose
      empty degree text the older version passes to `std::stod`. */
  lemma GuardedAgrees(pos: string, direction: string, stod: string -> Option<real>)
    requires stod([]).None?
    requires Convertible(pos, direction, stod)
    ensures ConvertToDecimalDegrees(pos, direction, stod)
            == Coordinate.ConvertToDecimalDegrees(pos, direction, stod)
  {
  }

  /** Where both cut texts convert, a field whose first `.` follows at least
      two characters reads the text before the last two of them as degrees
      and the rest as minutes. */
  lemma CutValue(head: string, tail: string, direction: string, stod: string -> Option<real>)
    requires '.' !in head && |head| >= 2
    requires Convertible(head + ['.'] + tail, direction, stod)
    ensures stod(head[..|head| - 2]).Some? && stod(head[|head| - 2..] + ['.'] + tail).Some?
    ensures ConvertToDecimalDegrees(head + ['.'] + tail, direction, stod)
            == Combine(stod(head[..|head| - 2]).value, stod(head[|head| - 2..] + ['.'] + tail).value,
                       direction == "S" || direction == "W")
  {
    CutAtFirstDot(head, tail, direction);
  }

  /** A `.` at index 2 leaves the degree text empty, so the older converter
      needs `std::stod("")`, which throws. */
  lemma DotAtTwoThrows(head: string, tail: string, direction: string, stod: string -> Option<real>)
    requires stod([]).None? && |head| == 2 && '.' !in head
    ensures !Convertible(head + ['.'] + tail, direction, stod)
  {
    CutAtFirstDot(head, tail, direction);
  }
}
