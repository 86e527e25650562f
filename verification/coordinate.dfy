/** `NMEAParser::convertToDecimalDegrees`: `DDMM.MMMM` (or `DDDMM.MMMM`) plus
    a hemisphere letter to signed decimal degrees.

    Only the text handling is modelled exactly: where the degree and minute
    texts are cut and when the sign flips. Turning text into a number
    (`std::stod`) is the parameter `stod`, None where `stod` throws, and the
    arithmetic is exact real arithmetic. */
module Coordinate {
  import opened Wrappers
  import opened Text

  /** How a position field is cut, or NoCoordinate on the early `return 0.0`. */
  datatype Cut = NoCoordinate | Cut(degrees: string, minutes: string, negate: bool)

  function CutCoordinate(pos: string, direction: string): (c: Cut)
    ensures c.Cut? <==> '.' in pos && (|pos| > 0 ==> pos[0] != '.') && (|pos| > 1 ==> pos[1] != '.')
    ensures c.Cut? ==> c.degrees + c.minutes == pos
    ensures c.Cut? ==> |c.minutes| >= 3 && c.minutes[2] == '.'
    ensures c.Cut? ==> '.' !in c.degrees + c.minutes[..2]
    ensures c.Cut? ==> (c.negate <==> direction == "S" || direction == "W")
  {
    if pos == [] then NoCoordinate
    else match Find(pos, '.')
      case None => NoCoordinate
      case Some(dot) =>
        if dot < 2 then NoCoordinate
        else
          var minutesStart := dot - 2;
          FirstDotFacts(pos, dot);
          Cut(pos[..minutesStart], pos[minutesStart..], direction == "S" || direction == "W")
  }

  lemma FirstDotFacts(pos: string, dot: nat)
    requires Find(pos, '.') == Some(dot) && dot >= 2
    ensures '.' !in pos[..dot - 2] + pos[dot - 2..][..2]
  {
    assert pos[..dot - 2] + pos[dot - 2..][..2] == pos[..dot];
  }

  /** `safeStod`: empty text and text `stod` rejects both read as 0. */
  function SafeStod(text: string, stod: string -> Option<real>): (v: real)
    ensures text == [] ==> v == 0.0
    ensures text != [] && stod(text).Some? ==> v == stod(text).value
    ensures stod(text).None? ==> v == 0.0
  {
    if text == [] then 0.0 else stod(text).GetOr(0.0)
  }

  /** `degrees + minutes / 60`, negated for the southern and western
      hemispheres. */
  function Combine(degrees: real, minutes: real, negate: bool): (r: real)
    ensures (if negate then -r else r) * 60.0 == degrees * 60.0 + minutes
    ensures degrees >= 0.0 && minutes >= 0.0 ==> (if negate then r <= 0.0 else r >= 0.0)
  {
    var magnitude := degrees + minutes / 60.0;
    if negate then -magnitude else magnitude
  }

  /** The `src/` version: every numeric conversion is failure-tolerant. */
  function ConvertToDecimalDegrees(pos: string, direction: string, stod: string -> Option<real>): (r: real)
    ensures CutCoordinate(pos, direction).NoCoordinate? ==> r == 0.0
  {
    match CutCoordinate(pos, direction)
    case NoCoordinate => 0.0
    case Cut(deg, min, negate) => Combine(SafeStod(deg, stod), SafeStod(min, stod), negate)
  }

  /** The hemisphere only flips the sign: "S" mirrors "N" and "W" mirrors
      "E", and any other letter (including lower case) reads like "N". */
  lemma HemisphereSign(pos: string, direction: string, stod: string -> Option<real>)
    ensures ConvertToDecimalDegrees(pos, "S", stod) == -ConvertToDecimalDegrees(pos, "N", stod)
    ensures ConvertToDecimalDegrees(pos, "W", stod) == ConvertToDecimalDegrees(pos, "S", stod)
    ensures direction != "S" && direction != "W" ==>
      ConvertToDecimalDegrees(pos, direction, stod) == ConvertToDecimalDegrees(pos, "N", stod)
  {
  }

  /** Where the cut falls once the first `.` is known. */
  lemma CutAtFirstDot(head: string, tail: string, direction: string)
    requires '.' !in head && |head| >= 2
    ensures CutCoordinate(head + ['.'] + tail, direction)
            == Cut(head[..|head| - 2], head[|head| - 2..] + ['.'] + tail, direction == "S" || direction == "W")
  {
    var pos := head + ['.'] + tail;
    FindAfter(head, '.', tail);
    assert pos[..|head| - 2] == head[..|head| - 2];
    assert pos[|head| - 2..] == head[|head| - 2..] + ['.'] + tail;
  }

  /** A field whose first `.` follows at least two characters converts the
      text before the last two of them as degrees and the rest, from those
      two characters on, as minutes. */
  lemma CutValue(head: string, tail: string, direction: string, stod: string -> Option<real>)
    requires '.' !in head && |head| >= 2
    ensures ConvertToDecimalDegrees(head + ['.'] + tail, direction, stod)
            == Combine(SafeStod(head[..|head| - 2], stod), SafeStod(head[|head| - 2..] + ['.'] + tail, stod),
                       direction == "S" || direction == "W")
  {
    CutAtFirstDot(head, tail, direction);
  }

  /** "4807.038" is 48 degrees and 07.038 minutes, north positive and south
      negative. */
  lemma LatitudeExample(stod: string -> Option<real>)
    ensures ConvertToDecimalDegrees("4807.038", "N", stod) == Combine(SafeStod("48", stod), SafeStod("07.038", stod), false)
    ensures ConvertToDecimalDegrees("4807.038", "S", stod) == Combine(SafeStod("48", stod), SafeStod("07.038", stod), true)
  {
    assert "4807.038" == "4807" + ['.'] + "038";
    assert "4807"[..2] == "48";
    assert "4807"[2..] + ['.'] + "038" == "07.038";
    CutValue("4807", "038", "N", stod);
    CutValue("4807", "038", "S", stod);
  }

  /** A first `.` at index 2 is a field with no whole degrees: the empty
      degree text reads as 0 and the value is the minutes alone. */
  lemma DotAtTwoIsMinutesOnly(head: string, tail: string, direction: string, stod: string -> Option<real>)
    requires |head| == 2 && '.' !in head
    ensures ConvertToDecimalDegrees(head + ['.'] + tail, direction, stod)
            == Combine(0.0, SafeStod(head + ['.'] + tail, stod), direction == "S" || direction == "W")
  {
    CutAtFirstDot(head, tail, direction);
    assert head[..0] == [] && head[0..] == head;
  }
}
