/** `GPSData`, the record `NMEAParser::parse` returns (`NMEAParser.h`).
    The C++ `double` fields are exact reals here; floating-point rounding is
    not modelled. */
module GpsData {
  import opened Wrappers

  datatype GpsData = GpsData(
    timestamp: real,        // UTC time as hhmmss.ss
    latitude: real,         // signed decimal degrees
    longitude: real,        // signed decimal degrees
    altitude: real,         // metres above sea level
    fixQuality: int,        // 0 = invalid, 1 = GPS fix, 2 = DGPS fix
    satellites: int,
    isValid: bool,
    speed: real,            // knots over ground
    course: real,           // degrees true
    date: string,           // DDMMYY
    sentenceType: string    // "GPGGA" or "GPRMC"; the C++ member is `type`
  )

  /** A record that carries nothing: every number 0, both strings empty and
      `isValid` false. */
  predicate IsEmptyRecord(g: GpsData)
  {
    && g.timestamp == 0.0 && g.latitude == 0.0 && g.longitude == 0.0 && g.altitude == 0.0
    && g.fixQuality == 0 && g.satellites == 0
    && !g.isValid
    && g.speed == 0.0 && g.course == 0.0
    && g.date == [] && g.sentenceType == []
  }

  /** `GPSData result;`: the default member initialisers of the struct. */
  function Default(): (g: GpsData)
    ensures IsEmptyRecord(g)
  {
    GpsData(0.0, 0.0, 0.0, 0.0, 0, 0, false, 0.0, 0.0, "", "")
  }

  /** There is exactly one empty record, so "the default" is well defined. */
  lemma EmptyRecordIsDefault(g: GpsData)
    requires IsEmptyRecord(g)
    ensures g == Default()
  {
  }

  /** The meaning of `fixQuality`. */
  datatype FixQuality = NoFix | GpsFix | DgpsFix

  function QualityCode(q: FixQuality): (code: int)
    ensures 0 <= code <= 2
  {
    match q
    case NoFix => 0
    case GpsFix => 1
    case DgpsFix => 2
  }

  /** The quality a stored code stands for; codes outside 0..2 have none. */
  function QualityOf(code: int): (q: Option<FixQuality>)
    ensures q.Some? <==> 0 <= code <= 2
  {
    if code == 0 then Some(NoFix)
    else if code == 1 then Some(GpsFix)
    else if code == 2 then Some(DgpsFix)
    else None
  }

  /** The encoding is a bijection between the three qualities and 0..2. */
  lemma QualityRoundTrip(q: FixQuality, code: int)
    ensures QualityOf(QualityCode(q)) == Some(q)
    ensures 0 <= code <= 2 ==> QualityCode(QualityOf(code).value) == code
  {
  }
}
