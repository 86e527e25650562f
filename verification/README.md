# GPS dashboard: NMEA front end and asset/WebSocket rules in Dafny

This project models the NMEA 0183 sentence front end of the GPS dashboard,
and the two small rules of its web server, as pure Dafny functions with
proved contracts.

The NMEA front end is `NMEAParser`. There are two versions: the current one in
`src/NMEAParser.cpp` and the older one in the repository root
(`NMEAParser.cpp`, declared by `NMEAParser.h`). The model covers:

- **Checksum rule.** The exclusive-or of everything strictly between the
  first `$` and the first `*` is compared with the two characters after the
  `*`. Those two characters are read by `std::stoi(…, 16)` with every error
  turned into 0.
- **Splitter.** A `std::getline` loop.
- **Coordinate converter.** How it cuts a `DDMM.MMMM` field and when it
  flips the sign.
- **Dispatcher.** It keys on the first token, `$GPGGA` or `$GPRMC`.
- **Observer list.** Only in `src/`: listeners registered with `onFix` and
  notified of each valid fix.

The checksum validator, the splitter and the hex converter of the root
version are textually identical to the `src/` ones
(`NMEAParser.cpp:60-105,139-149` against `src/NMEAParser.cpp:92-137,165-175`).
Both versions therefore share one definition. The root `parse` and the root
coordinate converter get their own models.

The web server is `WebServer`, again with a current version
(`src/WebServer.cpp`) and a root version (`WebServer.cpp`). The model covers:

- the `/assets/<string>` route: 404 on empty content, otherwise a
  Content-Type chosen by first-match substring tests on the file name;
- the WebSocket connection list: `onopen`, `onclose` with erase-remove, and
  `broadcast`.

Modules, one file each:

- `wrappers.dfy` (`Wrappers`): `Option`.
- `text.dfy` (`Text`): `std::string::find` for a character, and the substring
  test `find(p) != npos`.
- `bits.dfy` (`Bits`): exclusive-or on naturals and its algebra.
- `hex.dfy` (`Hex`): `hexToDecimal`, i.e. `std::stoi` in base 16 with its
  exceptions caught.
- `checksum.dfy` (`Checksum`): `validateChecksum`.
- `tokenizer.dfy` (`Tokenizer`): `split`.
- `gps_data.dfy` (`GpsData`): the `GPSData` record, its defaults and the
  `fixQuality` code.
- `coordinate.dfy` (`Coordinate`): `safeStod` and `convertToDecimalDegrees`
  of `src/`.
- `nmea_parser.dfy` (`NmeaParser`): `onFix`, `notifyListeners`, the
  dispatcher and `parse` of `src/`.
- `legacy_parser.dfy` (`LegacyNmeaParser`): `parse` and
  `convertToDecimalDegrees` of the root version.
- `asset_route.dfy` (`AssetRoute`): the asset route of both web servers.
- `connections.dfy` (`Connections`): the connection list of both web servers.

Parameters stand in for what the model does not define:

- The sentence handlers `GPGGASentence` and `GPRMCSentence` are a pair of
  functions from (tokens, record) to record.
- `std::stod` is a function from text to an optional real. It yields None
  where it would throw.
- A listener is an opaque value. `parse` returns the listener calls it makes
  as a list, next to the record.
- A WebSocket connection is a number standing for its address.
- The file contents the asset route serves are an input text. An empty text
  stands for a missing or empty file.

## Model

| member | source | states |
|---|---|---|
| Text.Find | src/NMEAParser.cpp:94-95 | `find(c)` is None exactly when `c` does not occur; otherwise it is an index holding `c` with no `c` before it |
| Text.Contains | src/WebServer.cpp:44 | `filename.find(p) != npos`: the empty pattern is always found, and a pattern is found only in a text at least as long |
| Text.ContainsAt | src/WebServer.cpp:44 | the substring test holds exactly when the pattern occurs at some index of the file name |
| Text.MissingCharNotContained | src/WebServer.cpp:44-53 | a file name lacking one character of a pattern does not contain the pattern |
| Hex.HexRunEnd | src/NMEAParser.cpp:170 | base-16 conversion reads the longest run of hex digits from its start; the character after the run is not a hex digit |
| Hex.ScanHex | src/NMEAParser.cpp:170 | the digits read start after the leading white space and at most one sign, which is always skipped; a `0x`/`0X` there is skipped exactly when a hex digit follows it; the digits read form the longest such run; the sign is negative iff the first non-space character is `-` |
| Hex.ParseHexInteger | src/NMEAParser.cpp:170 | no value exactly when no digit is read (where `std::stoi` throws `invalid_argument`); otherwise a magnitude below 16^n for n digits, negative only after a `-` |
| Hex.HexValue | src/NMEAParser.cpp:170 | a digit string of length n has a value below 16^n |
| Hex.HexToDecimal | src/NMEAParser.cpp:166-174 | the empty text gives 0, and every result fits a 32-bit `int`; a failed or overflowing conversion gives 0 (the root converter, `NMEAParser.cpp:140-149`, is the same function) |
| Hex.TwoHexDigits | src/NMEAParser.cpp:170 | two hex digits convert to 16·hi + lo |
| Hex.NonHexLeadIsZero | src/NMEAParser.cpp:169-174 | a first character that is neither space, sign nor hex digit makes the conversion throw, so the result is 0 |
| Hex.SpaceOrSignThenDigit | src/NMEAParser.cpp:170 | one white-space character or sign before a digit is accepted: " 7" gives 7, "+A" gives 10, "-1" gives -1 |
| Hex.TrailingGarbageIgnored | src/NMEAParser.cpp:170 | a hex digit followed by a non-digit converts to that digit alone ("4Z" gives 4) |
| Hex.TwoCharRange | src/NMEAParser.cpp:116-117 | every two-character field converts to a value in [-15, 255] |
| Hex.HexChar | src/NMEAParser.cpp:170 | an upper-case hex digit that converts back to the value it encodes |
| Hex.ToHex2RoundTrip | src/NMEAParser.cpp:116-117 | the two-digit field a talker writes for a byte converts back to that byte |
| Bits.Xor | src/NMEAParser.cpp:106 | the `^=` of the loop on non-negative operands, computed bit by bit; it carries no contract of its own, and its algebra (self-inverse, injective in each operand, no bit above the operands' width) is in `Bits.XorSelfInverse`, `Bits.XorInjectiveLeft`, `Bits.XorInjectiveRight` and `Bits.XorBound` |
| Bits.XorSelfInverse | src/NMEAParser.cpp:106 | applying `^= c` twice restores the value |
| Bits.XorBound | src/NMEAParser.cpp:106 | the exclusive-or of two values below 2^k is below 2^k |
| Checksum.XorPrefix | src/NMEAParser.cpp:103-107 | the value of `calculatedChecksum` after the loop has read the first n payload characters; below 128 when they are all ASCII |
| Checksum.XorOf | src/NMEAParser.cpp:103-107 | the checksum of a whole payload, below 128 for ASCII text |
| Checksum.Locate | src/NMEAParser.cpp:94-116 | parts are found only if both markers exist and there are two characters after `*`; the payload holds no `*` and the hex field has length 2 |
| Checksum.ValidateChecksum | src/NMEAParser.cpp:92-120 | acceptance implies both markers are present |
| Checksum.LocateFrame | src/NMEAParser.cpp:94-116 | in `pre $ payload * hex rest`, the payload and the first two characters of `hex` are compared; with fewer than two characters after `*` nothing is |
| Checksum.FramedChecksum | src/NMEAParser.cpp:103-119 | a framed sentence is accepted iff the payload's XOR equals the converted two characters; later text is ignored and an empty payload is still compared (the root validator, `NMEAParser.cpp:60-88`, is the same rule) |
| Checksum.TruncatedHexRejected | src/NMEAParser.cpp:111-113 | fewer than two characters after the first `*` reject the sentence |
| Checksum.StarBeforeDollarRejected | src/NMEAParser.cpp:94-100 | a `*` with no `$` before it rejects the sentence |
| Checksum.AsciiChecksumBound | src/NMEAParser.cpp:103-107 | on ASCII text the accumulated XOR is below 128 |
| Checksum.SealValidates | src/NMEAParser.cpp:92-120 | a payload framed with its own checksum in upper-case hex is accepted |
| Checksum.XorPrefixChange | src/NMEAParser.cpp:105-107 | changing one character the loop has read changes the accumulated XOR |
| Checksum.SingleFlipRejected | src/NMEAParser.cpp:105-119 | changing one payload character of a sealed sentence to anything other than `*` makes it fail validation |
| Checksum.StarChangeCanPass | src/NMEAParser.cpp:94-119 | changing a payload character to `*` re-frames the sentence, and the result can pass: the `Y` of the sealed `"$\U{1}Y01*59"` turned into `*` leaves the payload `"\U{1}"`, whose checksum 1 matches the field `"01"` |
| Checksum.GarbageHexMatchesZeroPayload | src/NMEAParser.cpp:171-173 | the field "ZZ" converts to 0, so it is accepted for any payload whose XOR is 0 |
| Tokenizer.Split | src/NMEAParser.cpp:124-137 | no token contains the delimiter; there are no tokens exactly when the text is empty |
| Tokenizer.JoinSplit | src/NMEAParser.cpp:124-137 | joining the tokens with the delimiter gives the text back, minus one trailing delimiter if it had one (the root splitter, `NMEAParser.cpp:92-105`, is the same function) |
| Tokenizer.SplitJoin | src/NMEAParser.cpp:129-131 | any delimiter-free token list with a non-empty last token is recovered by splitting its join |
| Tokenizer.InteriorEmptyFieldKept | src/NMEAParser.cpp:129-131 | "Time,Lat,,Lon" splits into four tokens, the third empty |
| Tokenizer.TrailingEmptyFieldDropped | src/NMEAParser.cpp:132-136 | a delimiter added to a non-empty text that does not already end in one adds no token |
| GpsData.Default | NMEAParser.h:9-24 | the default record has every number 0, `isValid` false and both strings empty |
| GpsData.EmptyRecordIsDefault | NMEAParser.h:9-24 | the default record is the only record with those values |
| GpsData.QualityCode | NMEAParser.h:15 | each fix quality has a code in 0..2 |
| GpsData.QualityOf | NMEAParser.h:15 | a code has a meaning exactly when it is in 0..2 |
| GpsData.QualityRoundTrip | NMEAParser.h:15 | the quality codes and the three qualities are in one-to-one correspondence |
| Coordinate.CutCoordinate | src/NMEAParser.cpp:141-160 | a field is cut iff it contains a `.` whose first occurrence is at index 2 or later; the degree and minute texts concatenate to the field; the minute text starts two characters before that `.`; the sign is flipped iff the direction is exactly "S" or "W" |
| Coordinate.CutAtFirstDot | src/NMEAParser.cpp:143-149 | with the first `.` after `head`, the degree text is `head` without its last two characters and the minute text is the rest |
| Coordinate.SafeStod | src/NMEAParser.cpp:27-35 | empty text, or text `stod` rejects, reads as 0; otherwise the value is `stod`'s |
| Coordinate.Combine | src/NMEAParser.cpp:156-160 | the magnitude times 60 is degrees times 60 plus minutes, and the sign is flipped exactly when negating; non-negative parts give a result of the hemisphere's sign |
| Coordinate.ConvertToDecimalDegrees | src/NMEAParser.cpp:140-163 | every field that is not cut gives 0 (its value on a cut field is `Coordinate.CutValue`) |
| Coordinate.CutValue | src/NMEAParser.cpp:143-160 | a field whose first `.` follows at least two characters converts to `degrees + minutes/60`, degrees read from the text before the last two of those characters and minutes from the rest, with both texts read through `safeStod` and the sign flipped for "S" and "W" |
| Coordinate.LatitudeExample | tests/test_parser.cpp:22-27 | "4807.038" is 48 degrees and "07.038" minutes, positive for "N" and negative for "S" |
| Coordinate.DotAtTwoIsMinutesOnly | src/NMEAParser.cpp:144-153 | a first `.` at index 2 converts to the minutes alone, with the empty degree text read as 0 |
| Coordinate.HemisphereSign | src/NMEAParser.cpp:156-160 | "S" and "W" negate the "N" value, and every other direction reads like "N" |
| NmeaParser.OnFix | src/NMEAParser.cpp:15-17 | registering appends the callback and leaves the earlier listeners in place |
| NmeaParser.NotifyListeners | src/NMEAParser.cpp:20-24 | exactly one call per listener, in registration order, each with the same record |
| NmeaParser.Dispatch | src/NMEAParser.cpp:68-72 | a handler is chosen iff the first token is exactly `$GPGGA` or `$GPRMC`; `$GPGGA` chooses the GGA handler and `$GPRMC` the RMC handler |
| NmeaParser.Parse | src/NMEAParser.cpp:49-89 | a failed checksum gives the default record and no calls; listeners are called, all of them, only when the returned record is valid |
| NmeaParser.ValidSentenceHasTokens | src/NMEAParser.cpp:61-62 | a sentence that passes the checksum always has a first token |
| NmeaParser.InvalidPathsGiveDefault | src/NMEAParser.cpp:53-86 | a failed checksum or an unknown first token gives the all-default record and no listener call |
| NmeaParser.KnownTagRunsHandler | src/NMEAParser.cpp:68-77 | a known tag runs its handler on the tokens, starting from the default record with `isValid` true, and returns what the handler produced |
| NmeaParser.CallsOnlyForValidFix | src/NMEAParser.cpp:80-83 | every listener call carries the returned record, and that record is valid |
| NmeaParser.NotifyAppend | src/NMEAParser.cpp:20-24 | a listener appended last is called last, after all earlier ones |
| NmeaParser.RegisterThenParse | src/NMEAParser.cpp:15-24 | one more listener leaves the returned record unchanged and adds one call at the end exactly when the record is valid |
| LegacyNmeaParser.Parse | NMEAParser.cpp:21-57 | a failed checksum, or an unknown first token, gives the default record with `isValid` false |
| LegacyNmeaParser.SameRecordAsNewer | NMEAParser.cpp:21-57 | given the same handler functions, for every sentence the root `parse` returns the same record as the `src/` one; the root version makes no listener calls |
| LegacyNmeaParser.ConvertToDecimalDegrees | NMEAParser.cpp:108-137 | defined only where both cut texts convert, with 0 for every field that is not cut (its value on a cut field is `LegacyNmeaParser.CutValue`) |
| LegacyNmeaParser.CutValue | NMEAParser.cpp:115-135 | where it does not throw, a field whose first `.` follows at least two characters converts both cut texts with `std::stod` and gives `degrees + minutes/60`, negated for "S" and "W" |
| LegacyNmeaParser.GuardedAgrees | NMEAParser.cpp:121-126 | wherever the root converter does not throw, it agrees with the `src/` one |
| LegacyNmeaParser.DotAtTwoThrows | NMEAParser.cpp:115-125 | a first `.` at index 2 leaves the degree text empty, so the root converter throws |
| AssetRoute.MimeType | src/WebServer.cpp:44-54 | no type exactly when the name contains none of `.js`, `.css`, `.png`, `.jpg`, `.jpeg`, `.svg`; any type set is one of the five the route knows |
| AssetRoute.LegacyMimeType | WebServer.cpp:44-48 | no type exactly when the name contains neither `.js` nor `.css`; any type set is JavaScript or CSS |
| AssetRoute.FirstMatchSpec | src/WebServer.cpp:43-54 | the type chosen is that of the earliest matching rule, and none iff no rule matches |
| AssetRoute.MimeTypeIsFirstMatch | src/WebServer.cpp:44-54 | the `src/` chain is first-match over `.js`, `.css`, `.png`, `.jpg`/`.jpeg`, `.svg`, in that order; the root chain (`WebServer.cpp:44-48`) is first-match over `.js` and `.css` only |
| AssetRoute.JavaScriptFirst | src/WebServer.cpp:44-45 | a name containing `.js` is JavaScript in both versions, whatever else it contains |
| AssetRoute.JavaScriptExamples | src/WebServer.cpp:44-45 | "x.json" and "a.js.png" are typed as JavaScript |
| AssetRoute.PngExample | WebServer.cpp:43-48 | "logo.png" is `image/png` in `src/` and gets no type in the root version |
| AssetRoute.NewerRefinesOlder | WebServer.cpp:43-48 | the `src/` chain agrees wherever the root chain sets a type, and adds only image types |
| AssetRoute.ServeAsset | src/WebServer.cpp:39-56 | empty content gives 404 "Not Found" with no type; otherwise 200 with the content and the first-match type, possibly none |
| AssetRoute.LegacyServeAsset | WebServer.cpp:39-50 | the same rule with the root's two-rule table |
| Connections.OnOpen | src/WebServer.cpp:62-65 | the connection is appended; the earlier entries are unchanged (the root `onopen`, `WebServer.cpp:56-59`, is the same) |
| Connections.OnClose | src/WebServer.cpp:66-71 | the closing connection is absent afterwards; every other entry remains; the length drops by the number of its occurrences (the root `onclose`, `WebServer.cpp:60-66`, is the same) |
| Connections.EraseRemove | src/WebServer.cpp:68-71 | the in-place compaction of `std::remove` followed by `erase` computes exactly the order-preserving removal |
| Connections.OnCloseConcat | src/WebServer.cpp:68-71 | removal preserves relative order: it distributes over concatenation |
| Connections.OnCloseOfAbsent | src/WebServer.cpp:68-71 | closing a connection not in the list changes nothing |
| Connections.OpenThenClose | src/WebServer.cpp:62-71 | closing a just-opened connection equals closing it in the old list, and closing twice equals closing once |
| Connections.CloseCommutesWithOtherOpen | src/WebServer.cpp:62-71 | opening one connection and closing a different one commute |
| Connections.Broadcast | src/WebServer.cpp:92-98 | exactly one send per connection, in list order, each with the message (the root `broadcast`, `WebServer.cpp:79-85`, is the same) |

## Left out

- `SafeQueue.h`, `main.cpp` and `src/main.cpp` are not part of this model.
  They are threads, signals, a mutex/condition-variable queue and UDP or
  serial input. This includes the second `notifyListeners` call that
  `src/main.cpp` makes after `parse`.
- The sentence handlers `GPGGASentence` and `GPRMCSentence` are not modelled:
  their bodies are not available. They are parameters, so no field layout of
  the GGA or RMC sentence is assumed.
- `LegacyNmeaParser.SameRecordAsNewer`: handlers are taken to return
  normally. In the code, `parser->parse(tokens, result)` is outside any
  `try` in both versions, so an exception from a handler (for example from
  the root converter, see Findings) escapes `parse`. The lemma says nothing
  about that case.
- `NmeaParser.NotifyListeners`: listeners are taken to return normally. In
  the code `listener(data)` is outside any `try`, so a listener that throws
  ends `parse` and the remaining listeners are not called.
- Floating point is not modelled. `degrees + minutes / 60` is exact real
  arithmetic, and `std::stod` is a parameter. `safeStoi` is not modelled,
  because nothing in the modelled code calls it.
- Non-ASCII characters are not modelled in the checksum. Characters are taken
  by their unsigned code point. The bound below 128 is proved only for ASCII
  text, because the signedness of `char` is platform-dependent.
- `Checksum.ValidateChecksum`: its contract states only that the markers are
  present. The full rule is stated by `Checksum.FramedChecksum`,
  `Checksum.TruncatedHexRejected` and `Checksum.StarBeforeDollarRejected`,
  which together cover every text.
- `Hex.HexToDecimal`: its contract gives only the range and the empty case.
  Its values on two-character fields are stated by `Hex.TwoHexDigits`,
  `Hex.NonHexLeadIsZero`, `Hex.SpaceOrSignThenDigit`,
  `Hex.TrailingGarbageIgnored` and `Hex.TwoCharRange`. The locale of `isspace` is taken to be "C".
- `Hex.ParseHexInteger`: its contract states only when a value is read, its
  bounds and the direction of its sign, not that it is the value of the
  digits read. Its values on two-character fields are given by
  `Hex.TwoHexDigits`, `Hex.SpaceOrSignThenDigit` and
  `Hex.TrailingGarbageIgnored`.
- The `cerr` logging in `hexToDecimal` and all other console output are not
  modelled.
- The crow plumbing is not modelled: `WebServer::run`, `readFile`, the root
  route `/`, `onmessage`, `WebServer.h`, `JSONUtils.h`, `SQLiteLogger`,
  `NMEASource.h`.
- The mutex guarding the connection list is not modelled. Each list operation
  is taken to happen atomically, as the lock makes it.
- The user interface (`GPSDashboard`, `frontend/`) and the tests are not
  modelled.
- The `ID` field of `GPSData` is not modelled. `src/main.cpp` writes it and
  `src/GPSDashboard.cpp` reads it, but the header that declares it is not
  part of this model. The record modelled is the one `NMEAParser.h` declares.
- No latitude or longitude range check is modelled, because the code has
  none.
- Where a stricter reading of NMEA 0183 would differ, the code is followed:
  - The splitter drops the empty field after a trailing comma (see
    `Tokenizer.TrailingEmptyFieldDropped`).
  - The XOR is not masked to a byte.
  - The hex field is read as laxly as `std::stoi`, so leading space, a sign,
    and trailing junk after one digit are accepted.

## Findings

| source | as written | input that shows it | evidently intended | confidence | as-written member | corrected member |
|---|---|---|---|---|---|---|
| NMEAParser.cpp:115-125 | the guard `decimalPos < 2` lets a `.` at index 2 through, leaving an empty degree text that `std::stod` rejects with an uncaught exception | position "07.038" with any direction | fields with no whole degrees convert instead of throwing out of `parse` (the `src/` version reads the empty text as 0) | high; not executed | LegacyNmeaParser.DotAtTwoThrows | Coordinate.DotAtTwoIsMinutesOnly |
