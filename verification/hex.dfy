/** `NMEAParser::hexToDecimal`: `std::stoi(hex, nullptr, 16)` with every
    exception caught and turned into 0.

    `std::stoi` calls `strtol`, so the conversion skips leading C white space,
    accepts one optional sign and an optional `0x`/`0X` prefix, and then reads
    the LONGEST run of hexadecimal digits; whatever follows is ignored. No
    digit at all raises `invalid_argument`; a value outside the range of a
    32-bit `int` raises `out_of_range`. Both are caught and yield 0. */
module Hex {
  import opened Wrappers
  import opened Text

  const IntMin: int := -0x8000_0000
  const IntMax: int := 0x7FFF_FFFF

  predicate IsHexDigit(c: char)
  {
    '0' <= c <= '9' || 'a' <= c <= 'f' || 'A' <= c <= 'F'
  }

  predicate AllHexDigits(s: string)
  {
    forall i :: 0 <= i < |s| ==> IsHexDigit(s[i])
  }

  function DigitValue(c: char): (v: nat)
    requires IsHexDigit(c)
    ensures v < 16
  {
    if '0' <= c <= '9' then c as int - '0' as int
    else if 'a' <= c <= 'f' then c as int - 'a' as int + 10
    else c as int - 'A' as int + 10
  }

  /** `isspace` in the "C" locale: space, and tab through carriage return. */
  predicate IsSpace(c: char)
  {
    c == ' ' || 9 <= c as int <= 13
  }

  /** The index of the first character at or after `i` that is not white space. */
  function SpaceEnd(s: string, i: nat): (e: nat)
    requires i <= |s|
    ensures i <= e <= |s|
    ensures e == |s| || !IsSpace(s[e])
    decreases |s| - i
  {
    if i < |s| && IsSpace(s[i]) then SpaceEnd(s, i + 1) else i
  }

  /** The end of the longest run of hexadecimal digits starting at `i`. */
  function HexRunEnd(s: string, i: nat): (e: nat)
    requires i <= |s|
    ensures i <= e <= |s| && AllHexDigits(s[i..e])
    ensures e == |s| || !IsHexDigit(s[e])
    decreases |s| - i
  {
    if i < |s| && IsHexDigit(s[i]) then
      var e := HexRunEnd(s, i + 1);
      assert s[i..e] == [s[i]] + s[i + 1..e];
      e
    else i
  }

  function Pow16(n: nat): (p: nat)
    ensures p >= 1
  {
    if n == 0 then 1 else 16 * Pow16(n - 1)
  }

  /** The value of a digit string read most significant digit first. */
  function HexValue(ds: string): (v: nat)
    requires AllHexDigits(ds)
    ensures v < Pow16(|ds|)
  {
    if ds == [] then 0
    else 16 * HexValue(ds[..|ds| - 1]) + DigitValue(ds[|ds| - 1])
  }

  /** Where `strtol(s, &end, 16)` finds its sign and its digits: after the
      leading white space, one optional sign, then a `0x`/`0X` prefix that is
      skipped only when a hex digit follows it. */
  datatype Subject = Subject(negative: bool, start: nat, end: nat)

  function ScanHex(s: string): (r: Subject)
    ensures r.start <= r.end <= |s| && AllHexDigits(s[r.start..r.end])
    ensures r.end == |s| || !IsHexDigit(s[r.end])
    ensures var i := SpaceEnd(s, 0);
      && (r.negative <==> i < |s| && s[i] == '-')
      && i <= r.start <= i + 3
      && (r.start == i || (r.start == i + 1 && (s[i] == '+' || s[i] == '-'))
          || (r.start >= i + 2 && s[r.start - 2] == '0' && (s[r.start - 1] == 'x' || s[r.start - 1] == 'X') && r.start < r.end))
    // a sign is always skipped
    ensures var i := SpaceEnd(s, 0);
      i < |s| && (s[i] == '+' || s[i] == '-') ==> r.start > i
    // and so is a `0x`/`0X` after it whenever a hex digit follows
    ensures var i := SpaceEnd(s, 0);
      var j := if i < |s| && (s[i] == '+' || s[i] == '-') then i + 1 else i;
      j + 2 < |s| && s[j] == '0' && (s[j + 1] == 'x' || s[j + 1] == 'X') && IsHexDigit(s[j + 2])
      ==> r.start == j + 2
    // the digits start right after the optional sign, or two further on
    ensures var i := SpaceEnd(s, 0);
      var j := if i < |s| && (s[i] == '+' || s[i] == '-') then i + 1 else i;
      r.start == j || r.start == j + 2
  {
    var i := SpaceEnd(s, 0);
    var negative := i < |s| && s[i] == '-';
    var j := if i < |s| && (s[i] == '+' || s[i] == '-') then i + 1 else i;
    var k := if j + 2 < |s| && s[j] == '0' && (s[j + 1] == 'x' || s[j + 1] == 'X') && IsHexDigit(s[j + 2])
             then j + 2 else j;
    Subject(negative, k, HexRunEnd(s, k))
  }

  /** The integer `strtol(s, &end, 16)` converts, or None when it converts
      nothing (the case in which `std::stoi` throws `invalid_argument`). */
  function ParseHexInteger(s: string): (r: Option<int>)
    ensures r.None? <==> ScanHex(s).start == ScanHex(s).end
    ensures r.Some? ==> var n := ScanHex(s).end - ScanHex(s).start;
      -(Pow16(n) as int) < r.value < Pow16(n) && (r.value < 0 ==> ScanHex(s).negative)
  {
    var sub := ScanHex(s);
    if sub.start == sub.end then None
    else
      var v: int := HexValue(s[sub.start..sub.end]);
      Some(if sub.negative then -v else v)
  }

  /** `NMEAParser::hexToDecimal`. */
  function HexToDecimal(hex: string): (r: int)
    ensures IntMin <= r <= IntMax
    ensures hex == [] ==> r == 0
  {
    if hex == [] then 0
    else match ParseHexInteger(hex)
      case None => 0
      case Some(v) => if IntMin <= v <= IntMax then v else 0
  }

  /** Two hexadecimal digits convert to `16 * hi + lo`. */
  lemma TwoHexDigits(hi: char, lo: char)
    requires IsHexDigit(hi) && IsHexDigit(lo)
    ensures HexToDecimal([hi, lo]) == 16 * DigitValue(hi) + DigitValue(lo)
  {
    var s := [hi, lo];
    assert SpaceEnd(s, 0) == 0;
    assert HexRunEnd(s, 0) == 2;
    assert ScanHex(s) == Subject(false, 0, 2);
    assert s[0..2] == s && s[..1] == [hi] && [hi][..0] == [];
    assert HexValue([hi]) == DigitValue(hi);
  }

  /** A first character that is neither white space, a sign nor a hex digit
      makes the conversion fail, so the result is 0. */
  lemma NonHexLeadIsZero(s: string)
    requires s != [] && !IsSpace(s[0]) && s[0] != '+' && s[0] != '-' && !IsHexDigit(s[0])
    ensures HexToDecimal(s) == 0
  {
    assert SpaceEnd(s, 0) == 0;
    assert ScanHex(s) == Subject(false, 0, 0);
  }

  /** Only the leading run of digits counts: a hex digit followed by anything
      that is not a hex digit converts to that one digit, so "4Z" gives 4. */
  lemma TrailingGarbageIgnored(hi: char, x: char)
    requires IsHexDigit(hi) && !IsHexDigit(x)
    ensures HexToDecimal([hi, x]) == DigitValue(hi)
  {
    var s := [hi, x];
    assert SpaceEnd(s, 0) == 0;
    assert HexRunEnd(s, 0) == 1;
    assert ScanHex(s) == Subject(false, 0, 1);
    assert s[0..1] == [hi] && [hi][..0] == [];
  }

  /** One white-space character or one sign in front of a digit is accepted:
      " 7" gives 7, "+A" gives 10 and "-1" gives -1. */
  lemma SpaceOrSignThenDigit(c: char, d: char)
    requires IsHexDigit(d) && (IsSpace(c) || c == '+' || c == '-')
    ensures HexToDecimal([c, d]) == if c == '-' then -(DigitValue(d) as int) else DigitValue(d)
  {
    var s := [c, d];
    if IsSpace(c) {
      assert SpaceEnd(s, 1) == 1;
      assert SpaceEnd(s, 0) == 1;
    } else {
      assert SpaceEnd(s, 0) == 0;
    }
    assert HexRunEnd(s, 1) == 2;
    assert ScanHex(s) == Subject(c == '-', 1, 2);
    assert s[1..2] == [d] && [d][..0] == [];
  }

  /** The conversions a two-character field can produce lie in [-15, 255]:
      at most two digits, or one digit behind a sign. */
  lemma TwoCharRange(s: string)
    requires |s| == 2
    ensures -15 <= HexToDecimal(s) <= 255
  {
    var sub := ScanHex(s);
    if sub.start < sub.end {
      var n := sub.end - sub.start;
      var v: int := HexValue(s[sub.start..sub.end]);
      if n == 1 {
        assert Pow16(1) == 16;
        assert 0 <= v < 16;
      } else {
        assert n == 2 && !sub.negative;
        assert Pow16(2) == 256 by { assert Pow16(1) == 16; }
        assert 0 <= v < 256;
      }
      assert ParseHexInteger(s) == Some(if sub.negative then -v else v);
    } else {
      assert ParseHexInteger(s).None?;
    }
  }

  /** An upper-case hex digit, the form an NMEA talker transmits. */
  function HexChar(v: nat): (c: char)
    requires v < 16
    ensures IsHexDigit(c) && DigitValue(c) == v
  {
    if v < 10 then ('0' as int + v) as char else ('A' as int + v - 10) as char
  }

  /** The two-digit checksum field written after `*`. */
  function ToHex2(n: nat): (h: string)
    requires n < 256
    ensures |h| == 2 && AllHexDigits(h)
  {
    [HexChar(n / 16), HexChar(n % 16)]
  }

  /** Reading back a written checksum field gives the byte that was written. */
  lemma ToHex2RoundTrip(n: nat)
    requires n < 256
    ensures HexToDecimal(ToHex2(n)) == n
  {
    TwoHexDigits(HexChar(n / 16), HexChar(n % 16));
  }
}
