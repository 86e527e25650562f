/** `NMEAParser::validateChecksum` (identical in the root and `src/` versions):
    the exclusive-or of every character strictly between the first `$` and the
    first `*` must equal the value of the two characters right after that `*`,
    as `hexToDecimal` reads them. This is the checksum rule of NMEA 0183,
    except that the reading of the two characters is as lax as
    `std::stoi` and the sum is not masked to a byte. */
module Checksum {
  import opened Wrappers
  import opened Text
  import opened Bits
  import opened Hex

  /** Characters are taken by their unsigned code point; on ASCII text this
      agrees with the C++ `char` whether or not it is signed. */
  predicate IsAscii(s: string)
  {
    forall i :: 0 <= i < |s| ==> s[i] as int < 128
  }

  /** The value the checksum loop has accumulated after the first `n`
      characters of `p`, taken left to right. */
  function XorPrefix(p: string, n: nat): (x: nat)
    requires n <= |p|
    ensures (forall i :: 0 <= i < n ==> p[i] as int < 128) ==> x < 128
  {
    if n == 0 then 0
    else
      var prev := XorPrefix(p, n - 1);
      XorBelow128(prev, p[n - 1] as int);
      Xor(prev, p[n - 1] as int)
  }

  /** Two values below 128 have an exclusive-or below 128. */
  lemma XorBelow128(a: nat, b: nat)
    ensures a < 128 && b < 128 ==> Xor(a, b) < 128
  {
    assert Pow2(7) == 128 by {
      assert Pow2(1) == 2 && Pow2(2) == 4 && Pow2(3) == 8;
      assert Pow2(4) == 16 && Pow2(5) == 32 && Pow2(6) == 64;
    }
    if a < 128 && b < 128 {
      XorBound(a, b, 7);
    }
  }

  /** The checksum of a whole payload; on ASCII text it fits in seven bits. */
  function XorOf(p: string): (x: nat)
    ensures IsAscii(p) ==> x < 128
  {
    XorPrefix(p, |p|)
  }

  /** The two parts of a sentence the checksum rule compares: the payload
      strictly between the first `$` and the first `*`, and the two
      characters right after that `*`. */
  datatype Parts = Parts(payload: string, hex: string)

  /** Locates the parts, or None on each early `return false` of
      `validateChecksum`: a marker missing, the first `*` before the first
      `$`, or fewer than two characters after the `*`. */
  function Locate(s: string): (r: Option<Parts>)
    ensures r.Some? ==> '$' in s && '*' in s && |r.value.hex| == 2
    ensures r.Some? ==> '*' !in r.value.payload
  {
    match Find(s, '$')
    case None => None
    case Some(dollar) =>
      match Find(s, '*')
      case None => None
      case Some(asterisk) =>
        if asterisk < dollar || asterisk + 3 > |s| then None
        else Some(Parts(s[dollar + 1..asterisk], s[asterisk + 1..asterisk + 3]))
  }

  /** `NMEAParser::validateChecksum`. */
  function ValidateChecksum(s: string): (ok: bool)
    ensures ok ==> '$' in s && '*' in s
  {
    match Locate(s)
    case None => false
    case Some(parts) => XorOf(parts.payload) == HexToDecimal(parts.hex)
  }

  /** A sentence framed as `pre $ payload * hh rest`, where `pre` holds neither
      marker and the payload holds no `*`. Every text with a `$` before its
      first `*` and two characters after it has exactly one such framing. */
  function Frame(pre: string, payload: string, hex: string, rest: string): (s: string)
    ensures |s| == |pre| + |payload| + |hex| + |rest| + 2
    ensures s[|pre|] == '$' && s[|pre| + 1 + |payload|] == '*'
  {
    pre + ['$'] + payload + ['*'] + hex + rest
  }

  /** Where the two markers of a framed sentence are found. */
  lemma FrameMarkers(pre: string, payload: string, hex: string, rest: string)
    requires '$' !in pre && '*' !in pre && '*' !in payload
    ensures Find(Frame(pre, payload, hex, rest), '$') == Some(|pre|)
    ensures Find(Frame(pre, payload, hex, rest), '*') == Some(|pre| + 1 + |payload|)
  {
    var s := Frame(pre, payload, hex, rest);
    var head := pre + ['$'] + payload;
    assert s == pre + ['$'] + (payload + ['*'] + hex + rest);
    FindAfter(pre, '$', payload + ['*'] + hex + rest);
    assert s == head + ['*'] + (hex + rest);
    assert '*' !in head by {
      assert head == pre + (['$'] + payload);
    }
    FindAfter(head, '*', hex + rest);
  }

  /** The parts located in a framed sentence. */
  lemma LocateFrame(pre: string, payload: string, hex: string, rest: string)
    requires '$' !in pre && '*' !in pre && '*' !in payload
    ensures |hex| >= 2 ==> Locate(Frame(pre, payload, hex, rest)) == Some(Parts(payload, hex[..2]))
    ensures |hex| < 2 && rest == [] ==> Locate(Frame(pre, payload, hex, rest)) == None
  {
    FrameMarkers(pre, payload, hex, rest);
    FrameParts(pre, payload, hex, rest);
  }

  lemma FrameParts(pre: string, payload: string, hex: string, rest: string)
    ensures var s, a := Frame(pre, payload, hex, rest), |pre| + 1 + |payload|;
      && |s| == a + 1 + |hex| + |rest|
      && s[|pre| + 1..a] == payload
      && (|hex| >= 2 ==> s[a + 1..a + 3] == hex[..2])
  {
    var s, a := Frame(pre, payload, hex, rest), |pre| + 1 + |payload|;
    if |hex| >= 2 {
      assert s[a + 1..a + 3] == hex[..2];
    }
  }

  /** The checksum rule on a framed sentence: accepted exactly when the
      payload's exclusive-or equals the converted two characters after `*`.
      An empty payload contributes 0 and is still compared, and nothing after
      those two characters is looked at. */
  lemma FramedChecksum(pre: string, payload: string, hex: string, rest: string)
    requires '$' !in pre && '*' !in pre && '*' !in payload && |hex| == 2
    ensures ValidateChecksum(Frame(pre, payload, hex, rest))
            <==> XorOf(payload) == HexToDecimal(hex)
  {
    LocateFrame(pre, payload, hex, rest);
    assert hex[..2] == hex;
  }

  /** Fewer than two characters after the first `*` reject the sentence. */
  lemma TruncatedHexRejected(pre: string, payload: string, hex: string)
    requires '$' !in pre && '*' !in pre && '*' !in payload && |hex| < 2
    ensures !ValidateChecksum(Frame(pre, payload, hex, []))
  {
    LocateFrame(pre, payload, hex, []);
  }

  /** A `*` with no `$` anywhere before it rejects the sentence, whatever
      follows. */
  lemma StarBeforeDollarRejected(s: string, i: nat)
    requires i < |s| && s[i] == '*' && '$' !in s[..i + 1]
    ensures !ValidateChecksum(s)
  {
  }

  /** On ASCII text the accumulated checksum is below 128. */
  lemma {:induction false} AsciiChecksumBound(p: string, n: nat)
    requires IsAscii(p) && n <= |p|
    ensures XorPrefix(p, n) < 128
  {
    assert Pow2(7) == 128 by {
      assert Pow2(1) == 2 && Pow2(2) == 4 && Pow2(3) == 8;
      assert Pow2(4) == 16 && Pow2(5) == 32 && Pow2(6) == 64;
    }
    if n != 0 {
      AsciiChecksumBound(p, n - 1);
      XorBound(XorPrefix(p, n - 1), p[n - 1] as int, 7);
    }
  }

  /** The sentence a talker sends for `payload`: the payload between `$` and
      `*`, followed by its checksum in upper-case hex. */
  function Seal(payload: string): (s: string)
    requires IsAscii(payload)
  {
    AsciiChecksumBound(payload, |payload|);
    Frame([], payload, ToHex2(XorOf(payload)), [])
  }

  /** A correctly sealed sentence passes validation. */
  lemma SealValidates(payload: string)
    requires IsAscii(payload) && '*' !in payload
    ensures ValidateChecksum(Seal(payload))
  {
    AsciiChecksumBound(payload, |payload|);
    ToHex2RoundTrip(XorOf(payload));
    FramedChecksum([], payload, ToHex2(XorOf(payload)), []);
  }

  /** The accumulated checksum depends only on the characters read so far. */
  lemma {:induction false} XorPrefixAgrees(p: string, q: string, n: nat)
    requires n <= |p| && n <= |q| && p[..n] == q[..n]
    ensures XorPrefix(p, n) == XorPrefix(q, n)
  {
    if n != 0 {
      assert p[..n - 1] == p[..n][..n - 1] && q[..n - 1] == q[..n][..n - 1];
      assert p[n - 1] == p[..n][n - 1] && q[n - 1] == q[..n][n - 1];
      XorPrefixAgrees(p, q, n - 1);
    }
  }

  /** Changing one character that the loop has read changes the accumulated
      checksum. */
  lemma {:induction false} XorPrefixChange(p: string, n: nat, i: nat, c: char)
    requires i < n <= |p| && c != p[i]
    ensures XorPrefix(p[i := c], n) != XorPrefix(p, n)
  {
    var q := p[i := c];
    if i == n - 1 {
      assert q[..n - 1] == p[..n - 1];
      XorPrefixAgrees(p, q, n - 1);
      if XorPrefix(q, n) == XorPrefix(p, n) {
        XorInjectiveRight(c as int, p[i] as int, XorPrefix(p, n - 1));
      }
    } else {
      XorPrefixChange(p, n - 1, i, c);
      if XorPrefix(q, n) == XorPrefix(p, n) {
        XorInjectiveLeft(XorPrefix(q, n - 1), XorPrefix(p, n - 1), p[n - 1] as int);
      }
    }
  }

  /** Changing one payload character of a sealed sentence to anything other
      than `*`, without resealing it, makes validation fail. A `*` instead
      re-frames the sentence (see `StarChangeCanPass`). */
  lemma SingleFlipRejected(payload: string, i: nat, c: char)
    requires IsAscii(payload) && '*' !in payload
    requires i < |payload| && c != payload[i] && c != '*'
    ensures !ValidateChecksum(Frame([], payload[i := c], Seal(payload)[|payload| + 2..], []))
  {
    AsciiChecksumBound(payload, |payload|);
    var hex := ToHex2(XorOf(payload));
    assert Seal(payload)[|payload| + 2..] == hex;
    ToHex2RoundTrip(XorOf(payload));
    XorPrefixChange(payload, |payload|, i, c);
    var flipped := payload[i := c];
    assert '*' !in flipped by {
      forall j | 0 <= j < |flipped| ensures flipped[j] != '*' {
        if j != i {
          assert flipped[j] == payload[j];
        }
      }
    }
    FramedChecksum([], flipped, hex, []);
  }

  /** Changing a payload character to `*` moves the frame: in the sealed
      `"$\U{1}Y01*59"` the `Y` becomes `*`, the payload shrinks to `"\U{1}"`,
      whose checksum 1 matches the field `"01"`, and the sentence passes. */
  lemma StarChangeCanPass()
    ensures var payload := ['\U{1}', 'Y', '0', '1'];
      IsAscii(payload) && ValidateChecksum(Frame([], payload[1 := '*'], Seal(payload)[|payload| + 2..], []))
  {
    var payload := ['\U{1}', 'Y', '0', '1'];
    assert IsAscii(payload);
    AsciiChecksumBound(payload, |payload|);
    var hex := Seal(payload)[|payload| + 2..];
    assert hex == ToHex2(XorOf(payload));
    assert Frame([], payload[1 := '*'], hex, []) == Frame([], ['\U{1}'], ['0', '1'], ['*'] + hex);
    TwoHexDigits('0', '1');
    assert XorOf(['\U{1}']) == 1;
    FramedChecksum([], ['\U{1}'], ['0', '1'], ['*'] + hex);
  }

  /** "ZZ" converts to 0, so it matches any payload whose checksum is 0. */
  lemma GarbageHexMatchesZeroPayload(payload: string)
    requires '*' !in payload && XorOf(payload) == 0
    ensures ValidateChecksum(Frame([], payload, "ZZ", []))
  {
    NonHexLeadIsZero("ZZ");
    FramedChecksum([], payload, "ZZ", []);
  }
}
