/**
 * The booking code of `BookingsService.create`: "BK-" followed by the six
 * random bytes written as hexadecimal (Node's lower-case `hex` encoding)
 * and then upper-cased.
 */
module BookingCodes {
  import opened Results

  type Byte = b: int | 0 <= b < 256

  /** Number of random bytes drawn per booking. */
  const RandomLength: nat := 6

  const Prefix := "BK-"

  const LowerHexDigits := "0123456789abcdef"
  const UpperHexDigits := "0123456789ABCDEF"

  /** Length of every booking code: the prefix and two digits per byte. */
  const CodeLength: nat := |Prefix| + 2 * RandomLength

  predicate IsUpperHex(c: char)
  {
    '0' <= c <= '9' || 'A' <= c <= 'F'
  }

  /** `Buffer.toString('hex')`: two lower-case digits per byte, high nibble first. */
  function LowerHex(bytes: seq<Byte>): (h: string)
    ensures |h| == 2 * |bytes|
  {
    if |bytes| == 0 then ""
    else [LowerHexDigits[bytes[0] / 16], LowerHexDigits[bytes[0] % 16]] + LowerHex(bytes[1..])
  }

  function UpperChar(c: char): char
  {
    if 'a' <= c <= 'z' then (c as int - 32) as char else c
  }

  /** `String.prototype.toUpperCase` restricted to ASCII, which is all a hex string holds. */
  function ToUpperAscii(s: string): (u: string)
    ensures |u| == |s|
  {
    if |s| == 0 then "" else [UpperChar(s[0])] + ToUpperAscii(s[1..])
  }

  /** The code generated for the given random bytes. */
  function BookingCode(random: seq<Byte>): (code: string)
    ensures code == Prefix + UpperHex(random)
  {
    UpperCasedHex(random);
    Prefix + ToUpperAscii(LowerHex(random))
  }

  /** Reference rendering: two upper-case digits per byte, high nibble first. */
  function UpperHex(bytes: seq<Byte>): (h: string)
    ensures |h| == 2 * |bytes|
    ensures forall i :: 0 <= i < |h| ==> IsUpperHex(h[i])
  {
    if |bytes| == 0 then ""
    else [UpperHexDigits[bytes[0] / 16], UpperHexDigits[bytes[0] % 16]] + UpperHex(bytes[1..])
  }

  /** Value of one upper-case hex digit. */
  function HexValue(c: char): (v: nat)
    requires IsUpperHex(c)
    ensures v < 16 && UpperHexDigits[v] == c
  {
    if c <= '9' then c as int - '0' as int else c as int - 'A' as int + 10
  }

  /** Reads an upper-case hex string of even length back into bytes. */
  function Unhex(h: string): (bytes: seq<Byte>)
    requires |h| % 2 == 0
    requires forall i :: 0 <= i < |h| ==> IsUpperHex(h[i])
    ensures |bytes| == |h| / 2
  {
    if |h| == 0 then [] else [16 * HexValue(h[0]) + HexValue(h[1])] + Unhex(h[2..])
  }

  /** Recovers the random bytes from a well-formed booking code, or None. */
  function ParseBookingCode(code: string): Option<seq<Byte>>
  {
    if |code| == CodeLength && code[..|Prefix|] == Prefix
       && forall i :: |Prefix| <= i < |code| ==> IsUpperHex(code[i])
    then Some(Unhex(code[|Prefix|..]))
    else None
  }

  /** Upper-casing a lower-case hex digit gives the upper-case digit of the same value. */
  lemma UpperOfLowerDigit(v: nat)
    requires v < 16
    ensures UpperChar(LowerHexDigits[v]) == UpperHexDigits[v]
  {
    if v < 10 {
      assert LowerHexDigits[v] == UpperHexDigits[v];
    } else {
      assert LowerHexDigits[v] as int == UpperHexDigits[v] as int + 32;
    }
  }

  lemma {:induction false} ToUpperAsciiAppend(a: string, b: string)
    ensures ToUpperAscii(a + b) == ToUpperAscii(a) + ToUpperAscii(b)
  {
    if |a| > 0 {
      assert (a + b)[1..] == a[1..] + b;
      ToUpperAsciiAppend(a[1..], b);
    } else {
      assert a + b == b;
    }
  }

  /** Upper-casing Node's lower-case hex is the upper-case hex rendering. */
  lemma {:induction false} UpperCasedHex(random: seq<Byte>)
    ensures ToUpperAscii(LowerHex(random)) == UpperHex(random)
  {
    if |random| > 0 {
      var b := random[0];
      var pair := [LowerHexDigits[b / 16], LowerHexDigits[b % 16]];
      ToUpperAsciiAppend(pair, LowerHex(random[1..]));
      UpperOfLowerDigit(b / 16);
      UpperOfLowerDigit(b % 16);
      assert ToUpperAscii(pair) == [UpperHexDigits[b / 16], UpperHexDigits[b % 16]];
      UpperCasedHex(random[1..]);
    }
  }

  /** Reading a digit back gives the value it was written for. */
  lemma HexValueOfDigit(v: nat)
    requires v < 16
    ensures HexValue(UpperHexDigits[v]) == v
  {
    if v < 10 {
      assert UpperHexDigits[v] as int == '0' as int + v;
    } else {
      assert UpperHexDigits[v] as int == 'A' as int + v - 10;
    }
  }

  /** Unhex inverts the upper-case hex rendering. */
  lemma {:induction false} UnhexUpperHex(random: seq<Byte>)
    ensures Unhex(UpperHex(random)) == random
  {
    if |random| > 0 {
      var h := UpperHex(random);
      assert h[2..] == UpperHex(random[1..]);
      UnhexUpperHex(random[1..]);
      assert h[0] == UpperHexDigits[random[0] / 16];
      assert h[1] == UpperHexDigits[random[0] % 16];
      HexValueOfDigit(random[0] / 16);
      HexValueOfDigit(random[0] % 16);
    }
  }

  /** Every code is "BK-" and twelve upper-case hex digits: fifteen characters. */
  lemma CodeShape(random: seq<Byte>)
    requires |random| == RandomLength
    ensures |BookingCode(random)| == CodeLength == 15
    ensures BookingCode(random)[..|Prefix|] == Prefix
    ensures forall i :: |Prefix| <= i < CodeLength ==> IsUpperHex(BookingCode(random)[i])
  {
    UpperCasedHex(random);
    assert BookingCode(random) == Prefix + UpperHex(random);
  }

  /** Parsing a generated code gives back the random bytes it was made from. */
  lemma ParseBookingCodeRoundTrip(random: seq<Byte>)
    requires |random| == RandomLength
    ensures ParseBookingCode(BookingCode(random)) == Some(random)
  {
    CodeShape(random);
    UpperCasedHex(random);
    assert BookingCode(random)[|Prefix|..] == UpperHex(random);
    UnhexUpperHex(random);
  }

  /** Distinct random draws give distinct codes, so a code collision needs a repeated draw. */
  lemma BookingCodeInjective(a: seq<Byte>, b: seq<Byte>)
    requires |a| == RandomLength && |b| == RandomLength
    ensures BookingCode(a) == BookingCode(b) <==> a == b
  {
    ParseBookingCodeRoundTrip(a);
    ParseBookingCodeRoundTrip(b);
  }
}
