/** `btoa`: base64 of a string whose code units all fit in one byte. */
module Base64 {
  import opened Wrappers

  type Byte = b: int | 0 <= b < 256
  type Sextet = x: int | 0 <= x < 64

  /** `btoa` throws InvalidCharacterError on any code unit above 0xFF. */
  predicate Latin1(s: string)
  {
    forall i :: 0 <= i < |s| ==> s[i] as int < 256
  }

  function CodeUnits(s: string): (b: seq<Byte>)
    requires Latin1(s)
    ensures |b| == |s| && forall i :: 0 <= i < |s| ==> b[i] == s[i] as int
  {
    if s == [] then [] else [s[0] as int as Byte] + CodeUnits(s[1..])
  }

  /** The base64 alphabet A-Z, a-z, 0-9, '+', '/'. */
  function Digit(x: Sextet): char
  {
    if x < 26 then ('A' as int + x) as char
    else if x < 52 then ('a' as int + (x - 26)) as char
    else if x < 62 then ('0' as int + (x - 52)) as char
    else if x == 62 then '+'
    else '/'
  }

  function DigitValue(c: char): int
  {
    if 'A' <= c <= 'Z' then c as int - 'A' as int
    else if 'a' <= c <= 'z' then c as int - 'a' as int + 26
    else if '0' <= c <= '9' then c as int - '0' as int + 52
    else if c == '+' then 62
    else if c == '/' then 63
    else -1
  }

  lemma DigitRoundTrip(x: Sextet)
    ensures DigitValue(Digit(x)) == x && Digit(x) != '='
  {
  }

  /** Each group of three bytes becomes four digits; a last group of one or two
      bytes is padded with '='. */
  function EncodeBytes(b: seq<Byte>): string
    decreases |b|
  {
    if |b| == 0 then []
    else if |b| == 1 then [Digit(b[0] / 4), Digit(b[0] % 4 * 16), '=', '=']
    else if |b| == 2 then [Digit(b[0] / 4), Digit(b[0] % 4 * 16 + b[1] / 16), Digit(b[1] % 16 * 4), '=']
    else Group(b[0], b[1], b[2]) + EncodeBytes(b[3..])
  }

  /** Three bytes, 24 bits, as four digits of six bits each. */
  function Group(b0: Byte, b1: Byte, b2: Byte): string
  {
    [Digit(b0 / 4), Digit(b0 % 4 * 16 + b1 / 16), Digit(b1 % 16 * 4 + b2 / 64), Digit(b2 % 64)]
  }

  /** Four digits for every started group of three bytes. */
  lemma {:induction false} EncodedLength(b: seq<Byte>)
    ensures |EncodeBytes(b)| == 4 * ((|b| + 2) / 3)
    decreases |b|
  {
    if |b| >= 3 {
      EncodedLength(b[3..]);
      assert (|b| + 2) / 3 == (|b[3..]| + 2) / 3 + 1;
    }
  }

  /** The inverse of EncodeBytes on its image (what `atob` does). */
  function DecodeDigits(s: string): seq<int>
    decreases |s|
  {
    if |s| < 4 then []
    else
      var a, b, c, d := DigitValue(s[0]), DigitValue(s[1]), DigitValue(s[2]), DigitValue(s[3]);
      if s[2] == '=' then [a * 4 + b / 16]
      else if s[3] == '=' then [a * 4 + b / 16, b % 16 * 16 + c / 4]
      else [a * 4 + b / 16, b % 16 * 16 + c / 4, c % 4 * 64 + d] + DecodeDigits(s[4..])
  }

  function Btoa(s: string): (r: Option<string>)
    ensures r.Some? <==> Latin1(s)
  {
    if Latin1(s) then Some(EncodeBytes(CodeUnits(s))) else None
  }

  /** The arithmetic of one group: the bits split over four digits join back. */
  lemma JoinFirst(b0: Byte, b1: Byte)
    ensures (b0 / 4) * 4 + (b0 % 4 * 16 + b1 / 16) / 16 == b0
  {
    assert (b0 % 4 * 16 + b1 / 16) / 16 == b0 % 4;
  }

  lemma JoinSecond(b0: Byte, b1: Byte, c: Sextet)
    requires c / 4 == b1 % 16
    ensures (b0 % 4 * 16 + b1 / 16) % 16 * 16 + c / 4 == b1
  {
    assert (b0 % 4 * 16 + b1 / 16) % 16 == b1 / 16;
  }

  lemma JoinThird(b1: Byte, b2: Byte)
    ensures (b1 % 16 * 4 + b2 / 64) % 4 * 64 + b2 % 64 == b2
  {
    assert (b1 % 16 * 4 + b2 / 64) % 4 == b2 / 64;
  }

  lemma DecodeGroup(b0: Byte, b1: Byte, b2: Byte, rest: string)
    ensures DecodeDigits(Group(b0, b1, b2) + rest) == [b0, b1, b2] + DecodeDigits(rest)
  {
    var g := Group(b0, b1, b2);
    DigitRoundTrip(b0 / 4);
    DigitRoundTrip(b0 % 4 * 16 + b1 / 16);
    DigitRoundTrip(b1 % 16 * 4 + b2 / 64);
    DigitRoundTrip(b2 % 64);
    JoinFirst(b0, b1);
    JoinSecond(b0, b1, b1 % 16 * 4 + b2 / 64);
    JoinThird(b1, b2);
    assert (g + rest)[4..] == rest;
  }

  lemma DecodeOne(b0: Byte)
    ensures DecodeDigits([Digit(b0 / 4), Digit(b0 % 4 * 16), '=', '=']) == [b0]
  {
    DigitRoundTrip(b0 / 4);
    DigitRoundTrip(b0 % 4 * 16);
    JoinFirst(b0, 0);
  }

  lemma DecodeTwo(b0: Byte, b1: Byte)
    ensures DecodeDigits([Digit(b0 / 4), Digit(b0 % 4 * 16 + b1 / 16), Digit(b1 % 16 * 4), '=']) == [b0, b1]
  {
    DigitRoundTrip(b0 / 4);
    DigitRoundTrip(b0 % 4 * 16 + b1 / 16);
    DigitRoundTrip(b1 % 16 * 4);
    JoinFirst(b0, b1);
    JoinSecond(b0, b1, b1 % 16 * 4);
  }

  /** EncodeBytes on one or two bytes, unfolded. */
  lemma EncodeLast(b: seq<Byte>)
    requires 1 <= |b| <= 2
    ensures |b| == 1 ==> EncodeBytes(b) == [Digit(b[0] / 4), Digit(b[0] % 4 * 16), '=', '=']
    ensures |b| == 2 ==> EncodeBytes(b) == [Digit(b[0] / 4), Digit(b[0] % 4 * 16 + b[1] / 16), Digit(b[1] % 16 * 4), '=']
  {
  }

  /** EncodeBytes on three bytes or more, unfolded once. */
  lemma EncodeFirst(b: seq<Byte>)
    requires |b| >= 3
    ensures EncodeBytes(b) == Group(b[0], b[1], b[2]) + EncodeBytes(b[3..])
  {
  }

  /** A last group of one or two bytes decodes back. */
  lemma DecodeLast(b: seq<Byte>)
    requires 1 <= |b| <= 2
    ensures DecodeDigits(EncodeBytes(b)) == b
  {
    EncodeLast(b);
    if |b| == 1 {
      DecodeOne(b[0]);
    } else {
      DecodeTwo(b[0], b[1]);
    }
  }

  /** A full group decodes back in front of whatever the rest decodes to. */
  lemma DecodeFirst(b: seq<Byte>)
    requires |b| >= 3
    ensures DecodeDigits(EncodeBytes(b)) == [b[0], b[1], b[2]] + DecodeDigits(EncodeBytes(b[3..]))
  {
    EncodeFirst(b);
    DecodeGroup(b[0], b[1], b[2], EncodeBytes(b[3..]));
  }

  lemma {:induction false} DecodeEncode(b: seq<Byte>)
    ensures DecodeDigits(EncodeBytes(b)) == b
    decreases |b|
  {
    if |b| >= 3 {
      DecodeFirst(b);
      DecodeEncode(b[3..]);
      assert b == [b[0], b[1], b[2]] + b[3..];
    } else if |b| > 0 {
      DecodeLast(b);
    }
  }

  /** Distinct passwords are stored as distinct strings, so comparing encodings
      is comparing passwords. */
  lemma BtoaInjective(p: string, q: string)
    requires Btoa(p).Some? && Btoa(p) == Btoa(q)
    ensures p == q
  {
    DecodeEncode(CodeUnits(p));
    DecodeEncode(CodeUnits(q));
    assert CodeUnits(p) == CodeUnits(q);
    assert forall i :: 0 <= i < |p| ==> p[i] as int == q[i] as int;
  }
}
