/** UTF-8 encoding of code points, and the decoding rules of section 3 of RFC 3629. */
module Utf8 {
  import opened ByteText

  /** json11's `encode_utf8`; shifts and masks are quotients and remainders by powers of two.
      A negative point is the "nothing pending" mark and encodes to nothing. */
  function Encode(pt: int): Bytes
    requires pt < 0x110000
  {
    if pt < 0 then []
    else if pt < 0x80 then [pt]
    else if pt < 0x800 then [pt / 0x40 + 0xC0, pt % 0x40 + 0x80]
    else if pt < 0x10000 then [pt / 0x1000 + 0xE0, pt / 0x40 % 0x40 + 0x80, pt % 0x40 + 0x80]
    else [pt / 0x40000 + 0xF0, pt / 0x1000 % 0x40 + 0x80, pt / 0x40 % 0x40 + 0x80, pt % 0x40 + 0x80]
  }

  predicate IsHigh(pt: int) { 0xD800 <= pt <= 0xDBFF }

  predicate IsLow(pt: int) { 0xDC00 <= pt <= 0xDFFF }

  predicate IsScalar(pt: int) { 0 <= pt < 0x110000 && !IsHigh(pt) && !IsLow(pt) }

  /** The code point of a surrogate pair. */
  function Combine(high: int, low: int): (pt: int)
    requires IsHigh(high) && IsLow(low)
    ensures 0x10000 <= pt < 0x110000
  {
    (high - 0xD800) * 0x400 + (low - 0xDC00) + 0x10000
  }

  predicate IsTail(b: Byte) { 0x80 <= b <= 0xBF }

  /** The bits a byte carries under its marker. */
  function Payload(b: Byte, marker: int): int { b - marker }

  /** One UTF8-char at the head of s by the ABNF of RFC 3629 section 4: the code point and
      its width, or (-1, 0) where the bytes are not well formed. */
  function DecodeOne(s: Bytes): (r: (int, nat))
    ensures r.1 <= |s|
    ensures r.1 > 0 ==> IsScalar(r.0)
  {
    if |s| >= 1 && s[0] <= 0x7F then (s[0], 1)
    else if |s| >= 2 && 0xC2 <= s[0] <= 0xDF && IsTail(s[1]) then
      (Payload(s[0], 0xC0) * 0x40 + Payload(s[1], 0x80), 2)
    else if |s| >= 3 && 0xE0 <= s[0] <= 0xEF && IsTail(s[1]) && IsTail(s[2])
         && (s[0] == 0xE0 ==> s[1] >= 0xA0) && (s[0] == 0xED ==> s[1] <= 0x9F) then
      (Payload(s[0], 0xE0) * 0x1000 + Payload(s[1], 0x80) * 0x40 + Payload(s[2], 0x80), 3)
    else if |s| >= 4 && 0xF0 <= s[0] <= 0xF4 && IsTail(s[1]) && IsTail(s[2]) && IsTail(s[3])
         && (s[0] == 0xF0 ==> s[1] >= 0x90) && (s[0] == 0xF4 ==> s[1] <= 0x8F) then
      (Payload(s[0], 0xF0) * 0x40000 + Payload(s[1], 0x80) * 0x1000 + Payload(s[2], 0x80) * 0x40
         + Payload(s[3], 0x80), 4)
    else (-1, 0)
  }

  lemma {:induction false} ThreeBytes(pt: int, a: int, b: int, c: int)
    requires 0x800 <= pt < 0x10000 && a == pt / 0x1000 && b == pt / 0x40 % 0x40 && c == pt % 0x40
    ensures pt == a * 0x1000 + b * 0x40 + c
    ensures 0 <= a < 0x10 && 0 <= b < 0x40 && 0 <= c < 0x40
  {
    assert pt / 0x40 == a * 0x40 + b;
  }

  lemma {:induction false} FourBytes(pt: int, a: int, b: int, c: int, d: int)
    requires 0x10000 <= pt < 0x110000
    requires a == pt / 0x40000 && b == pt / 0x1000 % 0x40 && c == pt / 0x40 % 0x40 && d == pt % 0x40
    ensures pt == a * 0x40000 + b * 0x1000 + c * 0x40 + d
    ensures 0 <= a <= 4 && 0 <= b < 0x40 && 0 <= c < 0x40 && 0 <= d < 0x40
  {
    assert pt / 0x1000 == a * 0x40 + b;
    assert pt / 0x40 == (pt / 0x1000) * 0x40 + c;
  }

  /** The decoder inverts `Encode` exactly on the Unicode scalar values: what is encoded from a
      lone surrogate is rejected. */
  lemma {:induction false} DecodeEncode(pt: int, rest: Bytes)
    requires 0 <= pt < 0x110000
    ensures DecodeOne(Encode(pt) + rest) == if IsScalar(pt) then (pt, |Encode(pt)|) else (-1, 0)
  {
    var e := Encode(pt);
    var s := e + rest;
    assert forall k :: 0 <= k < |e| ==> s[k] == e[k];
    if pt < 0x80 {
    } else if pt < 0x800 {
    } else if pt < 0x10000 {
      ThreeBytes(pt, pt / 0x1000, pt / 0x40 % 0x40, pt % 0x40);
    } else {
      FourBytes(pt, pt / 0x40000, pt / 0x1000 % 0x40, pt / 0x40 % 0x40, pt % 0x40);
    }
  }

  lemma {:induction false} ThreeDigits(pt: int, a: int, b: int, c: int)
    requires pt == a * 0x1000 + b * 0x40 + c
    requires 0 <= b < 0x40 && 0 <= c < 0x40
    ensures a == pt / 0x1000 && b == pt / 0x40 % 0x40 && c == pt % 0x40
  {
    assert pt / 0x40 == a * 0x40 + b;
  }

  lemma {:induction false} TwoDecoded(s: Bytes)
    requires DecodeOne(s).1 <= 2 && DecodeOne(s).1 > 0
    ensures Encode(DecodeOne(s).0) == s[..DecodeOne(s).1]
  {
  }

  lemma {:induction false} ThreeDecoded(s: Bytes)
    requires DecodeOne(s).1 == 3
    ensures Encode(DecodeOne(s).0) == s[..3]
  {
    var pt := DecodeOne(s).0;
    ThreeDigits(pt, Payload(s[0], 0xE0), Payload(s[1], 0x80), Payload(s[2], 0x80));
    assert Encode(pt) == [pt / 0x1000 + 0xE0, pt / 0x40 % 0x40 + 0x80, pt % 0x40 + 0x80];
  }

  lemma {:induction false} FourDecoded(s: Bytes)
    requires DecodeOne(s).1 == 4
    ensures Encode(DecodeOne(s).0) == s[..4]
  {
    var pt := DecodeOne(s).0;
    var high := Payload(s[0], 0xF0) * 0x40 + Payload(s[1], 0x80);
    ThreeDigits(pt, high, Payload(s[2], 0x80), Payload(s[3], 0x80));
    assert high / 0x40 == Payload(s[0], 0xF0) && high % 0x40 == Payload(s[1], 0x80);
    assert pt / 0x40000 == high / 0x40;
    assert Encode(pt) == [pt / 0x40000 + 0xF0, high % 0x40 + 0x80, pt / 0x40 % 0x40 + 0x80, pt % 0x40 + 0x80];
  }

  /** And nothing else is UTF-8: every well-formed character is the encoding of its code point. */
  lemma {:induction false} EncodeDecode(s: Bytes)
    requires DecodeOne(s).1 > 0
    ensures Encode(DecodeOne(s).0) == s[..DecodeOne(s).1]
  {
    var n := DecodeOne(s).1;
    assert n <= 4;
    hide DecodeOne, Encode;
    if n == 3 {
      ThreeDecoded(s);
    } else if n == 4 {
      FourDecoded(s);
    } else {
      TwoDecoded(s);
    }
  }

  function EncodeAll(points: seq<int>): Bytes
    requires forall k :: 0 <= k < |points| ==> points[k] < 0x110000
  {
    if |points| == 0 then [] else Encode(points[0]) + EncodeAll(points[1..])
  }

  /** Decode a whole text; None where it is not UTF-8. */
  function DecodeAll(s: Bytes): (r: (bool, seq<int>))
    ensures r.0 ==> forall k :: 0 <= k < |r.1| ==> IsScalar(r.1[k])
  {
    if |s| == 0 then (true, [])
    else
      var (pt, n) := DecodeOne(s);
      if n == 0 then (false, [])
      else
        var (ok, rest) := DecodeAll(s[n..]);
        (ok, [pt] + rest)
  }

  lemma {:induction false} NotNothing(pt: int)
    requires pt < 0x110000 && IsScalar(pt)
    ensures 0 <= pt && |Encode(pt)| > 0
  {
  }

  /** A whole text of scalar values survives encoding and decoding. */
  lemma {:induction false} DecodeAllEncodeAll(points: seq<int>)
    requires forall k :: 0 <= k < |points| ==> points[k] < 0x110000
    requires forall k :: 0 <= k < |points| ==> IsScalar(points[k])
    ensures DecodeAll(EncodeAll(points)) == (true, points)
  {
    hide Encode, DecodeOne, IsScalar;
    if |points| > 0 {
      var e, rest := Encode(points[0]), EncodeAll(points[1..]);
      NotNothing(points[0]);
      DecodeEncode(points[0], rest);
      assert (e + rest)[|e|..] == rest;
      DecodeAllEncodeAll(points[1..]);
      assert points == [points[0]] + points[1..];
      assert EncodeAll(points) == e + rest;
    }
  }

  lemma {:induction false} CodesOfTheRfc()
    ensures Encode(0x41) == [0x41] && Encode(0x2262) == [0xE2, 0x89, 0xA2] && Encode(0x391) == [0xCE, 0x91]
    ensures Encode(0x2E) == [0x2E] && Encode(0xD55C) == [0xED, 0x95, 0x9C] && Encode(0xAD6D) == [0xEA, 0xB5, 0xAD]
    ensures Encode(0xC5B4) == [0xEC, 0x96, 0xB4] && Encode(0xFEFF) == [0xEF, 0xBB, 0xBF]
    ensures Encode(0x233B4) == [0xF0, 0xA3, 0x8E, 0xB4]
  {
  }

  /** The examples of section 7 of RFC 3629. */
  lemma {:induction false} ExamplesOfTheRfc()
    ensures EncodeAll([0x41, 0x2262, 0x391, 0x2E]) == [0x41, 0xE2, 0x89, 0xA2, 0xCE, 0x91, 0x2E]
    ensures EncodeAll([0xD55C, 0xAD6D, 0xC5B4]) == [0xED, 0x95, 0x9C, 0xEA, 0xB5, 0xAD, 0xEC, 0x96, 0xB4]
    ensures EncodeAll([0xFEFF, 0x233B4]) == [0xEF, 0xBB, 0xBF, 0xF0, 0xA3, 0x8E, 0xB4]
  {
    hide Encode;
    CodesOfTheRfc();
  }

  /** What json11 writes for a surrogate on its own: three bytes, as for its neighbours. */
  lemma {:induction false} LoneSurrogate(pt: int)
    requires IsHigh(pt) || IsLow(pt)
    ensures Encode(pt) == [0xED, 0xA0 + (pt - 0xD800) / 0x40, 0x80 + (pt - 0xD800) % 0x40]
  {
  }
}
