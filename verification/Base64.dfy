/** Base64: the encoder and the decoder that tolerates line breaks, what the decoder accepts, and the
    round trip of section 4 of RFC 4648. */
module Base64 {
  import opened Options
  import opened ByteText

  const PAD: Byte := 0x3D

  /** `entab`. */
  function Code(v: nat): (c: Byte)
    requires v < 64
    ensures Value(c) == v && c != PAD && !IsBreak(c)
  {
    if v < 26 then 0x41 + v
    else if v < 52 then 0x61 + (v - 26)
    else if v < 62 then ZERO + (v - 52)
    else if v == 62 then PLUS
    else SLASH
  }

  /** `detab`: -1 for what is not in the alphabet. */
  function Value(c: Byte): (v: int)
    ensures -1 <= v < 64
  {
    var x: int := c;
    if 0x41 <= x <= 0x5A then x - 0x41
    else if 0x61 <= x <= 0x7A then x - 0x61 + 26
    else if IsDigit(c) then x - 0x30 + 52
    else if c == PLUS then 62
    else if c == SLASH then 63
    else -1
  }

  predicate IsBreak(c: Byte) {
    c == RETURN || c == NEWLINE
  }

  // Encoding

  function Group(a: Byte, b: Byte, c: Byte): (g: Bytes)
    ensures |g| == 4
  {
    [Code(a / 4), Code(a % 4 * 16 + b / 16), Code(b % 16 * 4 + c / 64), Code(c % 64)]
  }

  /** The last group, of one to three bytes. */
  function LastGroup(s: Bytes): (g: Bytes)
    requires 1 <= |s| <= 3
    ensures |g| == 4
  {
    if |s| == 1 then [Code(s[0] / 4), Code(s[0] % 4 * 16), PAD, PAD]
    else if |s| == 2 then [Code(s[0] / 4), Code(s[0] % 4 * 16 + s[1] / 16), Code(s[1] % 16 * 4), PAD]
    else Group(s[0], s[1], s[2])
  }

  function Encode(s: Bytes): Bytes {
    if |s| == 0 then []
    else if |s| <= 3 then LastGroup(s)
    else Group(s[0], s[1], s[2]) + Encode(s[3..])
  }

  // What RFC 4648 says of the encoding, section 4

  /** Table 1, the 64 letters in order. */
  lemma {:induction false} FirstLetters()
    ensures Code(0) == 'A' as int && Code(1) == 'B' as int && Code(2) == 'C' as int && Code(3) == 'D' as int
    ensures Code(4) == 'E' as int && Code(5) == 'F' as int && Code(6) == 'G' as int && Code(7) == 'H' as int
    ensures Code(8) == 'I' as int && Code(9) == 'J' as int && Code(10) == 'K' as int && Code(11) == 'L' as int
    ensures Code(12) == 'M' as int && Code(13) == 'N' as int && Code(14) == 'O' as int && Code(15) == 'P' as int
  {
  }

  lemma {:induction false} SecondLetters()
    ensures Code(16) == 'Q' as int && Code(17) == 'R' as int && Code(18) == 'S' as int && Code(19) == 'T' as int
    ensures Code(20) == 'U' as int && Code(21) == 'V' as int && Code(22) == 'W' as int && Code(23) == 'X' as int
    ensures Code(24) == 'Y' as int && Code(25) == 'Z' as int && Code(26) == 'a' as int && Code(27) == 'b' as int
    ensures Code(28) == 'c' as int && Code(29) == 'd' as int && Code(30) == 'e' as int && Code(31) == 'f' as int
  {
  }

  lemma {:induction false} ThirdLetters()
    ensures Code(32) == 'g' as int && Code(33) == 'h' as int && Code(34) == 'i' as int && Code(35) == 'j' as int
    ensures Code(36) == 'k' as int && Code(37) == 'l' as int && Code(38) == 'm' as int && Code(39) == 'n' as int
    ensures Code(40) == 'o' as int && Code(41) == 'p' as int && Code(42) == 'q' as int && Code(43) == 'r' as int
    ensures Code(44) == 's' as int && Code(45) == 't' as int && Code(46) == 'u' as int && Code(47) == 'v' as int
  {
  }

  lemma {:induction false} LastLetters()
    ensures Code(48) == 'w' as int && Code(49) == 'x' as int && Code(50) == 'y' as int && Code(51) == 'z' as int
    ensures Code(52) == '0' as int && Code(53) == '1' as int && Code(54) == '2' as int && Code(55) == '3' as int
    ensures Code(56) == '4' as int && Code(57) == '5' as int && Code(58) == '6' as int && Code(59) == '7' as int
    ensures Code(60) == '8' as int && Code(61) == '9' as int && Code(62) == '+' as int && Code(63) == '/' as int
  {
  }

  /** A byte has a value if and only if it is a letter, and that is the letter's place. */
  lemma {:induction false} ValueIsPlace(c: Byte)
    ensures if Value(c) >= 0 then Code(Value(c)) == c else forall v :: 0 <= v < 64 ==> Code(v) != c
  {
  }

  /** Three bytes are 24 bits, the first byte the highest, and these are four letters, the first the highest. */
  lemma {:induction false} GroupIsNumber(a: Byte, b: Byte, c: Byte)
    ensures var g := Group(a, b, c);
            ((Value(g[0]) * 64 + Value(g[1])) * 64 + Value(g[2])) * 64 + Value(g[3]) == (a as int * 256 + b) * 256 + c
  {
    hide Value;
  }

  /** One or two bytes at the end: zero bits up to two or three letters, and `=` up to four. */
  lemma {:induction false} LastGroupIsNumber(s: Bytes)
    requires 1 <= |s| <= 2
    ensures var g := LastGroup(s);
            if |s| == 1 then Value(g[0]) * 64 + Value(g[1]) == s[0] as int * 16 && g[2..] == [0x3D, 0x3D]
            else (Value(g[0]) * 64 + Value(g[1])) * 64 + Value(g[2]) == (s[0] as int * 256 + s[1]) * 4 && g[3] == 0x3D
  {
    hide Value;
  }

  // Decoding

  predicate AllCode(g: Bytes) {
    |g| == 4 && forall k :: 0 <= k < 4 ==> Value(g[k]) >= 0
  }

  function Triple(g: Bytes): (r: Bytes)
    requires AllCode(g)
    ensures |r| == 3
  {
    var v0, v1, v2, v3 := Value(g[0]), Value(g[1]), Value(g[2]), Value(g[3]);
    [v0 * 4 + v1 / 16, v1 % 16 * 16 + v2 / 4, v2 % 4 * 64 + v3]
  }

  /** At most two line break characters are skipped. */
  function Skip(t: Bytes): nat {
    if |t| > 0 && IsBreak(t[0]) then (if |t| > 1 && IsBreak(t[1]) then 2 else 1) else 0
  }

  function DecodeLast(g: Bytes): Option<Bytes>
    requires |g| == 4
  {
    var v0, v1 := Value(g[0]), Value(g[1]);
    if v0 < 0 || v1 < 0 then None
    else
      var first := [v0 * 4 + v1 / 16];
      if g[2] == PAD then (if g[3] == PAD then Some(first) else None)
      else
        var v2 := Value(g[2]);
        if v2 < 0 then None
        else
          var second := [v0 * 4 + v1 / 16, v1 % 16 * 16 + v2 / 4];
          if g[3] == PAD then Some(second)
          else if Value(g[3]) < 0 then None
          else Some(Triple(g))
  }

  /** The end of the text, without the last one or two characters if they are line breaks. */
  function Stripped(t: Bytes): Bytes {
    if |t| > 0 && IsBreak(t[|t| - 1]) then
      (if |t| > 1 && IsBreak(t[|t| - 2]) then t[..|t| - 2] else t[..|t| - 1])
    else t
  }

  function DecodeEnd(t: Bytes): Option<Bytes> {
    if |Stripped(t)| != 4 then None else DecodeLast(Stripped(t))
  }

  function Decode(t: Bytes): Option<Bytes>
    decreases |t|
  {
    if |t| < 8 then DecodeEnd(t)
    else if !AllCode(t[..4]) then None
    else
      match Decode(t[4 + Skip(t[4..])..])
      case None => None
      case Some(rest) => Some(Triple(t[..4]) + rest)
  }

  // What the decoder accepts

  predicate Breaks(t: Bytes) {
    |t| <= 2 && forall k :: 0 <= k < |t| ==> IsBreak(t[k])
  }

  /** A text of groups, each with up to two line break characters after it, the last perhaps padded,
      stands for these bytes. */
  ghost predicate Denotes(t: Bytes, s: Bytes)
    decreases |t|
  {
    || (|t| >= 4 && Breaks(t[4..]) && DecodeLast(t[..4]) == Some(s))
    || exists k :: DenotesAfter(t, k, s)
  }

  ghost predicate DenotesAfter(t: Bytes, k: nat, s: Bytes)
    decreases |t|, 0
  {
    && k <= 2 && |t| >= 4 + k && AllCode(t[..4]) && Breaks(t[4..4 + k])
    && |s| > 3 && s[..3] == Triple(t[..4]) && Denotes(t[4 + k..], s[3..])
  }

  lemma {:induction false} DenotesSize(t: Bytes, s: Bytes)
    requires Denotes(t, s)
    ensures |t| >= 4 && Value(t[0]) >= 0 && 1 <= |s| <= |t| * 3 / 4
    decreases |t|
  {
    if k :| DenotesAfter(t, k, s) {
      DenotesSize(t[4 + k..], s[3..]);
    }
  }

  lemma {:induction false} StripIs(t: Bytes)
    requires |t| >= 4
    ensures Breaks(t[4..]) && !IsBreak(t[3]) ==> Stripped(t) == t[..4]
    ensures |Stripped(t)| == 4 ==> Breaks(t[4..]) && Stripped(t) == t[..4]
  {
    if Breaks(t[4..]) && !IsBreak(t[3]) {
      assert |t| > 4 ==> t[4..][|t| - 5] == t[|t| - 1];
      assert |t| > 5 ==> t[4..][0] == t[4];
    }
  }

  lemma {:induction false} LastIsNoBreak(g: Bytes)
    requires |g| == 4 && DecodeLast(g).Some?
    ensures !IsBreak(g[3]) && 1 <= |DecodeLast(g).value| <= 3
  {
  }

  /** The decoder accepts exactly these texts, and gives exactly these bytes. */
  lemma {:induction false} DecodesExactly(t: Bytes, s: Bytes)
    ensures Decode(t) == Some(s) <==> Denotes(t, s)
    decreases |t|
  {
    hide DecodeLast, Stripped, Triple;
    if |t| < 8 {
      EndDecodesExactly(t, s);
    } else {
      var g, k := t[..4], Skip(t[4..]);
      SkipIs(t[4..]);
      if Decode(t) == Some(s) {
        var rest := Decode(t[4 + k..]).value;
        DecodesExactly(t[4 + k..], rest);
        DenotesSize(t[4 + k..], rest);
        assert s[..3] == Triple(g) && s[3..] == rest;
        assert t[4..][..k] == t[4..4 + k];
        assert DenotesAfter(t, k, s);
      }
      if Denotes(t, s) {
        var j := MoreGroups(t, s);
        DenotesSize(t[4 + j..], s[3..]);
        assert t[4..][..j] == t[4..4 + j];
        SkipAll(t[4..], j);
        DecodesExactly(t[4 + k..], s[3..]);
        assert s == s[..3] + s[3..];
      }
    }
  }

  lemma {:induction false} MoreGroups(t: Bytes, s: Bytes) returns (j: nat)
    requires |t| >= 8 && Denotes(t, s)
    ensures DenotesAfter(t, j, s)
  {
    j :| DenotesAfter(t, j, s);
  }

  lemma {:induction false} EndDecodesExactly(t: Bytes, s: Bytes)
    requires |t| < 8
    ensures Decode(t) == Some(s) <==> Denotes(t, s)
  {
    hide Triple;
    if k :| DenotesAfter(t, k, s) {
      DenotesSize(t[4 + k..], s[3..]);
      assert false;
    }
    if |t| >= 4 {
      StripIs(t);
      if DecodeLast(t[..4]).Some? {
        LastIsNoBreak(t[..4]);
      }
    }
  }

  lemma {:induction false} SkipIs(t: Bytes)
    ensures Skip(t) <= |t| && Breaks(t[..Skip(t)])
  {
  }

  /** What is skipped before the next group is all the breaks there. */
  lemma {:induction false} SkipAll(t: Bytes, j: nat)
    requires j < |t| && Breaks(t[..j]) && Value(t[j]) >= 0
    ensures Skip(t) == j
  {
    var b := t[..j];
    assert j > 0 ==> b[0] == t[0];
    assert j > 1 ==> b[1] == t[1];
  }

  // The round trip

  /** The encoding with a line break of up to two characters after each group. */
  function Wrapped(s: Bytes, breaks: seq<Bytes>): Bytes
    requires |s| > 0 && |breaks| == (|s| + 2) / 3
    decreases |s|
  {
    if |s| <= 3 then LastGroup(s) + breaks[0]
    else Group(s[0], s[1], s[2]) + breaks[0] + Wrapped(s[3..], breaks[1..])
  }

  lemma {:induction false} GroupBack(a: Byte, b: Byte, c: Byte)
    ensures AllCode(Group(a, b, c)) && Triple(Group(a, b, c)) == [a, b, c]
  {
    hide Value, Code, IsBreak;
  }

  lemma {:induction false} LastGroupBack(s: Bytes)
    requires 1 <= |s| <= 3
    ensures DecodeLast(LastGroup(s)) == Some(s)
  {
    hide Value, Code, IsBreak;
    if |s| == 1 {
      assert s == [s[0]];
    } else if |s| == 2 {
      assert s == [s[0], s[1]];
    } else {
      hide Group, Triple;
      GroupBack(s[0], s[1], s[2]);
      assert Group(s[0], s[1], s[2])[2] != PAD && Group(s[0], s[1], s[2])[3] != PAD by {
        NoPad(s[0], s[1], s[2]);
      }
      assert s == [s[0], s[1], s[2]];
    }
  }

  lemma {:induction false} NoPad(a: Byte, b: Byte, c: Byte)
    ensures PAD !in Group(a, b, c)
  {
  }

  lemma {:induction false} WrappedDenotes(s: Bytes, breaks: seq<Bytes>)
    requires |s| > 0 && |breaks| == (|s| + 2) / 3 && forall b :: b in breaks ==> Breaks(b)
    ensures Denotes(Wrapped(s, breaks), s)
    decreases |s|
  {
    hide Group, Triple, LastGroup, DecodeLast, Breaks;
    var t, b := Wrapped(s, breaks), breaks[0];
    assert b in breaks;
    if |s| <= 3 {
      LastGroupBack(s);
      assert t[..4] == LastGroup(s) && t[4..] == b;
    } else {
      var g := Group(s[0], s[1], s[2]);
      GroupBack(s[0], s[1], s[2]);
      WrappedDenotes(s[3..], breaks[1..]);
      BreaksShort(b);
      assert t[..4] == g && t[4..4 + |b|] == b && t[4 + |b|..] == Wrapped(s[3..], breaks[1..]);
      assert s[..3] == [s[0], s[1], s[2]];
      assert DenotesAfter(t, |b|, s);
    }
  }

  lemma {:induction false} BreaksShort(b: Bytes)
    requires Breaks(b)
    ensures |b| <= 2
  {
  }

  /** Decoding gives back what was encoded, whatever line breaks were put in between. */
  lemma {:induction false} RoundTrip(s: Bytes, breaks: seq<Bytes>)
    requires |s| > 0 && |breaks| == (|s| + 2) / 3 && forall b :: b in breaks ==> Breaks(b)
    ensures Decode(Wrapped(s, breaks)) == Some(s)
  {
    hide Decode, Denotes, Wrapped;
    WrappedDenotes(s, breaks);
    DecodesExactly(Wrapped(s, breaks), s);
  }

  lemma {:induction false} NoBreaks(s: Bytes, breaks: seq<Bytes>)
    requires |s| > 0 && |breaks| == (|s| + 2) / 3 && forall b :: b in breaks ==> b == []
    ensures Wrapped(s, breaks) == Encode(s)
    decreases |s|
  {
    hide Group, LastGroup;
    assert breaks[0] in breaks;
    if |s| > 3 {
      forall b | b in breaks[1..] ensures b == [] {
        assert b in breaks;
      }
      NoBreaks(s[3..], breaks[1..]);
    }
  }

  /** The encoding has four characters for every three bytes begun, and decodes to its input. */
  lemma {:induction false} EncodeDecodes(s: Bytes)
    ensures |Encode(s)| == (|s| + 2) / 3 * 4
    ensures |s| > 0 ==> Decode(Encode(s)) == Some(s)
  {
    hide Decode;
    EncodedSize(s);
    if |s| > 0 {
      var none: seq<Bytes> := seq((|s| + 2) / 3, i => []);
      NoBreaks(s, none);
      RoundTrip(s, none);
    }
  }

  lemma {:induction false} EncodedSize(s: Bytes)
    ensures |Encode(s)| == (|s| + 2) / 3 * 4
    decreases |s|
  {
    hide Group, LastGroup;
    if |s| > 3 {
      EncodedSize(s[3..]);
      assert (|s| + 2) / 3 == (|s| - 3 + 2) / 3 + 1;
    }
  }

  // The two loops

  method PutGroup(v: array<Byte>, x: nat, a: Byte, b: Byte, c: Byte)
    requires x + 4 <= v.Length
    modifies v
    ensures v[..x + 4] == old(v[..x]) + Group(a, b, c)
  {
    v[x] := Code(a / 4);
    v[x + 1] := Code(a % 4 * 16 + b / 16);
    v[x + 2] := Code(b % 16 * 4 + c / 64);
    v[x + 3] := Code(c % 64);
  }

  /** The one or two bytes left over, padded. */
  method PutLast(v: array<Byte>, x: nat, s: Bytes)
    requires 1 <= |s| <= 2 && x + 4 == v.Length
    modifies v
    ensures v[..] == old(v[..x]) + LastGroup(s)
  {
    if |s| == 1 {
      v[x] := Code(s[0] / 4);
      v[x + 1] := Code(s[0] % 4 * 16);
      v[x + 2] := PAD;
    } else {
      v[x] := Code(s[0] / 4);
      v[x + 1] := Code(s[0] % 4 * 16 + s[1] / 16);
      v[x + 2] := Code(s[1] % 16 * 4);
    }
    v[x + 3] := PAD;
  }

  /** The whole groups of three bytes. */
  method EncodeGroups(s: Bytes, k: nat, v: array<Byte>)
    requires k * 3 <= |s| && k * 4 <= v.Length
    modifies v
    ensures v[..k * 4] + Encode(s[k * 3..]) == Encode(s)
  {
    hide *;
    var i := 0;
    assert s[i * 3..] == s && v[..i * 4] == [];
    while i < k
      invariant i <= k && v[..i * 4] + Encode(s[i * 3..]) == Encode(s)
    {
      var j := i * 3;
      FirstGroup(s[j..]);
      ghost var done := v[..i * 4];
      PutGroup(v, i * 4, s[j], s[j + 1], s[j + 2]);
      assert s[j..][3..] == s[j + 3..];
      Regroup(done, Group(s[j], s[j + 1], s[j + 2]), Encode(s[j + 3..]));
      i := i + 1;
    }
  }

  method Base64Encode(s: Bytes) returns (v: array<Byte>)
    ensures fresh(v) && v[..] == Encode(s)
  {
    EncodedSize(s);
    var k := |s| / 3;
    var r := |s| - k * 3;
    v := new Byte[(k + if r > 0 then 1 else 0) * 4](_ => NUL);
    hide *;
    EncodeGroups(s, k, v);
    EncodeRest(s[k * 3..]);
    if r > 0 {
      PutLast(v, k * 4, s[k * 3..]);
    } else {
      assert v[..] == v[..k * 4];
    }
  }

  lemma {:induction false} EncodeRest(s: Bytes)
    requires |s| <= 2
    ensures Encode(s) == if |s| == 0 then [] else LastGroup(s)
  {
  }

  lemma {:induction false} FirstGroup(s: Bytes)
    requires |s| >= 3
    ensures Encode(s) == Group(s[0], s[1], s[2]) + Encode(s[3..])
  {
    hide Group;
    if |s| == 3 {
      assert s[3..] == [];
    }
  }

  ghost function After(done: Bytes, r: Option<Bytes>): Option<Bytes> {
    match r case None => None case Some(rest) => Some(done + rest)
  }

  lemma {:induction false} AfterNothing(r: Option<Bytes>)
    ensures After([], r) == r
  {
    if r.Some? {
      assert [] + r.value == r.value;
    }
  }

  lemma {:induction false} NextGroup(t: Bytes, done: Bytes)
    requires |t| >= 8
    ensures After(done, Decode(t)) == if !AllCode(t[..4]) then None
                                      else After(done + Triple(t[..4]), Decode(t[4 + Skip(t[4..])..]))
  {
    hide Triple, AllCode;
    if AllCode(t[..4]) && Decode(t[4 + Skip(t[4..])..]).Some? {
      Regroup(done, Triple(t[..4]), Decode(t[4 + Skip(t[4..])..]).value);
    }
  }

  lemma {:induction false} CodeIs(g: Bytes)
    requires |g| == 4
    ensures var v0, v1, v2, v3 := Value(g[0]), Value(g[1]), Value(g[2]), Value(g[3]);
            && (AllCode(g) <==> v0 >= 0 && v1 >= 0 && v2 >= 0 && v3 >= 0)
            && (AllCode(g) ==> Triple(g) == [v0 * 4 + v1 / 16, v1 % 16 * 16 + v2 / 4, v2 % 4 * 64 + v3])
  {
  }

  /** Below eight characters only the end is left. */
  lemma {:induction false} EndMeans(t: Bytes)
    requires |t| < 8
    ensures Decode(t) == if |Stripped(t)| != 4 then None else DecodeLast(Stripped(t))
    ensures Stripped(t) == if |t| > 0 && IsBreak(t[|t| - 1])
                           then (if |t| > 1 && IsBreak(t[|t| - 2]) then t[..|t| - 2] else t[..|t| - 1]) else t
  {
  }

  /** The last four characters. */
  method DecodeFour(g: Bytes, v: array<Byte>, size0: nat) returns (ok: bool, size: nat)
    requires |g| == 4 && size0 + 3 <= v.Length
    modifies v
    ensures size <= v.Length
    ensures (if ok then Some(v[..size]) else None) == After(old(v[..size0]), DecodeLast(g))
  {
    hide AllCode, Value, Triple;
    CodeIs(g);
    ghost var done := v[..size0];
    size, ok := size0, false;
    var m0, m1 := Value(g[0]), Value(g[1]);
    if m0 < 0 || m1 < 0 {
      return;
    }
    v[size] := m0 * 4 + m1 / 16;
    size := size + 1;
    assert v[..size] == done + [m0 * 4 + m1 / 16];
    if g[2] == PAD {
      ok := g[3] == PAD;
      return;
    }
    var m2 := Value(g[2]);
    if m2 < 0 {
      return;
    }
    v[size] := m1 % 16 * 16 + m2 / 4;
    size := size + 1;
    assert v[..size] == done + [m0 * 4 + m1 / 16, m1 % 16 * 16 + m2 / 4];
    if g[3] != PAD {
      var m3 := Value(g[3]);
      if m3 < 0 {
        return;
      }
      v[size] := m2 % 4 * 64 + m3;
      size := size + 1;
      assert v[..size] == done + Triple(g);
    }
    ok := true;
  }

  /** Four characters that must all be in the alphabet. */
  method DecodeGroup(g: Bytes, v: array<Byte>, size0: nat) returns (ok: bool, size: nat)
    requires |g| == 4 && size0 + 3 <= v.Length
    modifies v
    ensures ok <==> AllCode(g)
    ensures size <= v.Length && (ok ==> size == size0 + 3 && v[..size] == old(v[..size0]) + Triple(g))
  {
    hide AllCode, Value, Triple;
    CodeIs(g);
    size := size0;
    var m0, m1, m2, m3 := Value(g[0]), Value(g[1]), Value(g[2]), Value(g[3]);
    ok := !(m0 < 0 || m1 < 0 || m2 < 0 || m3 < 0);
    if ok {
      v[size], v[size + 1], v[size + 2] := m0 * 4 + m1 / 16, m1 % 16 * 16 + m2 / 4, m2 % 4 * 64 + m3;
      size := size + 3;
    }
  }

  /** Steps over a line break of one or two characters. */
  method SkipBreak(s: Bytes, i0: nat) returns (i: nat)
    requires i0 + 4 <= |s|
    ensures i == i0 + Skip(s[i0..]) && i <= i0 + 2
  {
    i := i0;
    if IsBreak(s[i]) {
      i := i + 1;
      if IsBreak(s[i]) {
        i := i + 1;
      }
    }
  }

  lemma {:induction false} Slices(s: Bytes, i: nat)
    requires i + 8 <= |s|
    ensures s[i..][..4] == s[i..i + 4] && s[i..][4..] == s[i + 4..]
    ensures s[i..][4 + Skip(s[i + 4..])..] == s[i + 4 + Skip(s[i + 4..])..]
  {
  }

  /** What the code finds at an index that may lie before the text. */
  function Peek(s: Bytes, before: int -> Byte, k: int): Byte {
    if 0 <= k < |s| then s[k] else before(k)
  }

  /** How much is left without a line break at the end, as the code looks for one: a length that has gone
      below zero is kept as it is, where the code wraps around. */
  method StripEnd(s: Bytes, i: nat, before: int -> Byte) returns (n: int, outside: bool)
    requires i <= |s| && (i > 0 ==> |s| - i >= 2)
    ensures outside <==> |s| == i || (|s| == i + 1 && IsBreak(s[i]))
    ensures if outside then n <= 0 else 0 <= n <= |s| - i && Stripped(s[i..]) == s[i..i + n]
  {
    ghost var t := s[i..];
    n := |s| - i;
    outside := i + n - 1 < 0;
    if IsBreak(Peek(s, before, i + n - 1)) {
      n := n - 1;
      outside := outside || i + n - 1 < 0;
      if IsBreak(Peek(s, before, i + n - 1)) {
        n := n - 1;
      }
    }
    assert !outside ==> t[..n] == s[i..i + n];
  }

  /** The groups before the last. */
  method DecodeGroups(s: Bytes, v: array<Byte>) returns (ok: bool, i: nat, size: nat)
    requires |s| * 3 < v.Length * 4 + 4
    modifies v
    ensures i <= |s| && size <= v.Length && size * 4 <= i * 3
    ensures if ok then |s| - i < 8 && After(v[..size], Decode(s[i..])) == Decode(s) else Decode(s) == None
    ensures if ok then i > 0 ==> |s| - i >= 2 else |s| >= 8
  {
    hide *;
    ok, i, size := true, 0, 0;
    assert s[0..] == s && v[..0] == [];
    AfterNothing(Decode(s));
    while |s| - i >= 8
      invariant ok && i <= |s| && size * 4 <= i * 3 && size <= v.Length && (i > 0 ==> |s| - i >= 2)
      invariant After(v[..size], Decode(s[i..])) == Decode(s)
      decreases |s| - i
    {
      NextGroup(s[i..], v[..size]);
      Slices(s, i);
      ok, size := DecodeGroup(s[i..i + 4], v, size);
      if !ok {
        size := 0;
        return;
      }
      i := SkipBreak(s, i + 4);
    }
  }

  /** The buffer has three quarters of the text's length: no write goes beyond it. The reads stay inside the
      text exactly if it is neither empty nor a single line break character; whatever lies before those two,
      they are refused. */
  method Base64Decode(s: Bytes, before: int -> Byte) returns (ok: bool, v: array<Byte>, size: nat, outside: bool)
    ensures fresh(v) && v.Length == |s| * 3 / 4 && size <= v.Length
    ensures (if ok then Some(v[..size]) else None) == Decode(s)
    ensures outside <==> s == [] || (|s| == 1 && (s[0] == '\r' as int || s[0] == '\n' as int))
  {
    v := new Byte[|s| * 3 / 4](_ => NUL);
    hide *;
    outside := false;
    var i: nat;
    ok, i, size := DecodeGroups(s, v);
    if !ok {
      return;
    }
    EndMeans(s[i..]);
    var n;
    n, outside := StripEnd(s, i, before);
    if outside {
      NothingLeft(s[i..]);
    }
    if n != 4 {
      NoneAfter(v[..size]);
      ok := false;
      return;
    }
    ok, size := DecodeFour(s[i..i + 4], v, size);
  }

  lemma {:induction false} NothingLeft(t: Bytes)
    requires t == [] || (|t| == 1 && IsBreak(t[0]))
    ensures Stripped(t) == []
  {
  }

  lemma {:induction false} NoneAfter(done: Bytes)
    ensures After(done, None) == None
  {
  }
}
