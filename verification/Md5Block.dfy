/** The block function of MD5: the four unrolled rounds of `body`, with their rewritten bitwise functions,
    do the 64 operations of section 3.4 of RFC 1321. */
module Md5Block {
  import opened ByteText
  import opened Word32
  import opened Md5

  // RFC 1321, section 3.4

  function F(x: Word, y: Word, z: Word): Word {
    Word((x.bits & y.bits) | (!x.bits & z.bits))
  }

  function G(x: Word, y: Word, z: Word): Word {
    Word((x.bits & z.bits) | (y.bits & !z.bits))
  }

  function H(x: Word, y: Word, z: Word): Word {
    Word(x.bits ^ y.bits ^ z.bits)
  }

  function I(x: Word, y: Word, z: Word): Word {
    Word(y.bits ^ (x.bits | !z.bits))
  }

  /** The function of the i-th operation, counted from zero. */
  function Mixed(i: nat, x: Word, y: Word, z: Word): Word {
    if i < 16 then F(x, y, z) else if i < 32 then G(x, y, z) else if i < 48 then H(x, y, z) else I(x, y, z)
  }

  /** The word of the block that it takes. */
  function Index(i: nat): (k: nat)
    ensures k < 16
  {
    if i < 16 then i else if i < 32 then (5 * i + 1) % 16 else if i < 48 then (3 * i + 5) % 16 else 7 * i % 16
  }

  /** By how much it shifts. */
  function Amount(i: nat): (s: bv32)
    ensures 0 < s < 32
  {
    if i < 16 then InTurn(i, 7, 12, 17, 22) else if i < 32 then InTurn(i, 5, 9, 14, 20)
    else if i < 48 then InTurn(i, 4, 11, 16, 23) else InTurn(i, 6, 10, 15, 21)
  }

  function InTurn(i: nat, s0: bv32, s1: bv32, s2: bv32, s3: bv32): bv32 {
    if i % 4 == 0 then s0 else if i % 4 == 1 then s1 else if i % 4 == 2 then s2 else s3
  }

  /** The table of the RFC: the integer part of 2^32 times the absolute value of the sine of i + 1. */
  function Sine(i: nat): Word {
    if i < 16 then Sine1(i) else if i < 32 then Sine2(i) else if i < 48 then Sine3(i) else Sine4(i)
  }

  function Sine1(i: nat): Word {
    match i
    case 0 => Word(0xd76aa478)
    case 1 => Word(0xe8c7b756)
    case 2 => Word(0x242070db)
    case 3 => Word(0xc1bdceee)
    case 4 => Word(0xf57c0faf)
    case 5 => Word(0x4787c62a)
    case 6 => Word(0xa8304613)
    case 7 => Word(0xfd469501)
    case 8 => Word(0x698098d8)
    case 9 => Word(0x8b44f7af)
    case 10 => Word(0xffff5bb1)
    case 11 => Word(0x895cd7be)
    case 12 => Word(0x6b901122)
    case 13 => Word(0xfd987193)
    case 14 => Word(0xa679438e)
    case _ => Word(0x49b40821)
  }

  function Sine2(i: nat): Word {
    match i
    case 16 => Word(0xf61e2562)
    case 17 => Word(0xc040b340)
    case 18 => Word(0x265e5a51)
    case 19 => Word(0xe9b6c7aa)
    case 20 => Word(0xd62f105d)
    case 21 => Word(0x02441453)
    case 22 => Word(0xd8a1e681)
    case 23 => Word(0xe7d3fbc8)
    case 24 => Word(0x21e1cde6)
    case 25 => Word(0xc33707d6)
    case 26 => Word(0xf4d50d87)
    case 27 => Word(0x455a14ed)
    case 28 => Word(0xa9e3e905)
    case 29 => Word(0xfcefa3f8)
    case 30 => Word(0x676f02d9)
    case _ => Word(0x8d2a4c8a)
  }

  function Sine3(i: nat): Word {
    match i
    case 32 => Word(0xfffa3942)
    case 33 => Word(0x8771f681)
    case 34 => Word(0x6d9d6122)
    case 35 => Word(0xfde5380c)
    case 36 => Word(0xa4beea44)
    case 37 => Word(0x4bdecfa9)
    case 38 => Word(0xf6bb4b60)
    case 39 => Word(0xbebfbc70)
    case 40 => Word(0x289b7ec6)
    case 41 => Word(0xeaa127fa)
    case 42 => Word(0xd4ef3085)
    case 43 => Word(0x04881d05)
    case 44 => Word(0xd9d4d039)
    case 45 => Word(0xe6db99e5)
    case 46 => Word(0x1fa27cf8)
    case _ => Word(0xc4ac5665)
  }

  function Sine4(i: nat): Word {
    match i
    case 48 => Word(0xf4292244)
    case 49 => Word(0x432aff97)
    case 50 => Word(0xab9423a7)
    case 51 => Word(0xfc93a039)
    case 52 => Word(0x655b59c3)
    case 53 => Word(0x8f0ccc92)
    case 54 => Word(0xffeff47d)
    case 55 => Word(0x85845dd1)
    case 56 => Word(0x6fa87e4f)
    case 57 => Word(0xfe2ce6e0)
    case 58 => Word(0xa3014314)
    case 59 => Word(0x4e0811a1)
    case 60 => Word(0xf7537e82)
    case 61 => Word(0xbd3af235)
    case 62 => Word(0x2ad7d2bb)
    case _ => Word(0xeb86d391)
  }

  /** One operation; the words change places, so that the one to be changed is always the first. */
  function Operation(w: Words, x: seq<Word>, i: nat): Words
    requires |x| == 16
  {
    var sum := Add(w.a, Add(Add(Mixed(i, w.b, w.c, w.d), x[Index(i)]), Sine(i)));
    Words(w.d, Add(Rotated(sum, Amount(i) as nat), w.b), w.b, w.c)
  }

  /** The first n operations. */
  function Steps(w: Words, x: seq<Word>, n: nat): Words
    requires |x| == 16
  {
    if n == 0 then w else Operation(Steps(w, x, n - 1), x, n - 1)
  }

  /** A word of four bytes, the low-order byte first. */
  function LittleEndian(p0: bv32, p1: bv32, p2: bv32, p3: bv32): Word {
    Word(p0 + p1 * 0x100 + p2 * 0x1_0000 + p3 * 0x100_0000)
  }

  function WordOf(p: Bytes): Word
    requires |p| == 4
  {
    LittleEndian(p[0] as bv32, p[1] as bv32, p[2] as bv32, p[3] as bv32)
  }

  function WordsOf(block: Bytes): (x: seq<Word>)
    requires |block| == BLOCK
    ensures |x| == 16
  {
    seq(16, n requires 0 <= n < 16 => WordOf(block[4 * n..4 * n + 4]))
  }

  function Sum(v: Words, w: Words): Words {
    Words(Add(v.a, w.a), Add(v.b, w.b), Add(v.c, w.c), Add(v.d, w.d))
  }

  /** What the RFC does with a block of 64 bytes. */
  function Transform(w: Words, block: Bytes): Words {
    if |block| == BLOCK then Sum(Steps(w, WordsOf(block), 64), w) else w
  }

  // The forms of the code

  function FastF(x: Word, y: Word, z: Word): Word {
    Word(z.bits ^ (x.bits & (y.bits ^ z.bits)))
  }

  function FastG(x: Word, y: Word, z: Word): Word {
    Word(y.bits ^ (z.bits & (x.bits ^ y.bits)))
  }

  /** `H2`. */
  function FastH(x: Word, y: Word, z: Word): Word {
    Word(x.bits ^ (y.bits ^ z.bits))
  }

  /** `STEP`, given the value of its function. */
  function Step(f: Word, a: Word, b: Word, x: Word, t: Word, s: bv32): Word
    requires s < 32
  {
    Add(Shifted(Add(a, Add(Add(f, x), t)), s), b)
  }

  /** `SET`, where the bytes of a word are put together one by one. */
  function Assembled(p0: bv32, p1: bv32, p2: bv32, p3: bv32): Word {
    Word(p0 | (p1 << 8) | (p2 << 16) | (p3 << 24))
  }

  lemma {:induction false} BytesAssemble(p0: bv32, p1: bv32, p2: bv32, p3: bv32)
    requires p0 < 0x100 && p1 < 0x100 && p2 < 0x100 && p3 < 0x100
    ensures Assembled(p0, p1, p2, p3) == LittleEndian(p0, p1, p2, p3)
  {
  }

  lemma {:induction false} FastFIs(x: Word, y: Word, z: Word)
    ensures FastF(x, y, z) == F(x, y, z)
  {
  }

  lemma {:induction false} FastGIs(x: Word, y: Word, z: Word)
    ensures FastG(x, y, z) == G(x, y, z)
  {
  }

  lemma {:induction false} FastHIs(x: Word, y: Word, z: Word)
    ensures FastH(x, y, z) == H(x, y, z)
  {
  }

  /** The function that the code has for the i-th operation; in the third round two take turns. */
  function Coded(i: nat, x: Word, y: Word, z: Word): Word {
    if i < 16 then FastF(x, y, z) else if i < 32 then FastG(x, y, z)
    else if i < 48 then if i % 2 == 0 then H(x, y, z) else FastH(x, y, z)
    else I(x, y, z)
  }

  /** The rewritten functions are those of the RFC. */
  lemma {:induction false} CodedIs(i: nat, x: Word, y: Word, z: Word)
    ensures Coded(i, x, y, z) == Mixed(i, x, y, z)
  {
    hide F, G, H, I, FastF, FastG, FastH;
    FastFIs(x, y, z);
    FastGIs(x, y, z);
    FastHIs(x, y, z);
  }

  /** What `STEP` does is one operation. */
  lemma {:induction false} NextStep(w: Words, x: seq<Word>, i: nat)
    requires |x| == 16
    ensures var v := Steps(w, x, i);
            Steps(w, x, i + 1)
              == Words(v.d, Step(Coded(i, v.b, v.c, v.d), v.a, v.b, x[Index(i)], Sine(i), Amount(i)), v.b, v.c)
  {
    hide Shifted, Rotated, Add, Coded, Mixed, Sine, Amount, Index;
    var v := Steps(w, x, i);
    CodedIs(i, v.b, v.c, v.d);
    ShiftsRotate(Add(v.a, Add(Add(Mixed(i, v.b, v.c, v.d), x[Index(i)]), Sine(i))), Amount(i));
  }

  /** After four steps the words are in their places again. */
  lemma {:induction false} FourSteps(w: Words, x: seq<Word>, i: nat)
    requires |x| == 16
    ensures var v := Steps(w, x, i);
            var a := Step(Coded(i, v.b, v.c, v.d), v.a, v.b, x[Index(i)], Sine(i), Amount(i));
            var d := Step(Coded(i + 1, a, v.b, v.c), v.d, a, x[Index(i + 1)], Sine(i + 1), Amount(i + 1));
            var c := Step(Coded(i + 2, d, a, v.b), v.c, d, x[Index(i + 2)], Sine(i + 2), Amount(i + 2));
            var b := Step(Coded(i + 3, c, d, a), v.b, c, x[Index(i + 3)], Sine(i + 3), Amount(i + 3));
            Steps(w, x, i + 4) == Words(a, b, c, d)
  {
    hide Steps, Step, Coded, Sine, Amount, Index;
    NextStep(w, x, i);
    NextStep(w, x, i + 1);
    NextStep(w, x, i + 2);
    NextStep(w, x, i + 3);
  }

  /** However a message is cut into updates, the result is the MD5 digest of the message. */
  lemma {:induction false} AnySplitGivesTheMd5(chunks: seq<Bytes>)
    ensures Finish(Transform, UpdateAll(Transform, START, chunks)) == Digest(Transform, Concat(chunks))
  {
    AnySplitGivesTheDigest(Transform, chunks);
  }

  // The four rounds

  lemma {:induction false} Indices1()
    ensures Index(0) == 0 && Index(1) == 1 && Index(2) == 2 && Index(3) == 3
    ensures Index(4) == 4 && Index(5) == 5 && Index(6) == 6 && Index(7) == 7
    ensures Index(8) == 8 && Index(9) == 9 && Index(10) == 10 && Index(11) == 11
    ensures Index(12) == 12 && Index(13) == 13 && Index(14) == 14 && Index(15) == 15
  {
  }

  lemma {:induction false} Sines1()
    ensures Sine(0) == Word(0xd76aa478) && Sine(1) == Word(0xe8c7b756) && Sine(2) == Word(0x242070db)
    ensures Sine(3) == Word(0xc1bdceee) && Sine(4) == Word(0xf57c0faf) && Sine(5) == Word(0x4787c62a)
    ensures Sine(6) == Word(0xa8304613) && Sine(7) == Word(0xfd469501) && Sine(8) == Word(0x698098d8)
    ensures Sine(9) == Word(0x8b44f7af) && Sine(10) == Word(0xffff5bb1) && Sine(11) == Word(0x895cd7be)
    ensures Sine(12) == Word(0x6b901122) && Sine(13) == Word(0xfd987193) && Sine(14) == Word(0xa679438e)
    ensures Sine(15) == Word(0x49b40821)
  {
  }

  lemma {:induction false} Amounts1()
    ensures Amount(0) == 7 && Amount(1) == 12 && Amount(2) == 17 && Amount(3) == 22
    ensures Amount(4) == 7 && Amount(5) == 12 && Amount(6) == 17 && Amount(7) == 22
    ensures Amount(8) == 7 && Amount(9) == 12 && Amount(10) == 17 && Amount(11) == 22
    ensures Amount(12) == 7 && Amount(13) == 12 && Amount(14) == 17 && Amount(15) == 22
  {
  }

  lemma {:induction false} Indices2()
    ensures Index(16) == 1 && Index(17) == 6 && Index(18) == 11 && Index(19) == 0
    ensures Index(20) == 5 && Index(21) == 10 && Index(22) == 15 && Index(23) == 4
    ensures Index(24) == 9 && Index(25) == 14 && Index(26) == 3 && Index(27) == 8
    ensures Index(28) == 13 && Index(29) == 2 && Index(30) == 7 && Index(31) == 12
  {
  }

  lemma {:induction false} Sines2()
    ensures Sine(16) == Word(0xf61e2562) && Sine(17) == Word(0xc040b340) && Sine(18) == Word(0x265e5a51)
    ensures Sine(19) == Word(0xe9b6c7aa) && Sine(20) == Word(0xd62f105d) && Sine(21) == Word(0x02441453)
    ensures Sine(22) == Word(0xd8a1e681) && Sine(23) == Word(0xe7d3fbc8) && Sine(24) == Word(0x21e1cde6)
    ensures Sine(25) == Word(0xc33707d6) && Sine(26) == Word(0xf4d50d87) && Sine(27) == Word(0x455a14ed)
    ensures Sine(28) == Word(0xa9e3e905) && Sine(29) == Word(0xfcefa3f8) && Sine(30) == Word(0x676f02d9)
    ensures Sine(31) == Word(0x8d2a4c8a)
  {
  }

  lemma {:induction false} Amounts2()
    ensures Amount(16) == 5 && Amount(17) == 9 && Amount(18) == 14 && Amount(19) == 20
    ensures Amount(20) == 5 && Amount(21) == 9 && Amount(22) == 14 && Amount(23) == 20
    ensures Amount(24) == 5 && Amount(25) == 9 && Amount(26) == 14 && Amount(27) == 20
    ensures Amount(28) == 5 && Amount(29) == 9 && Amount(30) == 14 && Amount(31) == 20
  {
  }

  lemma {:induction false} Indices3()
    ensures Index(32) == 5 && Index(33) == 8 && Index(34) == 11 && Index(35) == 14
    ensures Index(36) == 1 && Index(37) == 4 && Index(38) == 7 && Index(39) == 10
    ensures Index(40) == 13 && Index(41) == 0 && Index(42) == 3 && Index(43) == 6
    ensures Index(44) == 9 && Index(45) == 12 && Index(46) == 15 && Index(47) == 2
  {
  }

  lemma {:induction false} Sines3()
    ensures Sine(32) == Word(0xfffa3942) && Sine(33) == Word(0x8771f681) && Sine(34) == Word(0x6d9d6122)
    ensures Sine(35) == Word(0xfde5380c) && Sine(36) == Word(0xa4beea44) && Sine(37) == Word(0x4bdecfa9)
    ensures Sine(38) == Word(0xf6bb4b60) && Sine(39) == Word(0xbebfbc70) && Sine(40) == Word(0x289b7ec6)
    ensures Sine(41) == Word(0xeaa127fa) && Sine(42) == Word(0xd4ef3085) && Sine(43) == Word(0x04881d05)
    ensures Sine(44) == Word(0xd9d4d039) && Sine(45) == Word(0xe6db99e5) && Sine(46) == Word(0x1fa27cf8)
    ensures Sine(47) == Word(0xc4ac5665)
  {
  }

  lemma {:induction false} Amounts3()
    ensures Amount(32) == 4 && Amount(33) == 11 && Amount(34) == 16 && Amount(35) == 23
    ensures Amount(36) == 4 && Amount(37) == 11 && Amount(38) == 16 && Amount(39) == 23
    ensures Amount(40) == 4 && Amount(41) == 11 && Amount(42) == 16 && Amount(43) == 23
    ensures Amount(44) == 4 && Amount(45) == 11 && Amount(46) == 16 && Amount(47) == 23
  {
  }

  lemma {:induction false} Indices4()
    ensures Index(48) == 0 && Index(49) == 7 && Index(50) == 14 && Index(51) == 5
    ensures Index(52) == 12 && Index(53) == 3 && Index(54) == 10 && Index(55) == 1
    ensures Index(56) == 8 && Index(57) == 15 && Index(58) == 6 && Index(59) == 13
    ensures Index(60) == 4 && Index(61) == 11 && Index(62) == 2 && Index(63) == 9
  {
  }

  lemma {:induction false} Sines4()
    ensures Sine(48) == Word(0xf4292244) && Sine(49) == Word(0x432aff97) && Sine(50) == Word(0xab9423a7)
    ensures Sine(51) == Word(0xfc93a039) && Sine(52) == Word(0x655b59c3) && Sine(53) == Word(0x8f0ccc92)
    ensures Sine(54) == Word(0xffeff47d) && Sine(55) == Word(0x85845dd1) && Sine(56) == Word(0x6fa87e4f)
    ensures Sine(57) == Word(0xfe2ce6e0) && Sine(58) == Word(0xa3014314) && Sine(59) == Word(0x4e0811a1)
    ensures Sine(60) == Word(0xf7537e82) && Sine(61) == Word(0xbd3af235) && Sine(62) == Word(0x2ad7d2bb)
    ensures Sine(63) == Word(0xeb86d391)
  {
  }

  lemma {:induction false} Amounts4()
    ensures Amount(48) == 6 && Amount(49) == 10 && Amount(50) == 15 && Amount(51) == 21
    ensures Amount(52) == 6 && Amount(53) == 10 && Amount(54) == 15 && Amount(55) == 21
    ensures Amount(56) == 6 && Amount(57) == 10 && Amount(58) == 15 && Amount(59) == 21
    ensures Amount(60) == 6 && Amount(61) == 10 && Amount(62) == 15 && Amount(63) == 21
  {
  }

  /** Round 1 of `body`. */
  method Round1(a0: Word, b0: Word, c0: Word, d0: Word, x: seq<Word>, ghost w: Words)
    returns (a: Word, b: Word, c: Word, d: Word)
    requires |x| == 16 && Words(a0, b0, c0, d0) == Steps(w, x, 0)
    ensures Words(a, b, c, d) == Steps(w, x, 16)
  {
    hide Steps, Step, F, G, H, I, FastF, FastG, FastH, Index, Sine, Amount;
    a, b, c, d := a0, b0, c0, d0;
    Indices1();
    Sines1();
    Amounts1();
    FourSteps(w, x, 0);
    a := Step(FastF(b, c, d), a, b, x[0], Word(0xd76aa478), 7);
    d := Step(FastF(a, b, c), d, a, x[1], Word(0xe8c7b756), 12);
    c := Step(FastF(d, a, b), c, d, x[2], Word(0x242070db), 17);
    b := Step(FastF(c, d, a), b, c, x[3], Word(0xc1bdceee), 22);
    FourSteps(w, x, 4);
    a := Step(FastF(b, c, d), a, b, x[4], Word(0xf57c0faf), 7);
    d := Step(FastF(a, b, c), d, a, x[5], Word(0x4787c62a), 12);
    c := Step(FastF(d, a, b), c, d, x[6], Word(0xa8304613), 17);
    b := Step(FastF(c, d, a), b, c, x[7], Word(0xfd469501), 22);
    FourSteps(w, x, 8);
    a := Step(FastF(b, c, d), a, b, x[8], Word(0x698098d8), 7);
    d := Step(FastF(a, b, c), d, a, x[9], Word(0x8b44f7af), 12);
    c := Step(FastF(d, a, b), c, d, x[10], Word(0xffff5bb1), 17);
    b := Step(FastF(c, d, a), b, c, x[11], Word(0x895cd7be), 22);
    FourSteps(w, x, 12);
    a := Step(FastF(b, c, d), a, b, x[12], Word(0x6b901122), 7);
    d := Step(FastF(a, b, c), d, a, x[13], Word(0xfd987193), 12);
    c := Step(FastF(d, a, b), c, d, x[14], Word(0xa679438e), 17);
    b := Step(FastF(c, d, a), b, c, x[15], Word(0x49b40821), 22);
  }

  /** Round 2 of `body`. */
  method Round2(a0: Word, b0: Word, c0: Word, d0: Word, x: seq<Word>, ghost w: Words)
    returns (a: Word, b: Word, c: Word, d: Word)
    requires |x| == 16 && Words(a0, b0, c0, d0) == Steps(w, x, 16)
    ensures Words(a, b, c, d) == Steps(w, x, 32)
  {
    hide Steps, Step, F, G, H, I, FastF, FastG, FastH, Index, Sine, Amount;
    a, b, c, d := a0, b0, c0, d0;
    Indices2();
    Sines2();
    Amounts2();
    FourSteps(w, x, 16);
    a := Step(FastG(b, c, d), a, b, x[1], Word(0xf61e2562), 5);
    d := Step(FastG(a, b, c), d, a, x[6], Word(0xc040b340), 9);
    c := Step(FastG(d, a, b), c, d, x[11], Word(0x265e5a51), 14);
    b := Step(FastG(c, d, a), b, c, x[0], Word(0xe9b6c7aa), 20);
    FourSteps(w, x, 20);
    a := Step(FastG(b, c, d), a, b, x[5], Word(0xd62f105d), 5);
    d := Step(FastG(a, b, c), d, a, x[10], Word(0x02441453), 9);
    c := Step(FastG(d, a, b), c, d, x[15], Word(0xd8a1e681), 14);
    b := Step(FastG(c, d, a), b, c, x[4], Word(0xe7d3fbc8), 20);
    FourSteps(w, x, 24);
    a := Step(FastG(b, c, d), a, b, x[9], Word(0x21e1cde6), 5);
    d := Step(FastG(a, b, c), d, a, x[14], Word(0xc33707d6), 9);
    c := Step(FastG(d, a, b), c, d, x[3], Word(0xf4d50d87), 14);
    b := Step(FastG(c, d, a), b, c, x[8], Word(0x455a14ed), 20);
    FourSteps(w, x, 28);
    a := Step(FastG(b, c, d), a, b, x[13], Word(0xa9e3e905), 5);
    d := Step(FastG(a, b, c), d, a, x[2], Word(0xfcefa3f8), 9);
    c := Step(FastG(d, a, b), c, d, x[7], Word(0x676f02d9), 14);
    b := Step(FastG(c, d, a), b, c, x[12], Word(0x8d2a4c8a), 20);
  }

  /** Round 3 of `body`. */
  method Round3(a0: Word, b0: Word, c0: Word, d0: Word, x: seq<Word>, ghost w: Words)
    returns (a: Word, b: Word, c: Word, d: Word)
    requires |x| == 16 && Words(a0, b0, c0, d0) == Steps(w, x, 32)
    ensures Words(a, b, c, d) == Steps(w, x, 48)
  {
    hide Steps, Step, F, G, H, I, FastF, FastG, FastH, Index, Sine, Amount;
    a, b, c, d := a0, b0, c0, d0;
    Indices3();
    Sines3();
    Amounts3();
    FourSteps(w, x, 32);
    a := Step(H(b, c, d), a, b, x[5], Word(0xfffa3942), 4);
    d := Step(FastH(a, b, c), d, a, x[8], Word(0x8771f681), 11);
    c := Step(H(d, a, b), c, d, x[11], Word(0x6d9d6122), 16);
    b := Step(FastH(c, d, a), b, c, x[14], Word(0xfde5380c), 23);
    FourSteps(w, x, 36);
    a := Step(H(b, c, d), a, b, x[1], Word(0xa4beea44), 4);
    d := Step(FastH(a, b, c), d, a, x[4], Word(0x4bdecfa9), 11);
    c := Step(H(d, a, b), c, d, x[7], Word(0xf6bb4b60), 16);
    b := Step(FastH(c, d, a), b, c, x[10], Word(0xbebfbc70), 23);
    FourSteps(w, x, 40);
    a := Step(H(b, c, d), a, b, x[13], Word(0x289b7ec6), 4);
    d := Step(FastH(a, b, c), d, a, x[0], Word(0xeaa127fa), 11);
    c := Step(H(d, a, b), c, d, x[3], Word(0xd4ef3085), 16);
    b := Step(FastH(c, d, a), b, c, x[6], Word(0x04881d05), 23);
    FourSteps(w, x, 44);
    a := Step(H(b, c, d), a, b, x[9], Word(0xd9d4d039), 4);
    d := Step(FastH(a, b, c), d, a, x[12], Word(0xe6db99e5), 11);
    c := Step(H(d, a, b), c, d, x[15], Word(0x1fa27cf8), 16);
    b := Step(FastH(c, d, a), b, c, x[2], Word(0xc4ac5665), 23);
  }

  /** Round 4 of `body`. */
  method Round4(a0: Word, b0: Word, c0: Word, d0: Word, x: seq<Word>, ghost w: Words)
    returns (a: Word, b: Word, c: Word, d: Word)
    requires |x| == 16 && Words(a0, b0, c0, d0) == Steps(w, x, 48)
    ensures Words(a, b, c, d) == Steps(w, x, 64)
  {
    hide Steps, Step, F, G, H, I, FastF, FastG, FastH, Index, Sine, Amount;
    a, b, c, d := a0, b0, c0, d0;
    Indices4();
    Sines4();
    Amounts4();
    FourSteps(w, x, 48);
    a := Step(I(b, c, d), a, b, x[0], Word(0xf4292244), 6);
    d := Step(I(a, b, c), d, a, x[7], Word(0x432aff97), 10);
    c := Step(I(d, a, b), c, d, x[14], Word(0xab9423a7), 15);
    b := Step(I(c, d, a), b, c, x[5], Word(0xfc93a039), 21);
    FourSteps(w, x, 52);
    a := Step(I(b, c, d), a, b, x[12], Word(0x655b59c3), 6);
    d := Step(I(a, b, c), d, a, x[3], Word(0x8f0ccc92), 10);
    c := Step(I(d, a, b), c, d, x[10], Word(0xffeff47d), 15);
    b := Step(I(c, d, a), b, c, x[1], Word(0x85845dd1), 21);
    FourSteps(w, x, 56);
    a := Step(I(b, c, d), a, b, x[8], Word(0x6fa87e4f), 6);
    d := Step(I(a, b, c), d, a, x[15], Word(0xfe2ce6e0), 10);
    c := Step(I(d, a, b), c, d, x[6], Word(0xa3014314), 15);
    b := Step(I(c, d, a), b, c, x[13], Word(0x4e0811a1), 21);
    FourSteps(w, x, 60);
    a := Step(I(b, c, d), a, b, x[4], Word(0xf7537e82), 6);
    d := Step(I(a, b, c), d, a, x[11], Word(0xbd3af235), 10);
    c := Step(I(d, a, b), c, d, x[2], Word(0x2ad7d2bb), 15);
    b := Step(I(c, d, a), b, c, x[9], Word(0xeb86d391), 21);
  }
}
