/** MD5 streaming: however a message is cut into updates, the digest is that of the whole message padded
    as in sections 3.1 and 3.2 of RFC 1321. The function of one block is a parameter here; `Md5Block` has
    the one of the RFC. */
module Md5 {
  import opened ByteText
  import opened Word32

  const WORD := 0x1_0000_0000
  const LOW := 0x2000_0000
  const BLOCK := 64

  datatype Words = Words(a: Word, b: Word, c: Word, d: Word)

  const INIT: Words := Words(Word(0x67452301), Word(0xefcdab89), Word(0x98badcfe), Word(0x10325476))

  /** What one block of 64 bytes does to the four words. */
  type Compress = (Words, Bytes) -> Words

  // Specification

  function Zeros(n: nat): (r: Bytes)
    ensures |r| == n && forall k :: 0 <= k < n ==> r[k] == 0
  {
    seq(n, k => 0)
  }

  /** The low 32 bits of a number, lowest byte first. */
  function Little(n: nat): (r: Bytes)
    ensures |r| == 4
  {
    [n % 256, n / 0x100 % 256, n / 0x1_0000 % 256, n / 0x100_0000 % 256]
  }

  function LengthBytes(length: nat): (r: Bytes)
    ensures |r| == 8
  {
    var bits := 8 * length % (WORD * WORD);
    Little(bits % WORD) + Little(bits / WORD)
  }

  /** A one bit, zero bits up to 448 modulo 512, and the length in bits modulo 2^64. */
  function Padding(length: nat): Bytes {
    [0x80] + Zeros((119 - length % BLOCK) % BLOCK) + LengthBytes(length)
  }

  function Blocks(f: Compress, w: Words, m: Bytes): Words
    decreases |m|
  {
    if |m| < BLOCK then w else Blocks(f, f(w, m[..BLOCK]), m[BLOCK..])
  }

  function Output(w: Words): Bytes {
    Little(w.a.bits as nat) + Little(w.b.bits as nat) + Little(w.c.bits as nat) + Little(w.d.bits as nat)
  }

  lemma {:induction false} FirstA()
    ensures Little(0x67452301 as bv32 as nat) == [0x01, 0x23, 0x45, 0x67]
  {
  }

  lemma {:induction false} FirstB()
    ensures Little(0xefcdab89 as bv32 as nat) == [0x89, 0xab, 0xcd, 0xef]
  {
  }

  lemma {:induction false} FirstC()
    ensures Little(0x98badcfe as bv32 as nat) == [0xfe, 0xdc, 0xba, 0x98]
  {
  }

  lemma {:induction false} FirstD()
    ensures Little(0x10325476 as bv32 as nat) == [0x76, 0x54, 0x32, 0x10]
  {
  }

  /** The initial words, low-order bytes first, are those of section 3.3 of RFC 1321. */
  lemma {:induction false} InitialWords()
    ensures Output(INIT)
         == [0x01, 0x23, 0x45, 0x67, 0x89, 0xab, 0xcd, 0xef,
             0xfe, 0xdc, 0xba, 0x98, 0x76, 0x54, 0x32, 0x10]
  {
    hide Little;
    FirstA();
    FirstB();
    FirstC();
    FirstD();
  }

  function Digest(f: Compress, m: Bytes): Bytes {
    Output(Blocks(f, INIT, m + Padding(|m|)))
  }

  lemma {:induction false} PaddingFillsBlocks(length: nat)
    ensures (length + |Padding(length)|) % BLOCK == 0 && 9 <= |Padding(length)| <= 72
  {
    hide LengthBytes;
    var q, n := length / BLOCK, length % BLOCK;
    if n < 56 {
      DividesInto(119 - n, BLOCK, 1, 55 - n);
      DividesInto(length + |Padding(length)|, BLOCK, q + 1, 0);
    } else {
      DividesInto(119 - n, BLOCK, 0, 119 - n);
      DividesInto(length + |Padding(length)|, BLOCK, q + 2, 0);
    }
  }

  // The context

  datatype Ctx = Ctx(lo: nat, hi: nat, words: Words, buffer: Bytes)

  const START: Ctx := Ctx(0, 0, INIT, Zeros(BLOCK))

  function Write(buffer: Bytes, at: nat, data: Bytes): (r: Bytes)
    requires at + |data| <= |buffer|
    ensures |r| == |buffer|
  {
    buffer[..at] + data + buffer[at + |data|..]
  }

  predicate Sized(c: Ctx) {
    |c.buffer| == BLOCK
  }

  function Counted(c: Ctx, size: nat): Ctx {
    var lo := (c.lo + size) % LOW;
    c.(lo := lo, hi := (c.hi + (if lo < c.lo then 1 else 0) + size / LOW) % WORD)
  }

  /** What follows a filled buffer: whole blocks straight from the data, the rest into the buffer. */
  function Absorb(f: Compress, c: Ctx, data: Bytes): (r: Ctx)
    requires Sized(c)
    ensures Sized(r)
  {
    var whole := |data| / BLOCK * BLOCK;
    c.(words := Blocks(f, c.words, data[..whole]), buffer := Write(c.buffer, 0, data[whole..]))
  }

  function Update(f: Compress, c: Ctx, data: Bytes): (r: Ctx)
    requires Sized(c)
    ensures Sized(r)
  {
    var c1, used := Counted(c, |data|), c.lo % BLOCK;
    if used == 0 then Absorb(f, c1, data)
    else if |data| < BLOCK - used then c1.(buffer := Write(c.buffer, used, data))
    else
      var full := Write(c.buffer, used, data[..BLOCK - used]);
      Absorb(f, c1.(words := f(c.words, full), buffer := full), data[BLOCK - used..])
  }

  /** The last block or two. */
  function Finish(f: Compress, c: Ctx): Bytes
    requires Sized(c)
  {
    var used := c.lo % BLOCK + 1;
    var marked := Write(c.buffer, used - 1, [0x80]);
    var spill := BLOCK - used < 8;
    var words := if spill then f(c.words, Write(marked, used, Zeros(BLOCK - used))) else c.words;
    var left := if spill then Write(marked, used, Zeros(BLOCK - used)) else marked;
    var start := if spill then 0 else used;
    var zeroed := Write(left, start, Zeros(BLOCK - start - 8));
    var last := Write(Write(zeroed, 56, Little(c.lo * 8 % WORD)), 60, Little(c.hi));
    Output(f(words, last))
  }

  // A context and the message it stands for

  /** The counters hold the length in bytes modulo 2^61. */
  ghost predicate Counts(lo: nat, hi: nat, length: nat) {
    lo < LOW && hi < WORD && (length - lo - hi * LOW) % (LOW * WORD) == 0
  }

  /** The words are those of the whole blocks, the buffer begins with the rest. */
  ghost predicate Stands(f: Compress, c: Ctx, m: Bytes) {
    && Sized(c) && Counts(c.lo, c.hi, |m|)
    && c.words == Blocks(f, INIT, m[..|m| / BLOCK * BLOCK])
    && c.buffer[..|m| % BLOCK] == m[|m| / BLOCK * BLOCK..]
  }

  lemma {:induction false} BlocksJoin(f: Compress, w: Words, m: Bytes, n: Bytes)
    requires |m| % BLOCK == 0
    ensures Blocks(f, w, m + n) == Blocks(f, Blocks(f, w, m), n)
    decreases |m|
  {
    if |m| == 0 {
      assert m + n == n;
    } else {
      assert (m + n)[..BLOCK] == m[..BLOCK] && (m + n)[BLOCK..] == m[BLOCK..] + n;
      BlocksJoin(f, f(w, m[..BLOCK]), m[BLOCK..], n);
    }
  }

  lemma {:induction false} OneBlock(f: Compress, w: Words, m: Bytes)
    requires |m| == BLOCK
    ensures Blocks(f, w, m) == f(w, m)
  {
    assert m[..BLOCK] == m && m[BLOCK..] == [];
  }

  /** The low counter knows how full the buffer is. */
  lemma {:induction false} UsedIs(c: Ctx, length: nat)
    requires Counts(c.lo, c.hi, length)
    ensures c.lo % BLOCK == length % BLOCK
  {
    var k := (length - c.lo - c.hi * LOW) / (LOW * WORD);
    assert length == c.lo + 64 * (c.hi * 0x80_0000 + k * (0x80_0000 * WORD));
  }

  lemma {:induction false} CountedIs(c: Ctx, length: nat, size: nat)
    requires Counts(c.lo, c.hi, length)
    ensures Counts(Counted(c, size).lo, Counted(c, size).hi, length + size)
  {
    var c' := Counted(c, size);
    var k := (length - c.lo - c.hi * LOW) / (LOW * WORD);
    var q, s := size / LOW, size % LOW;
    var carry := if c'.lo < c.lo then 1 else 0;
    Carry(c.lo, size, c'.lo);
    var h := c.hi + carry + q;
    var over := h / WORD;
    assert h == c'.hi + over * WORD;
    Multiple(k + over, length + size - c'.lo - c'.hi * LOW);
  }

  /** Adding below 2^29 wraps exactly when the result is smaller. */
  lemma {:induction false} Carry(lo: nat, size: nat, lo': nat)
    requires lo < LOW && lo' == (lo + size) % LOW
    ensures lo + size == lo' + (size / LOW + if lo' < lo then 1 else 0) * LOW
  {
    var q, s := size / LOW, size % LOW;
    assert lo + size == q * LOW + (lo + s);
    assert lo' == if lo + s < LOW then lo + s else lo + s - LOW;
  }

  lemma {:induction false} Multiple(k: int, n: int)
    requires n == k * (LOW * WORD)
    ensures n % (LOW * WORD) == 0
  {
  }

  lemma {:induction false} AbsorbStands(f: Compress, c: Ctx, m: Bytes, data: Bytes)
    requires Sized(c) && Counts(c.lo, c.hi, |m + data|) && |m| % BLOCK == 0 && c.words == Blocks(f, INIT, m)
    ensures Stands(f, Absorb(f, c, data), m + data)
  {
    hide Counts;
    var whole, all := |data| / BLOCK * BLOCK, m + data;
    assert |all| / BLOCK * BLOCK == |m| + whole;
    assert all[..|m| + whole] == m + data[..whole];
    assert all[|m| + whole..] == data[whole..];
    BlocksJoin(f, INIT, m, data[..whole]);
    assert Absorb(f, c, data).buffer[..|data| - whole] == data[whole..];
  }

  /** The data fits into the buffer. */
  lemma {:induction false} FillStands(f: Compress, c: Ctx, c1: Ctx, m: Bytes, data: Bytes)
    requires Stands(f, c, m) && |m| % BLOCK + |data| < BLOCK
    requires Counts(c1.lo, c1.hi, |m + data|)
             && c1 == c.(lo := c1.lo, hi := c1.hi, buffer := Write(c.buffer, |m| % BLOCK, data))
    ensures Stands(f, c1, m + data)
  {
    hide Blocks, Counts;
    var used, all := |m| % BLOCK, m + data;
    var whole := |m| - used;
    assert |all| / BLOCK * BLOCK == whole == |m| / BLOCK * BLOCK;
    assert all[..whole] == m[..whole] && all[whole..] == m[whole..] + data;
    assert c1.buffer[..used + |data|] == c.buffer[..used] + data;
  }

  /** The data fills up the buffer. */
  lemma {:induction false} SpillStands(f: Compress, c: Ctx, m: Bytes, head: Bytes)
    requires Stands(f, c, m) && |m| % BLOCK + |head| == BLOCK
    ensures Blocks(f, INIT, m + head) == f(c.words, Write(c.buffer, |m| % BLOCK, head))
  {
    hide Blocks, Counts;
    var used := |m| % BLOCK;
    var whole := |m| - used;
    assert whole == |m| / BLOCK * BLOCK;
    var full := Write(c.buffer, used, head);
    assert full == m[whole..] + head;
    assert m + head == m[..whole] + full;
    BlocksJoin(f, INIT, m[..whole], full);
    OneBlock(f, c.words, full);
  }

  /** The data fills up the buffer, or finds it empty. */
  lemma {:induction false} OverflowStands(f: Compress, c: Ctx, c1: Ctx, m: Bytes, data: Bytes)
    requires Stands(f, c, m) && c1 == c.(lo := c1.lo, hi := c1.hi) && Counts(c1.lo, c1.hi, |m + data|)
    requires |m| % BLOCK + |data| >= BLOCK && |m| % BLOCK > 0
    ensures var head, tail := data[..BLOCK - |m| % BLOCK], data[BLOCK - |m| % BLOCK..];
            var full := Write(c.buffer, |m| % BLOCK, head);
            Stands(f, Absorb(f, c1.(words := f(c.words, full), buffer := full), tail), m + data)
  {
    hide Absorb, Blocks, Counts;
    var head, tail := data[..BLOCK - |m| % BLOCK], data[BLOCK - |m| % BLOCK..];
    SpillStands(f, c, m, head);
    assert data == head + tail;
    Regroup(m, head, tail);
    var full := Write(c.buffer, |m| % BLOCK, head);
    AbsorbStands(f, c1.(words := f(c.words, full), buffer := full), m + head, tail);
  }

  lemma {:induction false} UpdateStands(f: Compress, c: Ctx, m: Bytes, data: Bytes)
    requires Stands(f, c, m)
    ensures Stands(f, Update(f, c, data), m + data)
  {
    hide Counted, Absorb, Write, Blocks, Counts;
    UsedIs(c, |m|);
    CountedIs(c, |m|, |data|);
    CountedKeeps(c, |data|);
    var used, c1 := c.lo % BLOCK, Counted(c, |data|);
    if used == 0 {
      assert m[..|m| / BLOCK * BLOCK] == m;
      AbsorbStands(f, c1, m, data);
    } else if |data| < BLOCK - used {
      FillStands(f, c, c1.(buffer := Write(c.buffer, used, data)), m, data);
    } else {
      OverflowStands(f, c, c1, m, data);
    }
  }

  lemma {:induction false} CountedKeeps(c: Ctx, size: nat)
    ensures Counted(c, size).words == c.words && Counted(c, size).buffer == c.buffer
  {
  }

  /** The two counter words written at the end are the length in bits modulo 2^64. */
  lemma {:induction false} LengthIs(c: Ctx, length: nat)
    requires Counts(c.lo, c.hi, length)
    ensures LengthBytes(length) == Little(c.lo * 8 % WORD) + Little(c.hi)
  {
    hide Little;
    var k := (length - c.lo - c.hi * LOW) / (LOW * WORD);
    var r := c.hi * WORD + c.lo * 8;
    assert 8 * length == k * (WORD * WORD) + r;
    DividesInto(8 * length, WORD * WORD, k, r);
    DividesInto(r, WORD, c.hi, c.lo * 8);
  }

  lemma {:induction false} DividesInto(x: int, n: nat, q: int, r: nat)
    requires r < n && x == q * n + r
    ensures x % n == r && x / n == q
  {
    var d := x / n - q;
    assert d * n == r - x % n;
    Monotone(d, n);
  }

  lemma {:induction false} Monotone(d: int, n: nat)
    ensures d >= 1 ==> d * n >= n
    ensures d <= -1 ==> d * n <= -(n as int)
  {
  }

  lemma {:induction false} PaddingIs(c: Ctx, length: nat)
    requires Counts(c.lo, c.hi, length)
    ensures c.lo % BLOCK == length % BLOCK
    ensures Padding(length)
         == [0x80] + Zeros((119 - length % BLOCK) % BLOCK) + (Little(c.lo * 8 % WORD) + Little(c.hi))
  {
    UsedIs(c, length);
    LengthIs(c, length);
  }

  /** A message is its whole blocks, which the words stand for, and the rest, which the buffer holds. */
  lemma {:induction false} Parts(f: Compress, c: Ctx, m: Bytes) returns (head: Bytes, rest: Bytes)
    requires Stands(f, c, m)
    ensures m == head + rest && |head| % BLOCK == 0 && c.words == Blocks(f, INIT, head)
    ensures Sized(c) && |rest| == c.lo % BLOCK && c.buffer[..|rest|] == rest
    ensures Padding(|m|) == [0x80] + Zeros((119 - |rest|) % BLOCK) + (Little(c.lo * 8 % WORD) + Little(c.hi))
  {
    hide Padding, Little, Zeros, Blocks, Counts;
    PaddingIs(c, |m|);
    var whole := |m| / BLOCK * BLOCK;
    head, rest := m[..whole], m[whole..];
  }

  /** The last blocks are the rest of the message and its padding. */
  lemma {:induction false} FinishIsDigest(f: Compress, c: Ctx, m: Bytes)
    requires Stands(f, c, m)
    ensures Finish(f, c) == Digest(f, m)
  {
    hide Stands, Padding, Finish, Little, Zeros, Blocks, Output;
    var head, rest := Parts(f, c, m);
    Regroup(head, rest, Padding(|m|));
    BlocksJoin(f, INIT, head, rest + Padding(|m|));
    LastBlocks(f, c, rest);
  }

  lemma {:induction false} LastBlocks(f: Compress, c: Ctx, rest: Bytes)
    requires Sized(c) && |rest| == c.lo % BLOCK && c.buffer[..|rest|] == rest
    ensures var z := (119 - |rest|) % BLOCK;
            var length := Little(c.lo * 8 % WORD) + Little(c.hi);
            Finish(f, c) == Output(Blocks(f, c.words, rest + ([0x80] + Zeros(z) + length)))
  {
    hide Blocks, Output, Little;
    if |rest| + 1 > 56 {
      TwoBlocks(f, c, rest, Little(c.lo * 8 % WORD), Little(c.hi));
    } else {
      LastBlock(c, rest, Little(c.lo * 8 % WORD), Little(c.hi));
      OneBlock(f, c.words, rest + ([0x80] + Zeros(55 - |rest|) + (Little(c.lo * 8 % WORD) + Little(c.hi))));
    }
  }

  /** There is no room left for the length. */
  lemma {:induction false} TwoBlocks(f: Compress, c: Ctx, rest: Bytes, lo: Bytes, hi: Bytes)
    requires Sized(c) && 56 <= |rest| < BLOCK && c.buffer[..|rest|] == rest && |lo| == |hi| == 4
    ensures var n := |rest|;
            var left := Write(Write(c.buffer, n, [0x80]), n + 1, Zeros(63 - n));
            var end := Write(Write(Write(left, 0, Zeros(56)), 56, lo), 60, hi);
            Blocks(f, c.words, rest + ([0x80] + Zeros(119 - n) + (lo + hi))) == f(f(c.words, left), end)
  {
    hide Blocks;
    var n := |rest|;
    var left := Write(Write(c.buffer, n, [0x80]), n + 1, Zeros(63 - n));
    var end := Write(Write(Write(left, 0, Zeros(56)), 56, lo), 60, hi);
    assert left == rest + [0x80] + Zeros(63 - n);
    assert end == Zeros(56) + lo + hi;
    assert rest + ([0x80] + Zeros(119 - n) + (lo + hi)) == left + end;
    BlocksJoin(f, c.words, left, end);
    OneBlock(f, c.words, left);
    OneBlock(f, f(c.words, left), end);
  }

  lemma {:induction false} LastBlock(c: Ctx, rest: Bytes, lo: Bytes, hi: Bytes)
    requires Sized(c) && |rest| <= 55 && c.buffer[..|rest|] == rest && |lo| == |hi| == 4
    ensures Write(Write(Write(Write(c.buffer, |rest|, [0x80]), |rest| + 1, Zeros(55 - |rest|)), 56, lo), 60, hi)
         == rest + ([0x80] + Zeros(55 - |rest|) + (lo + hi))
  {
    var n := |rest|;
    var zeroed := Write(Write(c.buffer, n, [0x80]), n + 1, Zeros(55 - n));
    assert zeroed[..56] == rest + [0x80] + Zeros(55 - n);
  }

  // Any number of updates

  function Concat(chunks: seq<Bytes>): Bytes {
    if |chunks| == 0 then [] else chunks[0] + Concat(chunks[1..])
  }

  function UpdateAll(f: Compress, c: Ctx, chunks: seq<Bytes>): (r: Ctx)
    requires Sized(c)
    ensures Sized(r)
    decreases |chunks|
  {
    if |chunks| == 0 then c else UpdateAll(f, Update(f, c, chunks[0]), chunks[1..])
  }

  lemma {:induction false} UpdateAllStands(f: Compress, c: Ctx, m: Bytes, chunks: seq<Bytes>)
    requires Stands(f, c, m)
    ensures Stands(f, UpdateAll(f, c, chunks), m + Concat(chunks))
    decreases |chunks|
  {
    hide Stands, Update;
    StandsSized(f, c, m);
    if |chunks| == 0 {
      assert m + Concat(chunks) == m;
    } else {
      UpdateStands(f, c, m, chunks[0]);
      UpdateAllStands(f, Update(f, c, chunks[0]), m + chunks[0], chunks[1..]);
      Regroup(m, chunks[0], Concat(chunks[1..]));
    }
  }

  lemma {:induction false} StandsSized(f: Compress, c: Ctx, m: Bytes)
    requires Stands(f, c, m)
    ensures Sized(c)
  {
  }

  lemma {:induction false} StartStands(f: Compress)
    ensures Stands(f, START, [])
  {
  }

  /** However a message is cut into updates, empty ones included, the digest is that of the message. */
  lemma {:induction false} AnySplitGivesTheDigest(f: Compress, chunks: seq<Bytes>)
    ensures Finish(f, UpdateAll(f, START, chunks)) == Digest(f, Concat(chunks))
  {
    hide Stands, Digest, Finish;
    StartStands(f);
    UpdateAllStands(f, START, [], chunks);
    assert [] + Concat(chunks) == Concat(chunks);
    FinishIsDigest(f, UpdateAll(f, START, chunks), Concat(chunks));
  }
}
