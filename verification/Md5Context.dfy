/** The MD5 context, updated in place, proved to do what the functions of `Md5` do with the block function
    of RFC 1321. */
module Md5Context {
  import opened ByteText
  import opened Word32
  import opened M = Md5
  import opened Md5Block

  /** `md5_ctx_t`, with its buffer of 64 bytes updated in place. */
  class Context {
    const buffer: array<Byte>
    var lo: nat
    var hi: nat
    var a: Word
    var b: Word
    var c: Word
    var d: Word

    ghost predicate Valid()
      reads this
    {
      buffer.Length == BLOCK
    }

    function Registers(): Words
      reads `a, `b, `c, `d
    {
      Words(a, b, c, d)
    }

    ghost function View(): Ctx
      reads this, buffer
    {
      Ctx(lo, hi, Registers(), buffer[..])
    }

    /** `md5_init`; the buffer is not initialised, here it is zero. */
    constructor ()
      ensures Valid() && View() == START && fresh(buffer)
      ensures Output(Registers())
           == [0x01, 0x23, 0x45, 0x67, 0x89, 0xab, 0xcd, 0xef,
               0xfe, 0xdc, 0xba, 0x98, 0x76, 0x54, 0x32, 0x10]
    {
      buffer := new Byte[BLOCK](k => 0);
      lo, hi := 0, 0;
      a, b, c, d := INIT.a, INIT.b, INIT.c, INIT.d;
      new;
      assert buffer[..] == Zeros(BLOCK);
      InitialWords();
    }

    /** `memcpy` and `memset` into the buffer. */
    method Put(at: nat, data: Bytes)
      requires Valid() && at + |data| <= BLOCK
      modifies buffer
      ensures buffer[..] == Write(old(buffer[..]), at, data)
    {
      forall k | 0 <= k < |data| {
        buffer[at + k] := data[k];
      }
    }

    /** `body`: one or more blocks; here also none. */
    method Body(data: Bytes)
      requires |data| % BLOCK == 0
      modifies `a, `b, `c, `d
      ensures Registers() == Blocks(Transform, old(Registers()), data)
    {
      hide Transform;
      var ptr := 0;
      assert data[ptr..] == data;
      while ptr < |data|
        invariant ptr <= |data| && (|data| - ptr) % BLOCK == 0
        invariant Blocks(Transform, Registers(), data[ptr..]) == Blocks(Transform, old(Registers()), data)
      {
        assert data[ptr..][..BLOCK] == data[ptr..ptr + BLOCK] && data[ptr..][BLOCK..] == data[ptr + BLOCK..];
        Block(data[ptr..ptr + BLOCK]);
        ptr := ptr + BLOCK;
      }
    }

    /** The loop body of `body`. */
    method Block(block: Bytes)
      requires |block| == BLOCK
      modifies `a, `b, `c, `d
      ensures Registers() == Transform(old(Registers()), block)
    {
      hide Steps, Add, WordsOf;
      var savedA, savedB, savedC, savedD := a, b, c, d;
      ghost var w := Registers();
      var x := WordsOf(block);
      NoSteps(w, x);
      a, b, c, d := Round1(a, b, c, d, x, w);
      a, b, c, d := Round2(a, b, c, d, x, w);
      a, b, c, d := Round3(a, b, c, d, x, w);
      a, b, c, d := Round4(a, b, c, d, x, w);
      a, b, c, d := Add(a, savedA), Add(b, savedB), Add(c, savedC), Add(d, savedD);
    }

    static lemma {:induction false} NoSteps(w: Words, x: seq<Word>)
      requires |x| == 16
      ensures Steps(w, x, 0) == w
    {
    }

    method BodyOfBuffer()
      requires Valid()
      modifies `a, `b, `c, `d
      ensures Registers() == Transform(old(Registers()), buffer[..])
    {
      hide Transform;
      OneBlock(Transform, Registers(), buffer[..]);
      Body(buffer[..]);
    }

    /** So many bytes more. */
    method Count(size: nat)
      requires Valid() && lo < LOW
      modifies `lo, `hi
      ensures View() == Counted(old(View()), size)
    {
      ghost var before := hi;
      var savedLo := lo;
      lo := (savedLo + size) % LOW;
      if lo < savedLo {
        hi := (hi + 1) % WORD;
      }
      hi := (hi + size / LOW) % WORD;
      AddTwice(before, if lo < savedLo then 1 else 0, size / LOW);
    }

    method Update(data: Bytes)
      requires Valid() && lo < LOW
      modifies `lo, `hi, `a, `b, `c, `d, buffer
      ensures View() == M.Update(Transform, old(View()), data)
    {
      hide Blocks, Write, Transform, Counted;
      var savedLo := lo;
      Count(|data|);
      var used := savedLo % BLOCK;
      var rest := data;
      if used > 0 {
        var available := BLOCK - used;
        if |data| < available {
          Put(used, data);
          return;
        }
        Put(used, data[..available]);
        rest := data[available..];
        BodyOfBuffer();
      }
      AbsorbRest(rest);
    }

    method AbsorbRest(rest: Bytes)
      requires Valid()
      modifies `a, `b, `c, `d, buffer
      ensures View() == Absorb(Transform, old(View()), rest)
    {
      hide Write, Transform;
      var whole := |rest| / BLOCK * BLOCK;
      if |rest| >= BLOCK {
        Body(rest[..whole]);
      }
      Put(0, rest[whole..]);
    }

    static lemma {:induction false} AddTwice(hi: nat, carry: nat, q: nat)
      requires carry <= 1
      ensures ((hi + carry) % WORD + q) % WORD == (hi + carry + q) % WORD
      ensures (hi + q) % WORD == (hi + 0 + q) % WORD
    {
      var k := (hi + carry) / WORD;
      DividesInto(hi + carry + q, WORD, k + ((hi + carry) % WORD + q) / WORD, ((hi + carry) % WORD + q) % WORD);
    }

    /** A buffer without room for the length is zeroed to its end and worked off; zeros go on at `start`. */
    method Spill(used: nat) returns (start: nat)
      requires Valid() && used <= BLOCK
      modifies `a, `b, `c, `d, buffer
      ensures var spill, full := BLOCK - used < 8, Write(old(buffer[..]), used, Zeros(BLOCK - used));
              && start == (if spill then 0 else used)
              && buffer[..] == (if spill then full else old(buffer[..]))
              && Registers() == (if spill then Transform(old(Registers()), full) else old(Registers()))
    {
      hide Write, Transform;
      start := used;
      if BLOCK - used < 8 {
        Put(used, Zeros(BLOCK - used));
        BodyOfBuffer();
        start := 0;
      }
    }

    method Wipe()
      requires Valid()
      modifies `lo, `hi, `a, `b, `c, `d, buffer
      ensures View() == Ctx(0, 0, Words(ZERO_WORD, ZERO_WORD, ZERO_WORD, ZERO_WORD), Zeros(BLOCK))
    {
      lo, hi := 0, 0;
      a, b, c, d := ZERO_WORD, ZERO_WORD, ZERO_WORD, ZERO_WORD;
      Put(0, Zeros(BLOCK));
    }

    method Finish() returns (result: Bytes)
      requires Valid()
      modifies `lo, `hi, `a, `b, `c, `d, buffer
      ensures result == M.Finish(Transform, old(View()))
      ensures View() == Ctx(0, 0, Words(ZERO_WORD, ZERO_WORD, ZERO_WORD, ZERO_WORD), Zeros(BLOCK))
    {
      hide Write, Little, Output, Transform, Zeros;
      var used := lo % BLOCK;
      Put(used, [0x80]);
      var start := Spill(used + 1);
      Put(start, Zeros(BLOCK - start - 8));
      lo := lo * 8 % WORD;
      Put(56, Little(lo));
      Put(60, Little(hi));
      BodyOfBuffer();
      result := Output(Registers());
      Wipe();
    }
  }
}
