/** 32-bit words: their sum, and shifting them in a circle. */
module Word32 {
  datatype Word = Word(bits: bv32)

  const ZERO_WORD := Word(0)

  /** Modulo 2^32. */
  function Add(x: Word, y: Word): Word {
    Word(x.bits + y.bits)
  }

  function Left(x: Word, s: bv32): Word
    requires s <= 32
  {
    Word(x.bits << s)
  }

  function Right(x: Word, s: bv32): Word
    requires s <= 32
  {
    Word(x.bits >> s)
  }

  function Or(x: Word, y: Word): Word {
    Word(x.bits | y.bits)
  }

  function Low32(x: Word): Word {
    Word(x.bits & 0xffff_ffff)
  }

  /** Circular shift to the left by one bit, and by s bits. */
  function RotatedOnce(x: Word): Word {
    Or(Left(x, 1), Right(x, 31))
  }

  function Rotated(x: Word, s: nat): Word {
    if s == 0 then x else RotatedOnce(Rotated(x, s - 1))
  }

  /** As the code does it, by two shifts. */
  function Shifted(x: Word, s: bv32): Word
    requires s < 32
  {
    Or(Left(x, s), Right(Low32(x), 32 - s))
  }

  lemma {:induction false} LeftMore(x: Word, s: bv32)
    requires 0 < s < 31
    ensures Left(Left(x, s), 1) == Left(x, s + 1)
  {
  }

  lemma {:induction false} RightGone(x: Word, s: bv32)
    requires 0 < s < 31
    ensures Right(Right(x, 32 - s), 31) == ZERO_WORD
  {
  }

  lemma {:induction false} Carried(x: Word, s: bv32)
    requires 0 < s < 31
    ensures Or(Left(Right(x, 32 - s), 1), Right(Left(x, s), 31)) == Right(x, 31 - s)
  {
  }

  lemma {:induction false} OnceOfOr(x: Word, y: Word)
    ensures RotatedOnce(Or(x, y)) == Or(Or(Left(x, 1), Or(Left(y, 1), Right(x, 31))), Right(y, 31))
  {
  }

  lemma {:induction false} OrZero(x: Word)
    ensures Or(x, ZERO_WORD) == x
  {
  }

  lemma {:induction false} Low32Is(x: Word)
    ensures Low32(x) == x
  {
  }

  lemma {:induction false} OneMore(x: Word, s: bv32)
    requires 0 < s < 31
    ensures RotatedOnce(Shifted(x, s)) == Shifted(x, s + 1)
  {
    hide Left, Right, Or, Low32, RotatedOnce;
    Low32Is(x);
    LeftMore(x, s);
    RightGone(x, s);
    Carried(x, s);
    OnceOfOr(Left(x, s), Right(x, 32 - s));
    OrZero(Shifted(x, s + 1));
  }

  lemma {:induction false} ShiftedOnce(x: Word)
    ensures Shifted(x, 1) == RotatedOnce(x)
  {
    hide Left, Right, Or, Low32;
    Low32Is(x);
  }

  /** The two shifts are the circular shift. */
  lemma {:induction false} ShiftsRotate(x: Word, s: bv32)
    requires 0 < s < 32
    ensures Shifted(x, s) == Rotated(x, s as nat)
    decreases s
  {
    hide Shifted, RotatedOnce;
    if s == 1 {
      ShiftedOnce(x);
      assert Rotated(x, 0) == x;
    } else {
      ShiftsRotate(x, s - 1);
      OneMore(x, s - 1);
    }
  }
}
