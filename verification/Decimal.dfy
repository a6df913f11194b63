/** Decimal text of integers, shared by both JSON printers and parsers. */
module Decimal {
  import opened ByteText

  /** The canonical decimal digits of n, without leading zeros. */
  function NatText(n: nat): (t: Bytes)
    ensures |t| > 0 && Digits(t)
    ensures t[0] == ZERO ==> n == 0 && |t| == 1
  {
    if n < 10 then [ZERO + n] else NatText(n / 10) + [ZERO + n % 10]
  }

  /** What `%d` and `i64toa` print. */
  function IntText(n: int): Bytes {
    if n < 0 then [MINUS] + NatText(-n) else NatText(n)
  }

  /** The number that a string of digits stands for. */
  function NatValue(t: Bytes): int {
    if |t| == 0 then 0 else NatValue(t[..|t| - 1]) * 10 + (t[|t| - 1] - ZERO)
  }

  function IntValue(t: Bytes): int {
    if |t| > 0 && t[0] == MINUS then -NatValue(t[1..]) else NatValue(t)
  }

  lemma {:induction false} NatTextValue(n: nat)
    ensures NatValue(NatText(n)) == n
  {
    if n >= 10 {
      NatTextValue(n / 10);
      var t := NatText(n);
      assert t[..|t| - 1] == NatText(n / 10);
    }
  }

  lemma {:induction false} IntTextValue(n: int)
    ensures IntValue(IntText(n)) == n
  {
    if n < 0 {
      NatTextValue(-n);
      assert IntText(n)[1..] == NatText(-n);
    } else {
      NatTextValue(n);
    }
  }

  /** The digits of n are never more than those of a larger power of ten. */
  lemma {:induction false} NatTextLength(n: nat, k: nat)
    requires k > 0 && n < Pow10(k)
    ensures |NatText(n)| <= k
  {
    if n >= 10 {
      NatTextLength(n / 10, k - 1);
    }
  }

  function Pow10(k: nat): (p: nat)
    ensures p > 0
  {
    if k == 0 then 1 else 10 * Pow10(k - 1)
  }

  // 64-bit integers

  const MAX_INT64: int := 0x7fff_ffff_ffff_ffff
  const TWO64: int := 0x1_0000_0000_0000_0000

  predicate IsInt64(n: int) {
    -MAX_INT64 - 1 <= n <= MAX_INT64
  }

  /** What 64 bits keep of n, in two's complement. */
  function Wrap(n: int): (w: int)
    ensures IsInt64(w) && (IsInt64(n) ==> w == n)
  {
    (n + MAX_INT64 + 1) % TWO64 - (MAX_INT64 + 1)
  }

  lemma {:induction false} WrapSame(x: int, y: int, q: int)
    requires x == y + q * TWO64
    ensures Wrap(x) == Wrap(y)
  {
    var h := MAX_INT64 + 1;
    var p, r := (y + h) / TWO64, (y + h) % TWO64;
    assert x + h == (p + q) * TWO64 + r;
    RemainderIs(x + h, p + q, r);
  }

  lemma {:induction false} RemainderIs(n: int, q: int, r: int)
    requires n == q * TWO64 + r && 0 <= r < TWO64
    ensures n % TWO64 == r
  {
  }

  lemma {:induction false} WrapBy(n: int) returns (q: int)
    ensures Wrap(n) == n + q * TWO64
  {
    q := -((n + MAX_INT64 + 1) / TWO64);
  }

  /** `v = v * 10 + s[i] - '0'`, each operation in 64 bits. */
  function AddDigit(v: int, c: Byte): int {
    Wrap(Wrap(Wrap(v * 10) + c) - ZERO)
  }

  /** Wrapping on the way is wrapping at the end. */
  lemma {:induction false} AddDigitWraps(v: int, c: Byte)
    ensures AddDigit(Wrap(v), c) == Wrap(v * 10 + (c - ZERO))
  {
    hide Wrap;
    var p := WrapBy(v);
    var q := WrapBy(Wrap(v) * 10);
    var r := WrapBy(Wrap(Wrap(v) * 10) + c);
    assert Wrap(Wrap(Wrap(v) * 10) + c) - ZERO == v * 10 + (c - ZERO) + (p * 10 + q + r) * TWO64;
    WrapSame(Wrap(Wrap(Wrap(v) * 10) + c) - ZERO, v * 10 + (c - ZERO), p * 10 + q + r);
  }

  lemma {:induction false} NegateWraps(v: int)
    ensures Wrap(-Wrap(v)) == Wrap(-v)
  {
    var q := WrapBy(v);
    WrapSame(-Wrap(v), -v, -q);
  }

  /** No operation for the digit at i leaves the range of `int64`; before it the accumulator is the number
      of the digits up to i. */
  predicate StaysInRange(t: Bytes, i: nat)
    requires i < |t|
  {
    var v := NatValue(t[..i]);
    IsInt64(v * 10) && IsInt64(v * 10 + t[i]) && IsInt64(v * 10 + t[i] - ZERO)
  }

  /** No accumulator is more than the number itself. */
  lemma {:induction false} PrefixValue(t: Bytes, i: nat)
    requires Digits(t) && i <= |t|
    ensures 0 <= NatValue(t[..i]) <= NatValue(t)
    decreases |t|
  {
    var n := |t|;
    if n > 0 {
      PrefixValue(t[..n - 1], if i < n then i else n - 1);
      if i < n {
        assert t[..n - 1][..i] == t[..i];
      } else {
        assert t[..n] == t && t[..n - 1][..n - 1] == t[..n - 1];
      }
    } else {
      assert t[..0] == t;
    }
  }

  lemma {:induction false} DigitInRange(t: Bytes, i: nat)
    requires Digits(t) && i < |t|
    ensures StaysInRange(t, i) <==> NatValue(t[..i + 1]) <= MAX_INT64 - ZERO
    ensures NatValue(t[..i + 1]) <= NatValue(t)
  {
    assert t[..i + 1][..i] == t[..i];
    PrefixValue(t, i);
    PrefixValue(t, i + 1);
  }

  /** Accumulating the digits of a number never overflows exactly when the number is at most 2^63 - 49: the
      code of the last digit is added before that of the digit zero is taken off. */
  lemma {:induction false} AccumulatesInRange(t: Bytes)
    requires Digits(t) && |t| > 0
    ensures (forall i :: 0 <= i < |t| ==> StaysInRange(t, i)) <==> NatValue(t) <= MAX_INT64 - ZERO
  {
    hide StaysInRange, NatValue;
    DigitInRange(t, |t| - 1);
    assert t[..|t|] == t;
    if NatValue(t) <= MAX_INT64 - ZERO {
      forall i | 0 <= i < |t| ensures StaysInRange(t, i) {
        DigitInRange(t, i);
      }
    }
  }
}
