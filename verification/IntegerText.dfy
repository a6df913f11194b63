/** Integer printing: a table of four packed digits with the number of digits in the high half of the
    first byte, and the canonical text it gives. */
module IntegerText {
  import opened ByteText
  import opened Decimal

  const UINT32 := 0x1_0000_0000
  const LOWER_X: Byte := 0x78

  // The decimal table

  /** An entry of `itoa_table`: four digits, the first as a number, below its digits less one. */
  function Entry(i: nat): (b: Bytes)
    requires i < 10000
    ensures |b| == 4
  {
    [(if i > 999 then 3 else if i > 99 then 2 else if i > 9 then 1 else 0) * 16 + i / 1000,
     ZERO + i % 1000 / 100, ZERO + i % 100 / 10, ZERO + i % 10]
  }

  /** Four digits, leading zeros included. */
  function Padded(i: nat): (b: Bytes)
    requires i < 10000
    ensures |b| == 4
  {
    [ZERO + i / 1000, ZERO + i % 1000 / 100, ZERO + i % 100 / 10, ZERO + i % 10]
  }

  /** `| 0x30303030`, where the bits of 0x30 are the only ones set in the high half of any byte. */
  function Masked(b: Bytes): Bytes
    requires |b| == 4 && forall k :: 0 <= k < 4 ==> b[k] < 0x40
  {
    [ZERO + b[0] % 16, ZERO + b[1] % 16, ZERO + b[2] % 16, ZERO + b[3] % 16]
  }

  /** The four digits of a number, by division. */
  lemma {:induction false} FourDigits(i: nat) returns (d3: nat, d2: nat, d1: nat, d0: nat)
    requires i < 10000
    ensures d3 < 10 && d2 < 10 && d1 < 10 && d0 < 10 && i == d3 * 1000 + d2 * 100 + d1 * 10 + d0
    ensures i / 1000 == d3 && i % 1000 / 100 == d2 && i % 100 / 10 == d1 && i % 10 == d0
  {
    var a, b := i / 10, i / 100;
    d3 := i / 1000;
    d2, d1, d0 := b - d3 * 10, a - b * 10, i - a * 10;
    Quotient(i, 1000, d3, i - d3 * 1000);
    Quotient(i - d3 * 1000, 100, d2, d1 * 10 + d0);
    Quotient(i, 100, b, d1 * 10 + d0);
    Quotient(d1 * 10 + d0, 10, d1, d0);
  }

  lemma {:induction false} Quotient(x: nat, n: nat, q: nat, r: nat)
    requires r < n && x == q * n + r
    ensures x / n == q && x % n == r
  {
    var d := x / n - q;
    assert d * n == r - x % n;
    assert (d >= 1 ==> d * n >= n) && (d <= -1 ==> d * n <= -(n as int));
  }

  function Chars(d3: nat, d2: nat, d1: nat, d0: nat): Bytes
    requires d3 < 10 && d2 < 10 && d1 < 10 && d0 < 10
  {
    [ZERO + d3, ZERO + d2, ZERO + d1, ZERO + d0]
  }

  /** How many of four digits are left without leading zeros, less one. */
  function Extra(d3: nat, d2: nat, d1: nat): (n: nat)
    ensures n <= 3
  {
    if d3 > 0 then 3 else if d2 > 0 then 2 else if d1 > 0 then 1 else 0
  }

  lemma {:induction false} EntryDigits(i: nat) returns (d3: nat, d2: nat, d1: nat, d0: nat)
    requires i < 10000
    ensures d3 < 10 && d2 < 10 && d1 < 10 && d0 < 10 && i == ((d3 * 10 + d2) * 10 + d1) * 10 + d0
    ensures Padded(i) == Chars(d3, d2, d1, d0)
    ensures Entry(i) == [Extra(d3, d2, d1) * 16 + d3, ZERO + d2, ZERO + d1, ZERO + d0]
  {
    d3, d2, d1, d0 := FourDigits(i);
  }

  lemma {:induction false} MaskedEntry(i: nat)
    requires i < 10000
    ensures (forall k :: 0 <= k < 4 ==> Entry(i)[k] < 0x40) && Masked(Entry(i)) == Padded(i)
  {
    hide Entry, Padded;
    var d3, d2, d1, d0 := EntryDigits(i);
    LowHalf(Extra(d3, d2, d1), d3);
    LowHalf(3, d2);
    LowHalf(3, d1);
    LowHalf(3, d0);
  }

  lemma {:induction false} LowHalf(n: nat, d: nat)
    requires d < 10
    ensures (n * 16 + d) % 16 == d && (n * 16 + d) / 16 == n
  {
  }

  lemma {:induction false} NatTextStep(n: nat, d: nat)
    requires d < 10
    ensures n > 0 ==> NatText(n * 10 + d) == NatText(n) + [ZERO + d]
    ensures n == 0 ==> NatText(n * 10 + d) == [ZERO + d]
  {
  }

  lemma {:induction false} DigitsText(d3: nat, d2: nat, d1: nat, d0: nat)
    requires d3 < 10 && d2 < 10 && d1 < 10 && d0 < 10
    ensures NatText(((d3 * 10 + d2) * 10 + d1) * 10 + d0) == Chars(d3, d2, d1, d0)[3 - Extra(d3, d2, d1)..]
  {
    hide NatText;
    NatTextStep(0, d3);
    NatTextStep(d3, d2);
    NatTextStep(d3 * 10 + d2, d1);
    NatTextStep((d3 * 10 + d2) * 10 + d1, d0);
  }

  /** The last digits of an entry, as many as its first byte says, are its canonical text. */
  lemma {:induction false} EntryText(i: nat)
    requires i < 10000
    ensures Entry(i)[0] / 16 <= 3 && Entry(i)[3 - Entry(i)[0] / 16..] == NatText(i)
  {
    hide Entry, NatText;
    var d3, d2, d1, d0 := EntryDigits(i);
    DigitsText(d3, d2, d1, d0);
    var n := Extra(d3, d2, d1);
    assert (n * 16 + d3) / 16 == n;
    assert n == 3 ==> n * 16 + d3 == ZERO + d3;
    var b := Entry(i);
    assert b[3 - n..] == Chars(d3, d2, d1, d0)[3 - n..];
  }

  lemma {:induction false} NatTextFourSteps(q: nat, d3: nat, d2: nat, d1: nat, d0: nat)
    requires q > 0 && d3 < 10 && d2 < 10 && d1 < 10 && d0 < 10
    ensures NatText((((q * 10 + d3) * 10 + d2) * 10 + d1) * 10 + d0)
         == NatText(q) + [ZERO + d3, ZERO + d2, ZERO + d1, ZERO + d0]
  {
    hide NatText;
    NatTextStep(q, d3);
    NatTextStep(q * 10 + d3, d2);
    NatTextStep((q * 10 + d3) * 10 + d2, d1);
    NatTextStep(((q * 10 + d3) * 10 + d2) * 10 + d1, d0);
  }

  /** Four digits at a time. */
  lemma {:induction false} NatTextByFours(v: nat)
    requires v >= 10000
    ensures NatText(v) == NatText(v / 10000) + Padded(v % 10000)
  {
    var q, r := v / 10000, v % 10000;
    hide NatText, Entry, Padded;
    var d3, d2, d1, d0 := EntryDigits(r);
    NatTextFourSteps(q, d3, d2, d1, d0);
    assert v == (((q * 10 + d3) * 10 + d2) * 10 + d1) * 10 + d0;
  }

  ghost predicate Filled(table: array<Bytes>)
    reads table
  {
    table.Length == 10000 && forall i :: 0 <= i < 10000 ==> table[i] == Entry(i)
  }

  ghost predicate FilledHex(hexTable: array<Bytes>)
    reads hexTable
  {
    hexTable.Length == 256 && forall i :: 0 <= i < 256 ==> hexTable[i] == Pair(i)
  }

  /** `init_table`. */
  method InitTable() returns (hexTable: array<Bytes>, table: array<Bytes>)
    ensures fresh(hexTable) && FilledHex(hexTable) && fresh(table) && Filled(table)
  {
    hide Entry, Pair;
    hexTable := new Bytes[256](_ => []);
    var i := 0;
    while i < 256
      invariant 0 <= i <= 256 && forall j :: 0 <= j < i ==> hexTable[j] == Pair(j)
    {
      hexTable[i] := HexEntry(i);
      i := i + 1;
    }
    table := new Bytes[10000](_ => []);
    i := 0;
    while i < 10000
      invariant 0 <= i <= 10000 && forall j :: 0 <= j < i ==> table[j] == Entry(j)
      invariant FilledHex(hexTable)
    {
      table[i] := TableEntry(i);
      i := i + 1;
    }
  }

  /** `"0123456789abcdef"`. */
  const HEX_DIGITS: Bytes :=
    [0x30, 0x31, 0x32, 0x33, 0x34, 0x35, 0x36, 0x37, 0x38, 0x39, 0x61, 0x62, 0x63, 0x64, 0x65, 0x66]

  method HexEntry(i: nat) returns (b: Bytes)
    requires i < 256
    ensures b == Pair(i)
  {
    b := [HEX_DIGITS[i / 16], HEX_DIGITS[i % 16]];
  }

  method TableEntry(i: nat) returns (b: Bytes)
    requires i < 10000
    ensures b == Entry(i)
  {
    var b3, b2, b1, b0 := i % 10 + ZERO, i % 100 / 10 + ZERO, i % 1000 / 100 + ZERO, i / 1000;
    if i > 999 {
      b0 := b0 + 0x30;
    } else if i > 99 {
      b0 := b0 + 0x20;
    } else if i > 9 {
      b0 := b0 + 0x10;
    }
    b := [b0, b1, b2, b3];
  }

  /** The word of the leading digits, with whole words behind it: the length that the code computes cuts
      off exactly what does not belong to the text. */
  lemma {:induction false} LeadingWord(top: nat, behind: Bytes)
    requires top < 10000
    ensures var words := Entry(top) + behind; var len := |words| - 3 + words[0] / 16;
            0 <= len <= |words| && words[|words| - len..] == NatText(top) + behind
  {
    EntryText(top);
    hide Entry, NatText;
    var words := Entry(top) + behind;
    assert words[3 - words[0] / 16..] == Entry(top)[3 - words[0] / 16..] + behind;
  }

  method U32toa(table: array<Bytes>, v: nat) returns (buf: Bytes)
    requires Filled(table) && v < UINT32
    ensures buf == NatText(v)
  {
    hide Entry, Padded, Masked, NatText;
    var words: Bytes;
    if v > 9999 {
      var b1 := v / 10000;
      NatTextByFours(v);
      MaskedEntry(v % 10000);
      var behind := Masked(table[v - b1 * 10000]);
      if b1 > 9999 {
        var b0 := b1 / 10000;
        NatTextByFours(b1);
        MaskedEntry(b1 % 10000);
        behind := Masked(table[b1 - b0 * 10000]) + behind;
        Regroup(NatText(b0), Padded(b1 % 10000), Padded(v % 10000));
        LeadingWord(b0, behind);
        words := table[b0] + behind;
      } else {
        LeadingWord(b1, behind);
        words := table[b1] + behind;
      }
    } else {
      LeadingWord(v, []);
      assert NatText(v) + [] == NatText(v);
      words := table[v] + [];
    }
    var len := |words| - 3 + words[0] / 16;
    buf := words[|words| - len..];
  }

  /** One more step of division, while more than four digits are left. */
  method SplitOff(table: array<Bytes>, v: nat, behind0: Bytes) returns (x: nat, behind: Bytes)
    requires Filled(table) && v > 9999
    ensures x == v / 10000 && NatText(x) + behind == NatText(v) + behind0
  {
    hide Entry, Padded, Masked, NatText;
    x := v / 10000;
    NatTextByFours(v);
    MaskedEntry(v % 10000);
    behind := Masked(table[v - x * 10000]) + behind0;
    Regroup(NatText(x), Padded(v % 10000), behind0);
  }

  method U64toa(table: array<Bytes>, v: nat) returns (buf: Bytes)
    requires Filled(table) && v < TWO64
    ensures buf == NatText(v)
  {
    hide Entry, Padded, Masked, NatText;
    var top, behind := v, [];
    assert NatText(v) + behind == NatText(v);
    if top > 9999 {
      top, behind := SplitOff(table, top, behind);
      if top > 9999 {
        top, behind := SplitOff(table, top, behind);
        if top > 9999 {
          top, behind := SplitOff(table, top, behind);
          if top > 9999 {
            top, behind := SplitOff(table, top, behind);
          }
        }
      }
    }
    LeadingWord(top, behind);
    var words := table[top] + behind;
    var len := |words| - 3 + words[0] / 16;
    buf := words[|words| - len..];
  }

  /** `i64toa`: the size is what negating in 64 bits gives, taken as unsigned. */
  method I64toa(table: array<Bytes>, v: int) returns (buf: Bytes)
    requires Filled(table) && IsInt64(v)
    ensures buf == IntText(v)
  {
    if v >= 0 {
      buf := U64toa(table, v);
    } else {
      NegatedSize(v);
      buf := U64toa(table, Wrap(-v) % TWO64);
      buf := [MINUS] + buf;
    }
  }

  /** The least integer is its own negation, and as an unsigned one its size. */
  lemma {:induction false} NegatedSize(v: int)
    requires IsInt64(v) && v < 0
    ensures Wrap(-v) % TWO64 == -v
  {
    if v == -MAX_INT64 - 1 {
      WrapSame(-v, v, 1);
    }
  }

  // Hexadecimal

  /** The canonical hexadecimal digits of n, without leading zeros. */
  function HexText(n: nat): (t: Bytes)
    ensures |t| > 0 && (t[0] == ZERO ==> n == 0 && |t| == 1)
  {
    if n < 16 then [HexDigit(n)] else HexText(n / 16) + [HexDigit(n % 16)]
  }

  /** An entry of `itoh_table`. */
  function Pair(i: nat): (b: Bytes)
    requires i < 256
    ensures |b| == 2
  {
    [HexDigit(i / 16), HexDigit(i % 16)]
  }

  lemma {:induction false} HexTextByTwos(v: nat)
    requires v >= 256
    ensures HexText(v) == HexText(v / 256) + Pair(v % 256)
  {
    assert v / 16 / 16 == v / 256 && v / 16 % 16 == v % 256 / 16 && v % 16 == v % 256 % 16;
    assert HexText(v) == HexText(v / 16) + [HexDigit(v % 16)];
    assert HexText(v / 16) == HexText(v / 256) + [HexDigit(v % 256 / 16)];
    assert HexText(v) == HexText(v / 256) + [HexDigit(v % 256 / 16), HexDigit(v % 256 % 16)];
  }

  /** `u64toh`, and `u32toh` for what fits: pairs of digits from the end, and no leading zero. */
  method U64toh(hexTable: array<Bytes>, v0: nat) returns (buf: Bytes)
    requires FilledHex(hexTable) && v0 < TWO64
    ensures buf == [ZERO, LOWER_X] + HexText(v0)
  {
    hide HexText, Pair;
    var v: nat, b: Bytes := v0, [];
    assert HexText(v) + b == HexText(v);
    while v >= 256
      invariant HexText(v) + b == HexText(v0)
    {
      HexTextByTwos(v);
      Regroup(HexText(v / 256), Pair(v % 256), b);
      b := hexTable[v % 256] + b;
      v := v / 256;
    }
    LastPair(v);
    b := hexTable[v] + b;
    var len := |b| - if b[0] == ZERO then 1 else 0;
    assert b[|b| - len..] == HexText(v0);
    buf := [ZERO, LOWER_X] + b[|b| - len..];
  }

  lemma {:induction false} LastPair(v: nat)
    requires v < 256
    ensures HexText(v) == if Pair(v)[0] == ZERO then Pair(v)[1..] else Pair(v)
  {
    assert v >= 16 ==> HexText(v) == [HexDigit(v / 16)] + [HexDigit(v % 16)];
  }
}
