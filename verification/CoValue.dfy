/** Values of the co JSON library and its printer. An object is the array of its members in the
    order they were added; a key is a C string. */
module CoValue {
  import opened ByteText
  import opened Decimal

  datatype Value =
    | Null
    | Bool(b: bool)
    | Int(n: int)
    | Double(text: Bytes)
    | Str(s: Bytes)
    | Arr(items: seq<Value>)
    | Obj(members: seq<Member>)

  datatype Member = Member(key: Bytes, value: Value)

  /** The bytes of "\r\n\t\b\f\"\\". */
  predicate IsSpecial(b: Byte) {
    b == RETURN || b == NEWLINE || b == TAB || b == BACKSPACE || b == FORM_FEED || b == QUOTE || b == BACKSLASH
  }

  function EscapeLetterOf(b: Byte): Byte
    requires IsSpecial(b)
  {
    if b == BACKSLASH || b == QUOTE then b
    else if b == NEWLINE then LOWER_N
    else if b == RETURN then LOWER_R
    else if b == TAB then LOWER_T
    else if b == BACKSPACE then LOWER_B
    else LOWER_F
  }

  /** The printer escapes these seven bytes, each to the letter of RFC 8259, and no other. */
  lemma {:induction false} SpecialsAre(b: Byte)
    ensures IsSpecial(b) <==> b in Ascii("\r\n\t\"\\") || b == 8 || b == 12
    ensures IsSpecial(b) ==>
              EscapeLetterOf(b) == if b == 13 then 'r' as int else if b == 10 then 'n' as int
                                   else if b == 9 then 't' as int else if b == 8 then 'b' as int
                                   else if b == 12 then 'f' as int else b
  {
    assert Ascii("\r\n\t\"\\") == [RETURN, NEWLINE, TAB, QUOTE, BACKSLASH];
  }

  /** `strpbrk(s + i, ...)`: the first special byte before the terminating NUL, |s| for none. */
  function FindSpecial(s: Bytes, i: nat): (j: nat)
    requires i <= |s|
    ensures i <= j <= |s| && (j < |s| ==> IsSpecial(s[j]))
    decreases |s| - i
  {
    if i == |s| || s[i] == NUL then |s| else if IsSpecial(s[i]) then i else FindSpecial(s, i + 1)
  }

  /** The end of the C string that starts at i. */
  function NulAt(s: Bytes, i: nat): (j: nat)
    requires i <= |s|
    ensures i <= j <= |s|
    decreases |s| - i
  {
    if i == |s| || s[i] == NUL then i else NulAt(s, i + 1)
  }

  /** What the escaping loop writes from cs on. */
  function EscapedFrom(s: Bytes, cs: nat): Bytes
    requires cs <= |s|
    decreases |s| - cs
  {
    var p := FindSpecial(s, cs);
    if p == |s| then s[cs..NulAt(s, cs)]
    else s[cs..p] + [BACKSLASH, EscapeLetterOf(s[p])] + EscapedFrom(s, p + 1)
  }

  /** The text between the quotes: the whole buffer where there is nothing to escape. */
  function StringBody(s: Bytes): Bytes {
    if FindSpecial(s, 0) == |s| then s else EscapedFrom(s, 0)
  }

  function Quoted(body: Bytes): Bytes {
    [QUOTE] + (body + [QUOTE])
  }

  /** What `_Json2str` writes; a double is printed by `%.7g`, which is not modelled. */
  function Text(v: Value): Bytes {
    match v
    case Null => NULL_WORD
    case Bool(b) => if b then TRUE_WORD else FALSE_WORD
    case Int(n) => IntText(n)
    case Double(text) => text
    case Str(s) => Quoted(StringBody(s))
    case Arr(vs) => [LEFT_BRACKET] + (ItemsText(vs) + [RIGHT_BRACKET])
    case Obj(ms) => [LEFT_BRACE] + (MembersText(ms) + [RIGHT_BRACE])
  }

  function ItemsText(vs: seq<Value>): Bytes {
    if |vs| == 0 then [] else Text(vs[0]) + (if |vs| == 1 then [] else [COMMA] + ItemsText(vs[1..]))
  }

  function MemberText(m: Member): Bytes {
    Quoted(m.key) + ([COLON] + Text(m.value))
  }

  function MembersText(ms: seq<Member>): Bytes {
    if |ms| == 0 then [] else MemberText(ms[0]) + (if |ms| == 1 then [] else [COMMA] + MembersText(ms[1..]))
  }

  /** Nothing but the signs themselves stands around values. */
  lemma {:induction false} ItemsAreTight(v: Value, w: Value)
    ensures Text(Arr([v, w])) == Ascii("[") + (Text(v) + (Ascii(",") + (Text(w) + Ascii("]"))))
  {
    hide Ascii;
    SignsAreAscii();
    var vs := [v, w];
    assert vs[1..] == [w];
    assert ItemsText([w]) == Text(w);
    assert ItemsText(vs) == Text(v) + ([COMMA] + Text(w));
    Regroup(Text(v), [COMMA] + Text(w), [RIGHT_BRACKET]);
  }

  lemma {:induction false} MembersAreTight(m: Member, n: Member)
    ensures Text(Obj([m, n])) == Ascii("{") + (MemberText(m) + (Ascii(",") + (MemberText(n) + Ascii("}"))))
  {
    hide Ascii, MemberText;
    SignsAreAscii();
    var ms := [m, n];
    assert ms[1..] == [n];
    assert MembersText([n]) == MemberText(n);
    assert MembersText(ms) == MemberText(m) + ([COMMA] + MemberText(n));
    Regroup(MemberText(m), [COMMA] + MemberText(n), [RIGHT_BRACE]);
  }

  lemma {:induction false} MemberIsTight(m: Member)
    ensures MemberText(m) == Ascii("\"") + (m.key + (Ascii("\":") + Text(m.value)))
  {
    hide Ascii;
    SignsAreAscii();
    assert [QUOTE] + ([COLON] + Text(m.value)) == [QUOTE, COLON] + Text(m.value);
    Regroup([QUOTE], m.key + [QUOTE], [COLON] + Text(m.value));
    Regroup(m.key, [QUOTE], [COLON] + Text(m.value));
  }

  /** One turn of the escaping loop. */
  lemma {:induction false} EscapedTurn(s: Bytes, cs: nat, out: Bytes, more: Bytes)
    requires cs <= |s| && FindSpecial(s, cs) < |s|
    requires var p := FindSpecial(s, cs); more == (out + s[cs..p]) + [BACKSLASH, EscapeLetterOf(s[p])]
    ensures out + EscapedFrom(s, cs) == more + EscapedFrom(s, FindSpecial(s, cs) + 1)
  {
    var p := FindSpecial(s, cs);
    Regroup(out, s[cs..p], [BACKSLASH, EscapeLetterOf(s[p])]);
    Regroup(out, s[cs..p] + [BACKSLASH, EscapeLetterOf(s[p])], EscapedFrom(s, p + 1));
  }

  method WriteString(s: Bytes, out0: Bytes) returns (out: Bytes)
    ensures out == out0 + Text(Str(s))
  {
    out := out0 + [QUOTE];
    ghost var goal := out + StringBody(s);
    var cs := 0;
    var p := FindSpecial(s, cs);
    if p == |s| {
      out := out + s;
    } else {
      while true
        invariant cs <= |s| && p == FindSpecial(s, cs) < |s|
        invariant out + EscapedFrom(s, cs) == goal
        decreases |s| - cs
      {
        hide EscapedFrom, StringBody, FindSpecial;
        ghost var before := out;
        out := out + s[cs..p];
        out := out + [BACKSLASH, EscapeLetterOf(s[p])];
        EscapedTurn(s, cs, before, out);
        cs := p + 1;
        p := FindSpecial(s, cs);
        if p == |s| {
          EscapedLast(s, cs);
          out := out + s[cs..NulAt(s, cs)];
          break;
        }
      }
    }
    assert out == goal;
    Regroup(out0, [QUOTE], StringBody(s));
    Regroup(out0, [QUOTE] + StringBody(s), [QUOTE]);
    Regroup([QUOTE], StringBody(s), [QUOTE]);
    out := out + [QUOTE];
  }

  lemma {:induction false} EscapedLast(s: Bytes, cs: nat)
    requires cs <= |s| && FindSpecial(s, cs) == |s|
    ensures EscapedFrom(s, cs) == s[cs..NulAt(s, cs)]
  {
  }

  // The array and object loops: the first element is written before the loop

  function ItemsLeft(vs: seq<Value>, k: nat): Bytes
    requires k <= |vs|
  {
    (if k == |vs| then [] else [COMMA] + ItemsText(vs[k..])) + [RIGHT_BRACKET]
  }

  lemma {:induction false} ItemsLeftStep(vs: seq<Value>, k: nat)
    requires 0 < k < |vs|
    ensures ItemsLeft(vs, k) == ([COMMA] + Text(vs[k])) + ItemsLeft(vs, k + 1)
  {
    hide Text;
    assert vs[k..][1..] == vs[k + 1..];
    var more := if k + 1 == |vs| then [] else [COMMA] + ItemsText(vs[k + 1..]);
    Regroup([COMMA], Text(vs[k]), more);
    Regroup([COMMA] + Text(vs[k]), more, [RIGHT_BRACKET]);
  }

  lemma {:induction false} ItemsLeftEnds(vs: seq<Value>)
    requires |vs| > 0
    ensures Text(Arr(vs)) == [LEFT_BRACKET] + (Text(vs[0]) + ItemsLeft(vs, 1))
    ensures ItemsLeft(vs, |vs|) == [RIGHT_BRACKET]
  {
    var more := if |vs| == 1 then [] else [COMMA] + ItemsText(vs[1..]);
    Regroup(Text(vs[0]), more, [RIGHT_BRACKET]);
  }

  function MembersLeft(ms: seq<Member>, k: nat): Bytes
    requires k <= |ms|
  {
    (if k == |ms| then [] else [COMMA] + MembersText(ms[k..])) + [RIGHT_BRACE]
  }

  lemma {:induction false} MembersLeftStep(ms: seq<Member>, k: nat)
    requires 0 < k < |ms|
    ensures MembersLeft(ms, k) == ([COMMA] + MemberText(ms[k])) + MembersLeft(ms, k + 1)
  {
    hide MemberText;
    assert ms[k..][1..] == ms[k + 1..];
    var more := if k + 1 == |ms| then [] else [COMMA] + MembersText(ms[k + 1..]);
    Regroup([COMMA], MemberText(ms[k]), more);
    Regroup([COMMA] + MemberText(ms[k]), more, [RIGHT_BRACE]);
  }

  lemma {:induction false} MembersLeftEnds(ms: seq<Member>)
    requires |ms| > 0
    ensures Text(Obj(ms)) == [LEFT_BRACE] + (MemberText(ms[0]) + MembersLeft(ms, 1))
    ensures MembersLeft(ms, |ms|) == [RIGHT_BRACE]
  {
    var more := if |ms| == 1 then [] else [COMMA] + MembersText(ms[1..]);
    Regroup(MemberText(ms[0]), more, [RIGHT_BRACE]);
  }

  method WriteArray(vs: seq<Value>, out0: Bytes) returns (out: Bytes)
    ensures out == out0 + Text(Arr(vs))
    decreases vs, 0
  {
    out := out0 + [LEFT_BRACKET];
    if |vs| > 0 {
      hide *;
      ItemsLeftEnds(vs);
      out := Write(vs[0], out);
      Regroup(out0, [LEFT_BRACKET], Text(vs[0]) + ItemsLeft(vs, 1));
      Regroup(out0 + [LEFT_BRACKET], Text(vs[0]), ItemsLeft(vs, 1));
      for i := 1 to |vs|
        invariant out + ItemsLeft(vs, i) == out0 + Text(Arr(vs))
      {
        ghost var before := out;
        out := out + [COMMA];
        out := Write(vs[i], out);
        ItemsLeftStep(vs, i);
        Regroup(before, [COMMA], Text(vs[i]));
        Regroup(before, [COMMA] + Text(vs[i]), ItemsLeft(vs, i + 1));
      }
    }
    out := out + [RIGHT_BRACKET];
  }

  method WriteMember(m: Member, out0: Bytes) returns (out: Bytes)
    ensures out == out0 + MemberText(m)
    decreases m, 0
  {
    hide Text;
    out := out0 + Quoted(m.key);
    out := out + [COLON];
    out := Write(m.value, out);
    Regroup(out0, Quoted(m.key), [COLON]);
    Regroup(out0, Quoted(m.key) + [COLON], Text(m.value));
    Regroup(Quoted(m.key), [COLON], Text(m.value));
  }

  method WriteObject(ms: seq<Member>, out0: Bytes) returns (out: Bytes)
    ensures out == out0 + Text(Obj(ms))
    decreases ms, 0
  {
    if |ms| == 0 {
      return out0 + [LEFT_BRACE, RIGHT_BRACE];
    }
    out := out0 + [LEFT_BRACE];
    hide *;
    MembersLeftEnds(ms);
    out := WriteMember(ms[0], out);
    Regroup(out0, [LEFT_BRACE], MemberText(ms[0]) + MembersLeft(ms, 1));
    Regroup(out0 + [LEFT_BRACE], MemberText(ms[0]), MembersLeft(ms, 1));
    for i := 1 to |ms|
      invariant out + MembersLeft(ms, i) == out0 + Text(Obj(ms))
    {
      ghost var before := out;
      out := out + [COMMA];
      out := WriteMember(ms[i], out);
      MembersLeftStep(ms, i);
      Regroup(before, [COMMA], MemberText(ms[i]));
      Regroup(before, [COMMA] + MemberText(ms[i]), MembersLeft(ms, i + 1));
    }
    out := out + [RIGHT_BRACE];
  }

  /** `Value::_Json2str`. */
  method Write(v: Value, out0: Bytes) returns (out: Bytes)
    ensures out == out0 + Text(v)
    decreases v, 1
  {
    match v
    case Null => out := out0 + NULL_WORD;
    case Bool(b) => out := out0 + if b then TRUE_WORD else FALSE_WORD;
    case Int(n) => out := out0 + IntText(n);
    case Double(text) => out := out0 + text;
    case Str(s) => out := WriteString(s, out0);
    case Arr(vs) => out := WriteArray(vs, out0);
    case Obj(ms) => out := WriteObject(ms, out0);
  }

  // What the string printer does, byte by byte

  function EscapeByte(b: Byte): Bytes {
    if IsSpecial(b) then [BACKSLASH, EscapeLetterOf(b)] else [b]
  }

  function EscapeAll(s: Bytes): Bytes {
    if |s| == 0 then [] else EscapeByte(s[0]) + EscapeAll(s[1..])
  }

  /** One byte of a C string is escaped or copied, whatever surrounds it. */
  lemma {:induction false} EscapedByte(s: Bytes, i: nat)
    requires i < |s| && s[i] != NUL
    ensures EscapedFrom(s, i) == EscapeByte(s[i]) + EscapedFrom(s, i + 1)
  {
    var p := FindSpecial(s, i);
    if IsSpecial(s[i]) {
      assert s[i..p] == [];
    } else if p == |s| {
      assert s[i..NulAt(s, i)] == [s[i]] + s[i + 1..NulAt(s, i)];
    } else {
      assert s[i..p] == [s[i]] + s[i + 1..p];
      Regroup([s[i]], s[i + 1..p], [BACKSLASH, EscapeLetterOf(s[p])]);
      Regroup([s[i]], s[i + 1..p] + [BACKSLASH, EscapeLetterOf(s[p])], EscapedFrom(s, p + 1));
    }
  }

  /** Up to the first NUL the printer escapes every special byte and copies all others. */
  lemma {:induction false} EscapedFromIsBytewise(s: Bytes, i: nat, x: nat)
    requires i <= x <= |s| && forall k :: i <= k < x ==> s[k] != NUL
    ensures EscapedFrom(s, i) == EscapeAll(s[i..x]) + EscapedFrom(s, x)
    decreases x - i
  {
    hide EscapedFrom, EscapeByte;
    if i < x {
      EscapedByte(s, i);
      EscapedFromIsBytewise(s, i + 1, x);
      assert s[i..x] == [s[i]] + s[i + 1..x];
      Regroup(EscapeByte(s[i]), EscapeAll(s[i + 1..x]), EscapedFrom(s, x));
    } else {
      assert EscapeAll([]) == [];
    }
  }

  lemma {:induction false} NoSpecialIsPlain(s: Bytes, i: nat, x: nat)
    requires i <= x <= |s| && FindSpecial(s, i) == |s| && forall k :: i <= k < x ==> s[k] != NUL
    ensures EscapeAll(s[i..x]) == s[i..x]
    decreases x - i
  {
    if i < x {
      NoSpecialIsPlain(s, i + 1, x);
      assert s[i..x] == [s[i]] + s[i + 1..x];
    }
  }

  lemma {:induction false} StringBodyIsBytewise(s: Bytes)
    requires NUL !in s
    ensures StringBody(s) == EscapeAll(s)
  {
    assert s[0..|s|] == s;
    if FindSpecial(s, 0) == |s| {
      NoSpecialIsPlain(s, 0, |s|);
    } else {
      EscapedFromIsBytewise(s, 0, |s|);
      assert EscapedFrom(s, |s|) == [];
    }
  }
}
