/** json11's printer: the text it writes, and the loops that write it. */
module JsonPrinter {
  import opened ByteText
  import opened Decimal
  import opened JsonValue

  /** What one character costs, and how many source bytes it takes: the line separators U+2028
      and U+2029 are three bytes each. Beyond the end there is only the terminating NUL. */
  function EscapeOne(s: Bytes, i: nat): (r: (Bytes, nat))
    requires i < |s|
    ensures 1 <= r.1 && i + r.1 <= |s| && |r.0| > 0
  {
    var c := s[i];
    if c == BACKSLASH then ([BACKSLASH, BACKSLASH], 1)
    else if c == QUOTE then ([BACKSLASH, QUOTE], 1)
    else if c == BACKSPACE then ([BACKSLASH, LOWER_B], 1)
    else if c == FORM_FEED then ([BACKSLASH, LOWER_F], 1)
    else if c == NEWLINE then ([BACKSLASH, LOWER_N], 1)
    else if c == RETURN then ([BACKSLASH, LOWER_R], 1)
    else if c == TAB then ([BACKSLASH, LOWER_T], 1)
    else if c <= 0x1F then ([BACKSLASH, LOWER_U, ZERO, ZERO, HexDigit(c / 16), HexDigit(c % 16)], 1)
    else if c == 0xE2 && At(s, i + 1) == 0x80 && At(s, i + 2) == 0xA8 then
      ([BACKSLASH, LOWER_U, 0x32, 0x30, 0x32, 0x38], 3)
    else if c == 0xE2 && At(s, i + 1) == 0x80 && At(s, i + 2) == 0xA9 then
      ([BACKSLASH, LOWER_U, 0x32, 0x30, 0x32, 0x39], 3)
    else ([c], 1)
  }

  function EscapeFrom(s: Bytes, i: nat): Bytes
    requires i <= |s|
    decreases |s| - i
  {
    if i == |s| then [] else EscapeOne(s, i).0 + EscapeFrom(s, i + EscapeOne(s, i).1)
  }

  function DumpString(s: Bytes): Bytes {
    [QUOTE] + (EscapeFrom(s, 0) + [QUOTE])
  }

  /** A number kept as an `int`. */
  predicate IsInt(n: Num) {
    n.Whole? && -0x8000_0000 <= n.n < 0x8000_0000
  }

  /** Values without doubles whose maps are in map order. */
  ghost predicate Dumpable(v: Json) {
    match v
    case Number(n) => IsInt(n)
    case Array(vs) => DumpableItems(vs)
    case Object(ms) => Ascending(ms) && DumpableMembers(ms)
    case _ => true
  }

  ghost predicate DumpableItems(vs: seq<Json>) {
    |vs| == 0 || (Dumpable(vs[0]) && DumpableItems(vs[1..]))
  }

  ghost predicate DumpableMembers(ms: seq<Member>) {
    |ms| == 0 || (Dumpable(ms[0].value) && DumpableMembers(ms[1..]))
  }

  /** The printed text; a double is printed by `%.17g`, which is not modelled (as nothing here). */
  function Dump(v: Json): Bytes {
    match v
    case Null => NULL_WORD
    case Bool(b) => if b then TRUE_WORD else FALSE_WORD
    case Number(n) => if n.Whole? then IntText(n.n) else []
    case String(s) => DumpString(s)
    case Array(vs) => [LEFT_BRACKET] + (DumpItems(vs) + [RIGHT_BRACKET])
    case Object(ms) => [LEFT_BRACE] + (DumpMembers(ms) + [RIGHT_BRACE])
  }

  function DumpItems(vs: seq<Json>): Bytes {
    if |vs| == 0 then []
    else Dump(vs[0]) + (if |vs| == 1 then [] else [COMMA, SPACE] + DumpItems(vs[1..]))
  }

  function DumpMember(m: Member): Bytes {
    DumpString(m.key) + ([COLON, SPACE] + Dump(m.value))
  }

  function DumpMembers(ms: seq<Member>): Bytes {
    if |ms| == 0 then []
    else DumpMember(ms[0]) + (if |ms| == 1 then [] else [COMMA, SPACE] + DumpMembers(ms[1..]))
  }

  // What is printed, in characters

  /** A comma and a space between items, a colon and a space in a member. */
  lemma {:induction false} ItemsAreSpaced(v: Json, w: Json)
    ensures Dump(Array([v, w])) == Ascii("[") + (Dump(v) + (Ascii(", ") + (Dump(w) + Ascii("]"))))
  {
    hide Ascii;
    SignsAreAscii();
    var vs := [v, w];
    assert vs[1..] == [w];
    assert DumpItems([w]) == Dump(w);
    assert DumpItems(vs) == Dump(v) + ([COMMA, SPACE] + Dump(w));
    Regroup(Dump(v), [COMMA, SPACE] + Dump(w), [RIGHT_BRACKET]);
  }

  lemma {:induction false} MembersAreSpaced(m: Member, n: Member)
    ensures Dump(Object([m, n])) == Ascii("{") + (DumpMember(m) + (Ascii(", ") + (DumpMember(n) + Ascii("}"))))
  {
    hide Ascii, DumpMember;
    SignsAreAscii();
    var ms := [m, n];
    assert ms[1..] == [n];
    assert DumpMembers([n]) == DumpMember(n);
    assert DumpMembers(ms) == DumpMember(m) + ([COMMA, SPACE] + DumpMember(n));
    Regroup(DumpMember(m), [COMMA, SPACE] + DumpMember(n), [RIGHT_BRACE]);
  }

  lemma {:induction false} MemberIsSpaced(m: Member)
    ensures DumpMember(m) == Ascii("\"") + (EscapeFrom(m.key, 0) + (Ascii("\": ") + Dump(m.value)))
  {
    hide Ascii, EscapeFrom, Dump;
    SignsAreAscii();
    var key, rest := EscapeFrom(m.key, 0), [COLON, SPACE] + Dump(m.value);
    assert [QUOTE] + rest == [QUOTE, COLON, SPACE] + Dump(m.value);
    Regroup([QUOTE], key + [QUOTE], rest);
    Regroup(key, [QUOTE], rest);
  }

  /** What one character is printed as has no control byte, and is ASCII or that one byte. */
  lemma {:induction false} OneIsPlain(s: Bytes, i: nat)
    requires i < |s|
    ensures var (text, n) := EscapeOne(s, i);
            && (forall k :: 0 <= k < |text| ==> 0x20 <= text[k])
            && ((n == 1 && text == [s[i]]) || (forall k :: 0 <= k < |text| ==> text[k] < 0x80))
            && (n == 1 && text == [s[i]] && s[i] == 0xE2 && i + 2 < |s| && s[i + 1] == 0x80 ==>
                  s[i + 2] != 0xA8 && s[i + 2] != 0xA9)
  {
  }

  /** A byte of 0x80 or more in front of the printed rest is the one that stands there in the string. */
  lemma {:induction false} HighBytesStay(s: Bytes, i: nat)
    requires i < |s|
    ensures var t := EscapeFrom(s, i);
            && |t| > 0
            && (t[0] >= 0x80 ==> t[0] == s[i] && EscapeFrom(s, i) == [s[i]] + EscapeFrom(s, i + 1))
  {
    OneIsPlain(s, i);
  }

  /** The line separators U+2028 and U+2029, which scripts take for line ends. */
  predicate SeparatorAt(t: Bytes, k: int) {
    0 <= k < |t| - 2 && t[k] == 0xE2 && t[k + 1] == 0x80 && (t[k + 2] == 0xA8 || t[k + 2] == 0xA9)
  }

  lemma {:induction false} NoneInFront(s: Bytes, i: nat)
    requires i < |s|
    ensures !SeparatorAt(EscapeFrom(s, i), 0)
  {
    var t := EscapeFrom(s, i);
    if |t| > 2 && t[0] == 0xE2 && t[1] == 0x80 && t[2] >= 0x80 {
      HighBytesStay(s, i);
      HighBytesStay(s, i + 1);
      HighBytesStay(s, i + 2);
      OneIsPlain(s, i);
    }
  }

  ghost predicate Plain(t: Bytes) {
    (forall k :: 0 <= k < |t| ==> t[k] >= 0x20) && (forall k: int :: !SeparatorAt(t, k))
  }

  lemma {:induction false} PlainJoins(text: Bytes, rest: Bytes)
    requires |text| > 0 && Plain(rest) && !SeparatorAt(text + rest, 0)
    requires (forall k :: 0 <= k < |text| ==> text[k] < 0x80) || |text| == 1
    requires forall k :: 0 <= k < |text| ==> text[k] >= 0x20
    ensures Plain(text + rest)
  {
    var t := text + rest;
    forall k: int ensures !SeparatorAt(t, k) {
      if k >= |text| {
        assert !SeparatorAt(rest, k - |text|);
      }
    }
  }

  /** No printed string has a control byte or a line separator. */
  lemma {:induction false} PrintedIsPlain(s: Bytes, i: nat)
    requires i <= |s|
    ensures Plain(EscapeFrom(s, i))
    decreases |s| - i
  {
    if i < |s| {
      OneIsPlain(s, i);
      NoneInFront(s, i);
      PrintedIsPlain(s, i + EscapeOne(s, i).1);
      PlainJoins(EscapeOne(s, i).0, EscapeFrom(s, i + EscapeOne(s, i).1));
    }
  }

  // The loops

  method WriteString(value: Bytes, out0: Bytes) returns (out: Bytes)
    ensures out == out0 + DumpString(value)
  {
    out := out0 + [QUOTE];
    var i := 0;
    while i < |value|
      invariant 0 <= i <= |value|
      invariant out + (EscapeFrom(value, i) + [QUOTE]) == out0 + DumpString(value)
    {
      var text, step := EscapeOne(value, i).0, EscapeOne(value, i).1;
      Regroup(text, EscapeFrom(value, i + step), [QUOTE]);
      Regroup(out, text, EscapeFrom(value, i + step) + [QUOTE]);
      out := out + text;
      i := i + step;
    }
    out := out + [QUOTE];
  }

  /** What the array loop has still to write after k items. */
  function ItemsLeft(vs: seq<Json>, k: nat): Bytes
    requires k <= |vs|
  {
    (if k == |vs| then [] else Separator(k) + DumpItems(vs[k..])) + [RIGHT_BRACKET]
  }

  function Separator(k: nat): Bytes {
    if k == 0 then [] else [COMMA, SPACE]
  }

  lemma {:induction false} ItemsLeftStep(vs: seq<Json>, k: nat)
    requires k < |vs|
    ensures ItemsLeft(vs, k) == (Separator(k) + Dump(vs[k])) + ItemsLeft(vs, k + 1)
  {
    hide Dump;
    assert vs[k..][1..] == vs[k + 1..];
    var more := if k + 1 == |vs| then [] else [COMMA, SPACE] + DumpItems(vs[k + 1..]);
    Regroup(Separator(k), Dump(vs[k]), more);
    Regroup(Separator(k) + Dump(vs[k]), more, [RIGHT_BRACKET]);
  }

  lemma {:induction false} ItemsLeftEnds(vs: seq<Json>)
    ensures Dump(Array(vs)) == [LEFT_BRACKET] + ItemsLeft(vs, 0)
    ensures ItemsLeft(vs, |vs|) == [RIGHT_BRACKET]
  {
    assert vs[0..] == vs;
    if |vs| > 0 { assert Separator(0) + DumpItems(vs) == DumpItems(vs); }
  }

  function MembersLeft(ms: seq<Member>, k: nat): Bytes
    requires k <= |ms|
  {
    (if k == |ms| then [] else Separator(k) + DumpMembers(ms[k..])) + [RIGHT_BRACE]
  }

  lemma {:induction false} MembersLeftStep(ms: seq<Member>, k: nat)
    requires k < |ms|
    ensures MembersLeft(ms, k) == (Separator(k) + DumpMember(ms[k])) + MembersLeft(ms, k + 1)
  {
    hide DumpMember;
    assert ms[k..][1..] == ms[k + 1..];
    var more := if k + 1 == |ms| then [] else [COMMA, SPACE] + DumpMembers(ms[k + 1..]);
    Regroup(Separator(k), DumpMember(ms[k]), more);
    Regroup(Separator(k) + DumpMember(ms[k]), more, [RIGHT_BRACE]);
  }

  lemma {:induction false} MembersLeftEnds(ms: seq<Member>)
    ensures Dump(Object(ms)) == [LEFT_BRACE] + MembersLeft(ms, 0)
    ensures MembersLeft(ms, |ms|) == [RIGHT_BRACE]
  {
    assert ms[0..] == ms;
    if |ms| > 0 { assert Separator(0) + DumpMembers(ms) == DumpMembers(ms); }
  }

  method WriteSeparator(first: bool, out0: Bytes, ghost k: nat) returns (out: Bytes)
    requires first <==> k == 0
    ensures out == out0 + Separator(k)
  {
    out := out0;
    if !first {
      out := out + [COMMA, SPACE];
    }
  }

  method WriteArray(values: seq<Json>, out0: Bytes) returns (out: Bytes)
    ensures out == out0 + Dump(Array(values))
    decreases values, 0
  {
    hide *;
    var first := true;
    out := out0 + [LEFT_BRACKET];
    ItemsLeftEnds(values);
    Regroup(out0, [LEFT_BRACKET], ItemsLeft(values, 0));
    for k := 0 to |values|
      invariant first <==> k == 0
      invariant out + ItemsLeft(values, k) == out0 + Dump(Array(values))
    {
      ghost var before := out;
      out := WriteSeparator(first, out, k);
      out := Write(values[k], out);
      first := false;
      ItemsLeftStep(values, k);
      Regroup(before, Separator(k), Dump(values[k]));
      Regroup(before, Separator(k) + Dump(values[k]), ItemsLeft(values, k + 1));
    }
    out := out + [RIGHT_BRACKET];
  }

  method WriteMember(m: Member, out0: Bytes) returns (out: Bytes)
    ensures out == out0 + DumpMember(m)
    decreases m, 0
  {
    hide Dump, DumpString;
    out := WriteString(m.key, out0);
    out := out + [COLON, SPACE];
    out := Write(m.value, out);
    Regroup(out0, DumpString(m.key), [COLON, SPACE]);
    Regroup(out0, DumpString(m.key) + [COLON, SPACE], Dump(m.value));
    Regroup(DumpString(m.key), [COLON, SPACE], Dump(m.value));
  }

  method WriteObject(values: seq<Member>, out0: Bytes) returns (out: Bytes)
    ensures out == out0 + Dump(Object(values))
    decreases values, 0
  {
    hide *;
    var first := true;
    out := out0 + [LEFT_BRACE];
    MembersLeftEnds(values);
    Regroup(out0, [LEFT_BRACE], MembersLeft(values, 0));
    for k := 0 to |values|
      invariant first <==> k == 0
      invariant out + MembersLeft(values, k) == out0 + Dump(Object(values))
    {
      ghost var before := out;
      out := WriteSeparator(first, out, k);
      out := WriteMember(values[k], out);
      first := false;
      MembersLeftStep(values, k);
      Regroup(before, Separator(k), DumpMember(values[k]));
      Regroup(before, Separator(k) + DumpMember(values[k]), MembersLeft(values, k + 1));
    }
    out := out + [RIGHT_BRACE];
  }

  method Write(v: Json, out0: Bytes) returns (out: Bytes)
    ensures out == out0 + Dump(v)
    decreases v, 1
  {
    match v
    case Null => out := out0 + NULL_WORD;
    case Bool(b) => out := out0 + if b then TRUE_WORD else FALSE_WORD;
    case Number(n) => out := out0 + if n.Whole? then IntText(n.n) else [];
    case String(s) => out := WriteString(s, out0);
    case Array(vs) => out := WriteArray(vs, out0);
    case Object(ms) => out := WriteObject(ms, out0);
  }
}
