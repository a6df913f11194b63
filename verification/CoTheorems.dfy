/** The main results about the co JSON parser: the shared key buffer is never outgrown, the key
    positions kept in the value stay valid, and printed text is read back to the same value. */
module CoTheorems {
  import opened ByteText
  import opened CoValue
  import opened CoReader

  // The key buffer

  function Objects(v: PValue): nat
    decreases v
  {
    match v
    case PArr(vs) => ItemObjects(vs)
    case PObj(ms) => 1 + MemberObjects(ms)
    case _ => 0
  }

  function ItemObjects(vs: seq<PValue>): nat
    decreases vs
  {
    if |vs| == 0 then 0 else Objects(vs[0]) + ItemObjects(vs[1..])
  }

  function MemberObjects(ms: seq<PMember>): nat
    decreases ms
  {
    if |ms| == 0 then 0 else ObjectsIn(ms[0]) + MemberObjects(ms[1..])
  }

  function ObjectsIn(m: PMember): nat
    decreases m
  {
    Objects(m.value)
  }

  /** A key position inside the buffer whose C string ends inside it. */
  predicate KeyIn(at: nat, data: Bytes) {
    at <= |data| && NulAt(data, at) < |data|
  }

  predicate KeysIn(v: PValue, data: Bytes)
    decreases v
  {
    match v
    case PArr(vs) => ItemKeysIn(vs, data)
    case PObj(ms) => MemberKeysIn(ms, data)
    case _ => true
  }

  predicate ItemKeysIn(vs: seq<PValue>, data: Bytes)
    decreases vs
  {
    |vs| == 0 || (KeysIn(vs[0], data) && ItemKeysIn(vs[1..], data))
  }

  predicate MemberKeysIn(ms: seq<PMember>, data: Bytes)
    decreases ms
  {
    |ms| == 0 || (KeyOfIn(ms[0], data) && MemberKeysIn(ms[1..], data))
  }

  predicate KeyOfIn(m: PMember, data: Bytes)
    decreases m
  {
    KeyIn(m.key, data) && KeysIn(m.value, data)
  }

  lemma {:induction false} NulAtStays(data: Bytes, at: nat, more: Bytes)
    requires at <= |data| && NulAt(data, at) < |data|
    ensures NulAt(data + more, at) == NulAt(data, at) && KeyAt(data + more, at) == KeyAt(data, at)
    decreases |data| - at
  {
    if data[at] != NUL {
      NulAtStays(data, at + 1, more);
    }
    assert (data + more)[at..NulAt(data, at)] == data[at..NulAt(data, at)];
  }

  /** Bytes added to the buffer later change no key read before. */
  lemma {:induction false} KeysStay(v: PValue, data: Bytes, more: Bytes)
    requires KeysIn(v, data)
    ensures KeysIn(v, data + more) && Resolve(v, data + more) == Resolve(v, data)
    decreases v
  {
    match v
    case PArr(vs) => ItemKeysStay(vs, data, more);
    case PObj(ms) => MemberKeysStay(ms, data, more);
    case _ =>
  }

  lemma {:induction false} ItemKeysStay(vs: seq<PValue>, data: Bytes, more: Bytes)
    requires ItemKeysIn(vs, data)
    ensures ItemKeysIn(vs, data + more) && ResolveItems(vs, data + more) == ResolveItems(vs, data)
    decreases vs
  {
    if |vs| > 0 {
      KeysStay(vs[0], data, more);
      ItemKeysStay(vs[1..], data, more);
    }
  }

  lemma {:induction false} MemberKeysStay(ms: seq<PMember>, data: Bytes, more: Bytes)
    requires MemberKeysIn(ms, data)
    ensures MemberKeysIn(ms, data + more) && ResolveMembers(ms, data + more) == ResolveMembers(ms, data)
    decreases ms
  {
    if |ms| > 0 {
      KeyOfStays(ms[0], data, more);
      MemberKeysStay(ms[1..], data, more);
    }
  }

  lemma {:induction false} KeyOfStays(m: PMember, data: Bytes, more: Bytes)
    requires KeyOfIn(m, data)
    ensures KeyOfIn(m, data + more) && ResolveMember(m, data + more) == ResolveMember(m, data)
    decreases m
  {
    NulAtStays(data, m.key, more);
    KeysStay(m.value, data, more);
  }

  /** The buffer has only grown, by at most `room` where it grew at all, and counts `objects` more. */
  ghost predicate Grew(c: Config, before: Keys, after: Keys, objects: nat, room: int) {
    && before.data <= after.data
    && (|after.data| == |before.data| || |after.data| - |before.data| <= room)
    && after.refs == before.refs + if c.keysLen > 0 then objects else 0
  }

  ghost predicate GoodValue(c: Config, k: nat, before: Keys, r: Parsed<PValue>) {
    r.Ok? ==> Grew(c, before, r.keys, Objects(r.value), r.last - k - 4) && KeysIn(r.value, r.keys.data)
  }

  /** Every object leaves at least three bytes for each key beside its text and NUL. */
  lemma {:induction false} ReadValueGrows(c: Config, s: Bytes, k: nat, keys: Keys)
    requires k < |s|
    ensures GoodValue(c, k, keys, ReadValue(c, s, k, keys))
    decreases |s| - k, 0
  {
    hide ReadText, ReadToken, ReadMembers, ReadItems;
    if s[k] == LEFT_BRACE {
      ReadMembersGrows(c, s, k + 1, Open(c, keys));
    } else if s[k] == LEFT_BRACKET {
      ReadItemsGrows(c, s, k + 1, keys);
    } else if s[k] != QUOTE && ReadToken(c, s, k).Some? {
      TokenIsScalar(c, s, k);
    }
  }

  lemma {:induction false} TokenIsScalar(c: Config, s: Bytes, k: nat)
    requires k < |s| && ReadToken(c, s, k).Some?
    ensures var v := ReadToken(c, s, k).value.0; !v.PArr? && !v.PObj?
  {
  }

  /** Two growths, one after the other. */
  lemma {:induction false} GrewTwice(c: Config, a: Keys, b: Keys, d: Keys, n1: nat, n2: nat, room1: int, room2: int,
                                     room: int)
    requires Grew(c, a, b, n1, room1) && Grew(c, b, d, n2, room2)
    requires room1 <= room && room2 <= room && room1 + room2 <= room
    ensures Grew(c, a, d, n1 + n2, room) && d.data == b.data + d.data[|b.data|..]
  {
  }

  lemma {:induction false} GrewNot(c: Config, a: Keys, room: int)
    ensures Grew(c, a, a, 0, room)
  {
  }

  lemma {:induction false} ItemJoins(v: PValue, rest: seq<PValue>, data: Bytes, more: Bytes)
    requires KeysIn(v, data) && ItemKeysIn(rest, data + more)
    ensures ItemKeysIn([v] + rest, data + more) && ItemObjects([v] + rest) == Objects(v) + ItemObjects(rest)
  {
    KeysStay(v, data, more);
    assert ([v] + rest)[1..] == rest;
  }

  /** The growth for an item and for those behind it. */
  lemma {:induction false} ItemAndRestGrow(c: Config, a: Keys, b: Keys, d: Keys, v: PValue, rest: seq<PValue>,
                                           room1: int, room2: int, room: int)
    requires Grew(c, a, b, Objects(v), room1) && KeysIn(v, b.data)
    requires Grew(c, b, d, ItemObjects(rest), room2) && ItemKeysIn(rest, d.data)
    requires room1 <= room && room2 <= room && room1 + room2 <= room
    ensures Grew(c, a, d, ItemObjects([v] + rest), room) && ItemKeysIn([v] + rest, d.data)
  {
    hide Grew, ItemObjects, ItemKeysIn, KeysIn, Objects;
    GrewTwice(c, a, b, d, Objects(v), ItemObjects(rest), room1, room2, room);
    ItemJoins(v, rest, b.data, d.data[|b.data|..]);
  }

  lemma {:induction false} LastItemGrows(c: Config, a: Keys, b: Keys, v: PValue, room1: int, room: int)
    requires Grew(c, a, b, Objects(v), room1) && KeysIn(v, b.data) && room1 <= room
    ensures Grew(c, a, b, ItemObjects([v]), room) && ItemKeysIn([v], b.data)
  {
    NoMore();
    assert [v][1..] == [];
  }

  lemma {:induction false} ReadItemsGrows(c: Config, s: Bytes, b: nat, keys: Keys)
    requires b <= |s|
    ensures var r := ReadItems(c, s, b, keys);
            r.Ok? ==> Grew(c, keys, r.keys, ItemObjects(r.value), r.last - b - 4) && ItemKeysIn(r.value, r.keys.data)
    decreases |s| - b, 1
  {
    hide ReadItems, ReadValue, JR.SkipWhite, Objects, KeysIn, Grew, ItemObjects, ItemKeysIn;
    ItemsTurn(c, s, b, keys);
    NoMore();
    var k, whole := JR.SkipWhite(s, b), ReadItems(c, s, b, keys);
    if whole.Ok? && k < |s| {
      if s[k] == RIGHT_BRACKET {
        GrewNot(c, keys, k - b - 4);
      } else {
        ReadValueGrows(c, s, k, keys);
        var r := ReadValue(c, s, k, keys);
        var t, room := JR.SkipWhite(s, r.last + 1), whole.last - b - 4;
        if t < |s| && s[t] == COMMA {
          ReadItemsGrows(c, s, t + 1, r.keys);
          var rest := ReadItems(c, s, t + 1, r.keys);
          ItemAndRestGrow(c, keys, r.keys, rest.keys, r.value, rest.value, r.last - k - 4, rest.last - t - 5, room);
        } else {
          LastItemGrows(c, keys, r.keys, r.value, r.last - k - 4, room);
        }
      }
    }
  }

  lemma {:induction false} NoMore()
    ensures ItemObjects([]) == 0 && MemberObjects([]) == 0
    ensures forall data :: ItemKeysIn([], data)
    ensures forall data :: MemberKeysIn([], data)
  {
  }

  lemma {:induction false} ReadMemberGrows(c: Config, s: Bytes, k: nat, keys: Keys)
    requires k < |s|
    ensures var r := ReadMember(c, s, k, keys);
            r.Ok? ==> Grew(c, keys, r.keys, ObjectsIn(r.value), r.last - k - 2) && KeyOfIn(r.value, r.keys.data)
    decreases |s| - k, 0
  {
    hide ReadValue, FindQuote, JR.SkipWhite, KeysIn;
    var r := ReadMember(c, s, k, keys);
    if r.Ok? {
      var p := FindQuote(s, k + 1);
      var colon := JR.SkipWhite(s, p + 1);
      var v := JR.SkipWhite(s, colon + 1);
      var with := keys.(data := keys.data + s[k + 1..p] + [NUL]);
      ReadValueGrows(c, s, v, with);
      var more := r.keys.data[|with.data|..];
      assert r.keys.data == with.data + more;
      NulIn(with.data, |keys.data|, |with.data| - 1);
      NulAtStays(with.data, |keys.data|, more);
    }
  }

  lemma {:induction false} NulIn(data: Bytes, at: nat, k: nat)
    requires at <= k < |data| && data[k] == NUL
    ensures NulAt(data, at) <= k
    decreases k - at
  {
    if at < k && data[at] != NUL {
      NulIn(data, at + 1, k);
    }
  }

  lemma {:induction false} MemberJoins(m: PMember, rest: seq<PMember>, data: Bytes, more: Bytes)
    requires KeyOfIn(m, data) && MemberKeysIn(rest, data + more)
    ensures MemberKeysIn([m] + rest, data + more) && MemberObjects([m] + rest) == ObjectsIn(m) + MemberObjects(rest)
  {
    KeyOfStays(m, data, more);
    assert ([m] + rest)[1..] == rest;
  }

  /** The growth for a member and for those behind it. */
  lemma {:induction false} MemberAndRestGrow(c: Config, a: Keys, b: Keys, d: Keys, m: PMember, rest: seq<PMember>,
                                             room1: int, room2: int, room: int)
    requires Grew(c, a, b, ObjectsIn(m), room1) && KeyOfIn(m, b.data)
    requires Grew(c, b, d, MemberObjects(rest), room2) && MemberKeysIn(rest, d.data)
    requires room1 <= room && room2 <= room && room1 + room2 <= room
    ensures Grew(c, a, d, MemberObjects([m] + rest), room) && MemberKeysIn([m] + rest, d.data)
  {
    hide Grew, MemberObjects, MemberKeysIn, KeyOfIn, ObjectsIn;
    GrewTwice(c, a, b, d, ObjectsIn(m), MemberObjects(rest), room1, room2, room);
    MemberJoins(m, rest, b.data, d.data[|b.data|..]);
  }

  lemma {:induction false} LastMemberGrows(c: Config, a: Keys, b: Keys, m: PMember, room1: int, room: int)
    requires Grew(c, a, b, ObjectsIn(m), room1) && KeyOfIn(m, b.data) && room1 <= room
    ensures Grew(c, a, b, MemberObjects([m]), room) && MemberKeysIn([m], b.data)
  {
    NoMore();
    assert [m][1..] == [];
  }

  lemma {:induction false} ReadMembersGrows(c: Config, s: Bytes, b: nat, keys: Keys)
    requires b <= |s|
    ensures var r := ReadMembers(c, s, b, keys);
            r.Ok? ==>
              Grew(c, keys, r.keys, MemberObjects(r.value), r.last - b - 3) && MemberKeysIn(r.value, r.keys.data)
    decreases |s| - b, 1
  {
    hide ReadMembers, ReadMember, JR.SkipWhite, ObjectsIn, KeyOfIn, Grew, MemberObjects, MemberKeysIn;
    MembersTurn(c, s, b, keys);
    NoMore();
    var k, whole := JR.SkipWhite(s, b), ReadMembers(c, s, b, keys);
    if whole.Ok? && k < |s| {
      if s[k] == RIGHT_BRACE {
        GrewNot(c, keys, k - b - 3);
      } else {
        ReadMemberGrows(c, s, k, keys);
        var r := ReadMember(c, s, k, keys);
        var t, room := JR.SkipWhite(s, r.last + 1), whole.last - b - 3;
        if t < |s| && s[t] == COMMA {
          ReadMembersGrows(c, s, t + 1, r.keys);
          var rest := ReadMembers(c, s, t + 1, r.keys);
          MemberAndRestGrow(c, keys, r.keys, rest.keys, r.value, rest.value, r.last - k - 2, rest.last - t - 4, room);
        } else {
          LastMemberGrows(c, keys, r.keys, r.value, r.last - k - 2, room);
        }
      }
    }
  }

  /** The bytes the parser needs in the shared buffer. */
  function BufferSize(keys: Keys): nat {
    (if keys.refs > 0 then COUNT_SIZE else 0) + |keys.data|
  }

  /** What the buffer holds before it is first moved. The reference count is appended before any key, and
      makes a buffer grow that is too short for it. */
  function Capacity(keysLen: nat): nat {
    if 0 < keysLen < COUNT_SIZE then keysLen * 3 / 2 + COUNT_SIZE else keysLen
  }

  /** An accepted text never outgrows a buffer of its own length, or the default one, so that the buffer is
      not moved and the keys kept in the value are those of the text; its reference count is the number of
      objects. */
  lemma {:induction false} KeyBufferSuffices(c: Config, s: Bytes)
    requires Parse(c, s).Ok?
    ensures var r := Parse(c, s);
            && KeysIn(r.value, r.keys.data)
            && r.keys.refs == (if c.keysLen > 0 then Objects(r.value) else 0)
            && (c.keysLen >= |s| || c.keysLen == KeysLen(s, 0) ==> BufferSize(r.keys) <= Capacity(c.keysLen))
            && BufferSize(r.keys) == |r.keys.data| + (if c.keysLen > 0 && Objects(r.value) > 0 then 4 else 0)
  {
    hide ReadValue;
    ReadValueGrows(c, s, JR.SkipWhite(s, 0), Keys(0, []));
  }
}
