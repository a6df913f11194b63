/** The values json11 keeps: a number is either the exact integer its text denotes or,
    when `strtod` would have to round or the text has a fraction or an exponent, that text.
    A `std::map` is the sequence of its members in ascending key order. */
module JsonValue {
  import opened Options
  import opened ByteText

  datatype Num = Whole(n: int) | Decimal(text: Bytes)

  datatype Json =
    | Null
    | Bool(b: bool)
    | Number(num: Num)
    | String(str: Bytes)
    | Array(items: seq<Json>)
    | Object(members: seq<Member>)

  datatype Member = Member(key: Bytes, value: Json)

  /** `std::string::operator<`: bytes compared as unsigned characters, a proper prefix first. */
  predicate Less(a: Bytes, b: Bytes) {
    |b| > 0 && (|a| == 0 || a[0] < b[0] || (a[0] == b[0] && Less(a[1..], b[1..])))
  }

  lemma {:induction false} LessTransitive(a: Bytes, b: Bytes, c: Bytes)
    requires Less(a, b) && Less(b, c)
    ensures Less(a, c)
  {
    if |a| > 0 && a[0] == b[0] == c[0] {
      LessTransitive(a[1..], b[1..], c[1..]);
    }
  }

  lemma {:induction false} LessIrreflexive(a: Bytes)
    ensures !Less(a, a)
  {
    if |a| > 0 {
      LessIrreflexive(a[1..]);
    }
  }

  lemma {:induction false} LessTotal(a: Bytes, b: Bytes)
    ensures a == b || Less(a, b) || Less(b, a)
  {
    if |a| > 0 && |b| > 0 && a[0] == b[0] {
      LessTotal(a[1..], b[1..]);
      assert a == [a[0]] + a[1..] && b == [b[0]] + b[1..];
    }
  }

  predicate FirstDifference(a: Bytes, b: Bytes, k: nat) {
    k <= |a| && k < |b| && a[..k] == b[..k] && (k == |a| || a[k] < b[k])
  }

  /** The order of keys is decided where they first differ. */
  lemma {:induction false} LessIs(a: Bytes, b: Bytes)
    ensures Less(a, b) <==> exists k: nat :: FirstDifference(a, b, k)
  {
    if Less(a, b) {
      if |a| == 0 || a[0] < b[0] {
        assert FirstDifference(a, b, 0);
      } else {
        LessIs(a[1..], b[1..]);
        var k: nat :| FirstDifference(a[1..], b[1..], k);
        assert a[..k + 1] == [a[0]] + a[1..][..k] && b[..k + 1] == [b[0]] + b[1..][..k];
        assert FirstDifference(a, b, k + 1);
      }
    } else if k: nat :| FirstDifference(a, b, k) {
      if k > 0 {
        assert a[0] == a[..k][0] && b[0] == b[..k][0];
        assert a[1..][..k - 1] == a[..k][1..] && b[1..][..k - 1] == b[..k][1..];
        assert FirstDifference(a[1..], b[1..], k - 1);
        LessIs(a[1..], b[1..]);
      }
    }
  }

  predicate Ascending(m: seq<Member>) {
    forall i, j :: 0 <= i < j < |m| ==> Less(m[i].key, m[j].key)
  }

  /** `data[key] = value` on the ordered map. */
  function Put(m: seq<Member>, key: Bytes, value: Json): seq<Member> {
    if |m| == 0 || Less(key, m[0].key) then [Member(key, value)] + m
    else if m[0].key == key then [Member(key, value)] + m[1..]
    else [m[0]] + Put(m[1..], key, value)
  }

  function Lookup(m: seq<Member>, key: Bytes): Option<Json> {
    if |m| == 0 then None
    else if m[0].key == key then Some(m[0].value)
    else Lookup(m[1..], key)
  }

  lemma {:induction false} AscendingCons(x: Member, m: seq<Member>)
    requires Ascending(m) && forall e :: e in m ==> Less(x.key, e.key)
    ensures Ascending([x] + m)
  {
    hide Less;
    var q := [x] + m;
    forall i, j | 0 <= i < j < |q| ensures Less(q[i].key, q[j].key) {
      assert q[j] == m[j - 1] && m[j - 1] in m;
      if i > 0 { assert q[i] == m[i - 1]; }
    }
  }

  lemma {:induction false} AscendingTail(m: seq<Member>)
    requires Ascending(m) && |m| > 0
    ensures Ascending(m[1..]) && forall e :: e in m[1..] ==> Less(m[0].key, e.key)
  {
    hide Less;
  }

  lemma {:induction false} AscendingInit(m: seq<Member>)
    requires Ascending(m) && |m| > 0
    ensures var n := |m| - 1; Ascending(m[..n]) && forall e :: e in m[..n] ==> Less(e.key, m[n].key)
  {
    hide Less;
  }

  lemma {:induction false} PutKeepsOrder(m: seq<Member>, key: Bytes, value: Json)
    requires Ascending(m)
    ensures Ascending(Put(m, key, value))
    ensures forall x :: x in Put(m, key, value) ==> x == Member(key, value) || x in m
  {
    if |m| == 0 {
      AscendingCons(Member(key, value), m);
    } else {
      hide Less, Ascending;
      AscendingTail(m);
      assert m == [m[0]] + m[1..];
      if Less(key, m[0].key) {
        forall e | e in m ensures Less(key, e.key) {
          if e != m[0] { LessTransitive(key, m[0].key, e.key); }
        }
        AscendingCons(Member(key, value), m);
      } else if m[0].key == key {
        AscendingCons(Member(key, value), m[1..]);
      } else {
        LessTotal(m[0].key, key);
        PutKeepsOrder(m[1..], key, value);
        AscendingCons(m[0], Put(m[1..], key, value));
      }
    }
  }

  /** On an ordered member list `Put` is a map update: the key gets the value, no other key changes. */
  lemma {:induction false} PutIsUpdate(m: seq<Member>, key: Bytes, value: Json, k: Bytes)
    requires Ascending(m)
    ensures Lookup(Put(m, key, value), k) == if k == key then Some(value) else Lookup(m, k)
  {
    if |m| > 0 && !Less(key, m[0].key) && m[0].key != key {
      PutIsUpdate(m[1..], key, value, k);
    } else if |m| > 0 && Less(key, m[0].key) {
      assert Put(m, key, value)[1..] == m;
    }
  }

  /** The map built by assigning the members one after the other: a later duplicate wins. */
  function Collect(m: seq<Member>): seq<Member> {
    if |m| == 0 then []
    else Put(Collect(m[..|m| - 1]), m[|m| - 1].key, m[|m| - 1].value)
  }

  lemma {:induction false} CollectOrder(m: seq<Member>)
    ensures Ascending(Collect(m))
    ensures forall x :: x in Collect(m) ==> x in m
  {
    if |m| > 0 {
      var last := m[|m| - 1];
      CollectOrder(m[..|m| - 1]);
      PutKeepsOrder(Collect(m[..|m| - 1]), last.key, last.value);
      assert last == Member(last.key, last.value);
    }
  }

  /** Reading a key from the built map gives the value of its last occurrence. */
  lemma {:induction false} CollectLookup(m: seq<Member>, i: nat)
    requires i < |m| && forall j :: i < j < |m| ==> m[j].key != m[i].key
    ensures Lookup(Collect(m), m[i].key) == Some(m[i].value)
  {
    var n := |m| - 1;
    CollectOrder(m[..n]);
    PutIsUpdate(Collect(m[..n]), m[n].key, m[n].value, m[i].key);
    if i < n {
      CollectLookup(m[..n], i);
    }
  }

  lemma {:induction false} PutLast(m: seq<Member>, key: Bytes, value: Json)
    requires forall x :: x in m ==> Less(x.key, key)
    ensures Put(m, key, value) == m + [Member(key, value)]
  {
    if |m| > 0 {
      assert m[0] in m;
      LessIrreflexive(key);
      if Less(key, m[0].key) { LessTransitive(key, m[0].key, key); }
      PutLast(m[1..], key, value);
      assert m == [m[0]] + m[1..];
    }
  }

  /** Members that already stand in map order come out as they went in. */
  lemma {:induction false} CollectAscending(m: seq<Member>)
    requires Ascending(m)
    ensures Collect(m) == m
  {
    hide Less, Ascending, Put;
    if |m| > 0 {
      var n := |m| - 1;
      AscendingInit(m);
      CollectAscending(m[..n]);
      PutLast(m[..n], m[n].key, m[n].value);
      assert m == m[..n] + [m[n]];
    }
  }
}
