/** What `LruMap` is meant to be: a sequence of entries, most recently used first. */
module Recency {

  datatype Entry<K, V> = Entry(key: K, value: V)

  datatype Op<K, V> = Find(key: K) | Insert(key: K, value: V) | Erase(key: K) | Clear

  predicate Has<K(==), V>(r: seq<Entry<K, V>>, key: K) {
    exists i :: 0 <= i < |r| && r[i].key == key
  }

  function Place<K(==), V>(r: seq<Entry<K, V>>, key: K): (i: nat)
    ensures i <= |r| && (i < |r| ==> r[i].key == key) && forall j :: 0 <= j < i ==> r[j].key != key
    ensures i < |r| <==> Has(r, key)
  {
    if |r| == 0 || r[0].key == key then 0 else 1 + Place(r[1..], key)
  }

  function Without<T>(r: seq<T>, i: nat): seq<T>
    requires i < |r|
  {
    r[..i] + r[i + 1..]
  }

  function ToFront<T>(r: seq<T>, i: nat): seq<T>
    requires i < |r|
  {
    [r[i]] + Without(r, i)
  }

  /** A found entry moves to the front; a new one comes there, and the last one goes if there are too many. */
  function Apply<K(==), V>(r: seq<Entry<K, V>>, op: Op<K, V>, capacity: nat): seq<Entry<K, V>> {
    match op
    case Find(key) => if Has(r, key) then ToFront(r, Place(r, key)) else r
    case Insert(key, value) =>
      if Has(r, key) then r
      else
        var r' := [Entry(key, value)] + r;
        if |r'| > capacity then r'[..|r'| - 1] else r'
    case Erase(key) => if Has(r, key) then Without(r, Place(r, key)) else r
    case Clear => []
  }

  function Run<K(==), V>(ops: seq<Op<K, V>>, capacity: nat): seq<Entry<K, V>> {
    if |ops| == 0 then [] else Apply(Run(ops[..|ops| - 1], capacity), ops[|ops| - 1], capacity)
  }

  /** An operation uses a key if it finds it or newly inserts it. */
  predicate Uses<K(==), V>(r: seq<Entry<K, V>>, op: Op<K, V>, key: K) {
    || (op.Find? && op.key == key && Has(r, key))
    || (op.Insert? && op.key == key && !Has(r, key))
  }

  /** When a key was last used, counted from one; zero if never. */
  function LastUse<K(==), V>(ops: seq<Op<K, V>>, capacity: nat, key: K): nat {
    if |ops| == 0 then 0
    else if Uses(Run(ops[..|ops| - 1], capacity), ops[|ops| - 1], key) then |ops|
    else LastUse(ops[..|ops| - 1], capacity, key)
  }

  lemma {:induction false} LastUseBound<K, V>(ops: seq<Op<K, V>>, capacity: nat, key: K)
    ensures LastUse(ops, capacity, key) <= |ops|
  {
    if |ops| > 0 {
      LastUseBound(ops[..|ops| - 1], capacity, key);
    }
  }

  predicate Distinct<K(==), V>(r: seq<Entry<K, V>>) {
    forall i, j :: 0 <= i < j < |r| ==> r[i].key != r[j].key
  }

  lemma {:induction false} WithoutAt<T>(r: seq<T>, i: nat)
    requires i < |r|
    ensures |Without(r, i)| == |r| - 1
    ensures forall k :: 0 <= k < |r| - 1 ==> Without(r, i)[k] == r[if k < i then k else k + 1]
  {
  }

  lemma {:induction false} ToFrontAt<T>(r: seq<T>, i: nat)
    requires i < |r|
    ensures |ToFront(r, i)| == |r| && ToFront(r, i)[0] == r[i]
    ensures forall k :: 0 < k < |r| ==> ToFront(r, i)[k] == r[if k <= i then k - 1 else k]
  {
    WithoutAt(r, i);
  }

  lemma {:induction false} PlaceIs<K, V>(r: seq<Entry<K, V>>, key: K, i: nat)
    requires Distinct(r) && i < |r| && r[i].key == key
    ensures Place(r, key) == i && Has(r, key)
  {
  }

  /** Where the entries after an operation come from: a used one is in front, the others were there, in
      the same order. */
  ghost predicate Origin<K, V>(r: seq<Entry<K, V>>, op: Op<K, V>, r': seq<Entry<K, V>>, from: seq<nat>) {
    && |from| == |r'|
    && (forall i :: 0 <= i < |r'| ==>
          if Uses(r, op, r'[i].key) then i == 0 else from[i] < |r| && r'[i] == r[from[i]])
    && (forall i, j :: 0 <= i < j < |r'| && !Uses(r, op, r'[i].key) ==> from[i] < from[j])
  }

  lemma {:induction false} FindOrigin<K, V>(r: seq<Entry<K, V>>, key: K, capacity: nat) returns (from: seq<nat>)
    requires Distinct(r)
    ensures Origin(r, Find(key), Apply(r, Find(key), capacity), from) && |Apply(r, Find(key), capacity)| == |r|
  {
    hide Place, ToFront;
    var p := Place(r, key);
    if p == |r| {
      from := seq(|r|, i requires 0 <= i => i);
    } else {
      ToFrontAt(r, p);
      hide Has;
      from := seq(|r|, i requires 0 <= i => if i == 0 then p else if i <= p then i - 1 else i);
      forall i | 0 < i < |r| ensures !Uses(r, Find(key), ToFront(r, p)[i].key) {
        assert ToFront(r, p)[i] == r[from[i]] && from[i] != p;
      }
    }
  }

  lemma {:induction false} InsertOrigin<K, V>(r: seq<Entry<K, V>>, key: K, value: V, capacity: nat)
    returns (from: seq<nat>)
    requires Distinct(r) && |r| <= capacity && capacity > 0
    ensures Origin(r, Insert(key, value), Apply(r, Insert(key, value), capacity), from)
    ensures |Apply(r, Insert(key, value), capacity)| <= capacity
  {
    hide Place;
    var r' := Apply(r, Insert(key, value), capacity);
    from := seq(|r'|, i requires 0 <= i => if Has(r, key) then i else if i == 0 then 0 else i - 1);
  }

  lemma {:induction false} EraseOrigin<K, V>(r: seq<Entry<K, V>>, key: K, capacity: nat) returns (from: seq<nat>)
    requires Distinct(r)
    ensures Origin(r, Erase(key), Apply(r, Erase(key), capacity), from) && |Apply(r, Erase(key), capacity)| <= |r|
  {
    var p := Place(r, key);
    from := seq(|Apply(r, Erase(key), capacity)|, i requires 0 <= i => if i < p then i else i + 1);
    if p < |r| {
      WithoutAt(r, p);
      hide Without, Place, Has, Distinct;
    }
  }

  lemma {:induction false} ApplyOrigin<K, V>(r: seq<Entry<K, V>>, op: Op<K, V>, capacity: nat) returns (from: seq<nat>)
    requires Distinct(r) && |r| <= capacity && capacity > 0
    ensures Origin(r, op, Apply(r, op, capacity), from) && |Apply(r, op, capacity)| <= capacity
  {
    match op
    case Find(key) => from := FindOrigin(r, key, capacity);
    case Insert(key, value) => from := InsertOrigin(r, key, value, capacity);
    case Erase(key) => from := EraseOrigin(r, key, capacity);
    case Clear => from := [];
  }

  lemma {:induction false} HasAt<K, V>(r: seq<Entry<K, V>>, i: nat)
    requires i < |r|
    ensures Has(r, r[i].key)
  {
  }

  lemma {:induction false} ErasedHas<K, V>(r: seq<Entry<K, V>>, i: nat, k: K)
    requires Distinct(r) && i < |r|
    ensures Has(Without(r, i), k) <==> Has(r, k) && k != r[i].key
  {
    WithoutAt(r, i);
    var r' := Without(r, i);
    hide Without;
    if Has(r', k) {
      var j :| 0 <= j < |r'| && r'[j].key == k;
      HasAt(r, if j < i then j else j + 1);
    }
    if Has(r, k) && k != r[i].key {
      var j :| 0 <= j < |r| && r[j].key == k;
      assert r'[if j < i then j else j - 1].key == k;
    }
  }

  lemma {:induction false} PushedHas<K, V>(r: seq<Entry<K, V>>, e: Entry<K, V>, k: K)
    ensures Has([e] + r, k) <==> k == e.key || Has(r, k)
  {
    var r' := [e] + r;
    if Has(r, k) {
      var j :| 0 <= j < |r| && r[j].key == k;
      assert r'[j + 1].key == k;
    }
    assert r'[0] == e;
  }

  lemma {:induction false} LastOut<K, V>(r: seq<Entry<K, V>>, k: K)
    requires Distinct(r) && |r| > 0
    ensures Has(r[..|r| - 1], k) <==> Has(r, k) && k != r[|r| - 1].key
  {
    assert r[..|r| - 1] == Without(r, |r| - 1);
    ErasedHas(r, |r| - 1, k);
  }

  /** Which keys are there after an operation: an inserted one is, and of the others only an erased one goes, or the
      last one where the map is full. */
  lemma {:induction false} KeysAfter<K, V>(r: seq<Entry<K, V>>, op: Op<K, V>, capacity: nat, k: K)
    requires Distinct(r) && |r| <= capacity && capacity > 0
    ensures Has(Apply(r, op, capacity), k)
       <==> match op
            case Find(_) => Has(r, k)
            case Insert(key, _) =>
              k == key || (Has(r, k) && (Has(r, key) || |r| < capacity || r[|r| - 1].key != k))
            case Erase(key) => Has(r, k) && k != key
            case Clear => false
  {
    hide Has, Without, Distinct;
    match op
    case Find(key) =>
      if Has(r, key) {
        var i := Place(r, key);
        ErasedHas(r, i, k);
        PushedHas(Without(r, i), r[i], k);
        HasAt(r, i);
      }
    case Insert(key, value) =>
      if !Has(r, key) {
        PushedHas(r, Entry(key, value), k);
        if |r| == capacity {
          assert ([Entry(key, value)] + r)[..|r|] == [Entry(key, value)] + r[..|r| - 1];
          PushedHas(r[..|r| - 1], Entry(key, value), k);
          LastOut(r, k);
        }
      }
    case Erase(key) =>
      if Has(r, key) {
        ErasedHas(r, Place(r, key), k);
      }
    case Clear =>
      NothingHas<K, V>(k);
  }

  lemma {:induction false} NothingHas<K, V>(k: K)
    ensures !Has<K, V>([], k)
  {
  }

  lemma {:induction false} OriginDistinct<K, V>(r: seq<Entry<K, V>>, op: Op<K, V>, r': seq<Entry<K, V>>, from: seq<nat>)
    requires Distinct(r) && Origin(r, op, r', from)
    ensures Distinct(r')
  {
    hide Uses;
  }

  /** After any operations: no key twice, no more than the capacity, and the order of the entries is the
      order in which their keys were last used, the latest first. */
  lemma {:induction false} OrderIsRecency<K, V>(ops: seq<Op<K, V>>, capacity: nat)
    requires capacity > 0
    ensures var r := Run(ops, capacity);
            && Distinct(r) && |r| <= capacity
            && (forall i, j :: 0 <= i < j < |r| ==>
                  LastUse(ops, capacity, r[i].key) > LastUse(ops, capacity, r[j].key))
  {
    hide Apply, Uses, Distinct;
    if |ops| == 0 {
      EmptyDistinct<K, V>();
    } else {
      var init, op := ops[..|ops| - 1], ops[|ops| - 1];
      var r, r' := Run(init, capacity), Run(ops, capacity);
      OrderIsRecency(init, capacity);
      var from := ApplyOrigin(r, op, capacity);
      OriginDistinct(r, op, r', from);
      forall i, j | 0 <= i < j < |r'|
        ensures LastUse(ops, capacity, r'[i].key) > LastUse(ops, capacity, r'[j].key)
      {
        LastUseBound(init, capacity, r'[j].key);
      }
    }
  }

  lemma {:induction false} EmptyDistinct<K, V>()
    ensures Distinct<K, V>([])
  {
  }

  /** Inserting a new key into a full map drops the key whose last use is the longest ago, and no other. */
  lemma {:induction false} EvictsLeastRecentlyUsed<K, V>(ops: seq<Op<K, V>>, capacity: nat, key: K, value: V)
    requires capacity > 0 && |Run(ops, capacity)| == capacity && !Has(Run(ops, capacity), key)
    ensures var r, r' := Run(ops, capacity), Run(ops + [Insert(key, value)], capacity);
            && r' == [Entry(key, value)] + r[..|r| - 1]
            && forall i :: 0 <= i < |r| - 1 ==>
                 LastUse(ops, capacity, r[i].key) > LastUse(ops, capacity, r[|r| - 1].key)
  {
    OrderIsRecency(ops, capacity);
    assert (ops + [Insert(key, value)])[..|ops|] == ops;
  }
}
