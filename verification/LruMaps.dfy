/** `LruMap`: a map, a list of its keys, and an index of list nodes, kept in agreement; and the cache of
    formatted numbers built on it. */
module LruMaps {
  import opened Options
  import opened ByteText
  import R = Recency

  /** A node of `std::list`, which keeps its identity when it is moved. */
  class Node<K> {
    const key: K
    constructor (key: K)
      ensures this.key == key
    {
      this.key := key;
    }
  }

  /** Where a node is in the list. */
  function Position<K>(list: seq<Node<K>>, node: Node<K>): (i: nat)
    requires node in list
    ensures i < |list| && list[i] == node
  {
    if list[0] == node then 0 else 1 + Position(list[1..], node)
  }

  /** The first node of a key, or the length of the list. */
  function KeyAt<K(==)>(list: seq<Node<K>>, key: K): (i: nat)
    ensures i <= |list| && (i < |list| ==> list[i].key == key) && forall j :: 0 <= j < i ==> list[j].key != key
  {
    if |list| == 0 || list[0].key == key then 0 else 1 + KeyAt(list[1..], key)
  }

  /** No key twice. */
  ghost predicate Single<K>(kl: seq<Node<K>>) {
    forall i :: 0 <= i < |kl| ==> KeyAt(kl, kl[i].key) == i
  }

  /** Each node's key is in the index, on that node. */
  ghost predicate Indexed<K>(ki: map<K, Node<K>>, kl: seq<Node<K>>) {
    forall i :: 0 <= i < |kl| ==> kl[i].key in ki && ki[kl[i].key] == kl[i]
  }

  /** Each key of the index has a node. */
  ghost predicate Listed<K>(ki: map<K, Node<K>>, kl: seq<Node<K>>) {
    forall k :: k in ki ==> KeyAt(kl, k) < |kl|
  }

  /** The map, the index and the list agree: the same keys, none twice, each index entry on the node of
      its key in the list, and no more than the capacity. */
  ghost predicate Agree<K, V>(capacity: nat, kv: map<K, V>, ki: map<K, Node<K>>, kl: seq<Node<K>>) {
    && 0 < capacity && |kl| <= capacity && |kv| == |kl| && kv.Keys == ki.Keys
    && Single(kl) && Indexed(ki, kl) && Listed(ki, kl)
  }

  ghost predicate Covers<K, V>(kv: map<K, V>, kl: seq<Node<K>>) {
    forall i :: 0 <= i < |kl| ==> kl[i].key in kv
  }

  ghost function Entries<K, V>(kv: map<K, V>, kl: seq<Node<K>>): (r: seq<R.Entry<K, V>>)
    requires Covers(kv, kl)
    ensures |r| == |kl| && forall i :: 0 <= i < |kl| ==> r[i] == R.Entry(kl[i].key, kv[kl[i].key])
  {
    seq(|kl|, i requires 0 <= i < |kl| => R.Entry(kl[i].key, kv[kl[i].key]))
  }

  /** A key is in the map just when the recency sequence has it, at the place of its node. */
  lemma {:induction false} PlaceOf<K, V>(capacity: nat, kv: map<K, V>, ki: map<K, Node<K>>, kl: seq<Node<K>>, key: K)
    requires Agree(capacity, kv, ki, kl)
    ensures Covers(kv, kl) && R.Distinct(Entries(kv, kl)) && (key in kv <==> R.Has(Entries(kv, kl), key))
    ensures key in kv ==> ki[key] in kl && R.Place(Entries(kv, kl), key) == Position(kl, ki[key])
  {
    var r := Entries(kv, kl);
    if key in kv {
      var i := KeyAt(kl, key);
      assert r[i].key == key && kl[i] == ki[key];
      R.PlaceIs(r, key, i);
      assert kl[Position(kl, ki[key])].key == key;
    }
  }

  // Moving a node to the front

  lemma {:induction false} MoveKeepsSingle<K>(kl: seq<Node<K>>, i: nat)
    requires Single(kl) && i < |kl|
    ensures Single(R.ToFront(kl, i))
  {
    var kl' := R.ToFront(kl, i);
    R.ToFrontAt(kl, i);
    hide R.ToFront, KeyAt;
    forall j | 0 <= j < |kl'| ensures KeyAt(kl', kl'[j].key) == j {
      var m := KeyAt(kl', kl'[j].key);
      var j0 := if j == 0 then i else if j <= i then j - 1 else j;
      var m0 := if m == 0 then i else if m <= i then m - 1 else m;
      assert kl[j0].key == kl[m0].key;
    }
  }

  lemma {:induction false} MoveKeepsListed<K>(ki: map<K, Node<K>>, kl: seq<Node<K>>, i: nat)
    requires Listed(ki, kl) && i < |kl|
    ensures Listed(ki, R.ToFront(kl, i))
  {
    var kl' := R.ToFront(kl, i);
    R.ToFrontAt(kl, i);
    hide R.ToFront, KeyAt;
    forall k | k in ki ensures KeyAt(kl', k) < |kl'| {
      var j := KeyAt(kl, k);
      assert kl'[if j == i then 0 else if j < i then j + 1 else j].key == k;
    }
  }

  lemma {:induction false} MoveKeepsIndexed<K>(ki: map<K, Node<K>>, kl: seq<Node<K>>, i: nat)
    requires Indexed(ki, kl) && i < |kl|
    ensures Indexed(ki, R.ToFront(kl, i)) && |R.ToFront(kl, i)| == |kl|
  {
    R.ToFrontAt(kl, i);
    hide R.ToFront;
  }

  lemma {:induction false} MoveAgrees<K, V>(capacity: nat, kv: map<K, V>, ki: map<K, Node<K>>, kl: seq<Node<K>>, i: nat)
    requires Agree(capacity, kv, ki, kl) && i < |kl|
    ensures Agree(capacity, kv, ki, R.ToFront(kl, i))
  {
    hide Single, Indexed, Listed, R.ToFront;
    MoveKeepsSingle(kl, i);
    MoveKeepsIndexed(ki, kl, i);
    MoveKeepsListed(ki, kl, i);
  }

  lemma {:induction false} MoveEntries<K, V>(kv: map<K, V>, kl: seq<Node<K>>, i: nat)
    requires i < |kl| && Covers(kv, kl) && Covers(kv, R.ToFront(kl, i))
    ensures Entries(kv, R.ToFront(kl, i)) == R.ToFront(Entries(kv, kl), i)
  {
    R.ToFrontAt(kl, i);
    R.ToFrontAt(Entries(kv, kl), i);
    hide R.ToFront, Entries;
    assert Entries(kv, R.ToFront(kl, i)) == R.ToFront(Entries(kv, kl), i);
  }

  // A new node in front

  lemma {:induction false} PushKeepsSingle<K>(ki: map<K, Node<K>>, kl: seq<Node<K>>, node: Node<K>)
    requires Single(kl) && Indexed(ki, kl) && node.key !in ki
    ensures Single([node] + kl)
  {
    var kl' := [node] + kl;
    hide KeyAt;
    forall j | 0 <= j < |kl'| ensures KeyAt(kl', kl'[j].key) == j {
      var m := KeyAt(kl', kl'[j].key);
      if j > 0 {
        assert kl[j - 1].key in ki;
        assert m > 0 ==> kl[m - 1].key == kl[j - 1].key;
      }
    }
  }

  lemma {:induction false} PushKeepsListed<K>(ki: map<K, Node<K>>, kl: seq<Node<K>>, node: Node<K>)
    requires Listed(ki, kl)
    ensures Listed(ki[node.key := node], [node] + kl)
  {
    var ki', kl' := ki[node.key := node], [node] + kl;
    hide KeyAt;
    forall k | k in ki' ensures KeyAt(kl', k) < |kl'| {
      assert kl'[if k == node.key then 0 else KeyAt(kl, k) + 1].key == k;
    }
  }

  lemma {:induction false} PushKeepsIndexed<K>(ki: map<K, Node<K>>, kl: seq<Node<K>>, node: Node<K>)
    requires Indexed(ki, kl) && node.key !in ki
    ensures Indexed(ki[node.key := node], [node] + kl)
  {
  }

  lemma {:induction false} PushAgrees<K, V>(capacity: nat, kv: map<K, V>, ki: map<K, Node<K>>, kl: seq<Node<K>>,
                                            node: Node<K>, value: V)
    requires Agree(capacity, kv, ki, kl) && node.key !in kv
    ensures Agree(capacity + 1, kv[node.key := value], ki[node.key := node], [node] + kl)
  {
    hide Single, Indexed, Listed;
    PushKeepsSingle(ki, kl, node);
    PushKeepsIndexed(ki, kl, node);
    PushKeepsListed(ki, kl, node);
  }

  lemma {:induction false} PushEntries<K, V>(kv: map<K, V>, kl: seq<Node<K>>, node: Node<K>, value: V)
    requires Covers(kv, kl) && node.key !in kv
    ensures Covers(kv[node.key := value], [node] + kl)
    ensures Entries(kv[node.key := value], [node] + kl) == [R.Entry(node.key, value)] + Entries(kv, kl)
  {
  }

  // Taking a node out

  lemma {:induction false} DropKeepsSingle<K>(kl: seq<Node<K>>, i: nat)
    requires Single(kl) && i < |kl|
    ensures Single(R.Without(kl, i))
  {
    var kl' := R.Without(kl, i);
    R.WithoutAt(kl, i);
    hide R.Without, KeyAt;
    forall j | 0 <= j < |kl'| ensures KeyAt(kl', kl'[j].key) == j {
      var m := KeyAt(kl', kl'[j].key);
      assert kl[if j < i then j else j + 1].key == kl[if m < i then m else m + 1].key;
    }
  }

  lemma {:induction false} DropKeepsListed<K>(ki: map<K, Node<K>>, kl: seq<Node<K>>, i: nat)
    requires Listed(ki, kl) && i < |kl|
    ensures Listed(ki - {kl[i].key}, R.Without(kl, i))
  {
    var ki', kl' := ki - {kl[i].key}, R.Without(kl, i);
    R.WithoutAt(kl, i);
    hide R.Without, KeyAt;
    forall k | k in ki' ensures KeyAt(kl', k) < |kl'| {
      var j := KeyAt(kl, k);
      assert kl'[if j < i then j else j - 1].key == k;
    }
  }

  lemma {:induction false} DropKeepsIndexed<K>(ki: map<K, Node<K>>, kl: seq<Node<K>>, i: nat)
    requires Indexed(ki, kl) && Single(kl) && i < |kl|
    ensures Indexed(ki - {kl[i].key}, R.Without(kl, i)) && |R.Without(kl, i)| == |kl| - 1
  {
    var kl' := R.Without(kl, i);
    R.WithoutAt(kl, i);
    hide R.Without, KeyAt;
    forall j | 0 <= j < |kl'| ensures kl'[j].key != kl[i].key && kl'[j].key in ki && ki[kl'[j].key] == kl'[j] {
      var j0 := if j < i then j else j + 1;
      assert KeyAt(kl, kl[j0].key) == j0;
    }
  }

  lemma {:induction false} DropAgrees<K, V>(capacity: nat, kv: map<K, V>, ki: map<K, Node<K>>, kl: seq<Node<K>>, i: nat)
    requires Agree(capacity, kv, ki, kl) && i < |kl|
    ensures Agree(capacity, kv - {kl[i].key}, ki - {kl[i].key}, R.Without(kl, i))
  {
    AgreeCovers(capacity, kv, ki, kl);
    DropSize(kv, kl[i].key);
    hide Single, Indexed, Listed, R.Without, Covers;
    DropKeepsSingle(kl, i);
    DropKeepsIndexed(ki, kl, i);
    DropKeepsListed(ki, kl, i);
  }

  lemma {:induction false} DropSize<K, V>(kv: map<K, V>, key: K)
    requires key in kv
    ensures |kv - {key}| == |kv| - 1
  {
    assert (kv - {key}).Keys == kv.Keys - {key};
  }

  lemma {:induction false} DropEntries<K, V>(kv: map<K, V>, kl: seq<Node<K>>, i: nat)
    requires i < |kl| && Covers(kv, kl) && Covers(kv - {kl[i].key}, R.Without(kl, i))
    ensures Entries(kv - {kl[i].key}, R.Without(kl, i)) == R.Without(Entries(kv, kl), i)
  {
    R.WithoutAt(kl, i);
    R.WithoutAt(Entries(kv, kl), i);
    hide R.Without, Entries;
    assert Entries(kv - {kl[i].key}, R.Without(kl, i)) == R.Without(Entries(kv, kl), i);
  }

  /** Taking the last node out. */
  lemma {:induction false} DropLast<K, V>(capacity: nat, kv: map<K, V>, ki: map<K, Node<K>>, kl: seq<Node<K>>)
    requires Agree(capacity, kv, ki, kl) && |kl| > 0 && Covers(kv, kl)
    ensures var n := |kl| - 1;
            var kv', kl' := kv - {kl[n].key}, kl[..n];
            && Agree(capacity, kv', ki - {kl[n].key}, kl') && Covers(kv', kl')
            && Entries(kv', kl') == Entries(kv, kl)[..n]
  {
    hide Agree, Covers, Entries;
    var n := |kl| - 1;
    WithoutLast(kl);
    WithoutLast(Entries(kv, kl));
    DropAgrees(capacity, kv, ki, kl, n);
    AgreeCovers(capacity, kv - {kl[n].key}, ki - {kl[n].key}, kl[..n]);
    DropEntries(kv, kl, n);
  }

  lemma {:induction false} WithoutLast<T>(r: seq<T>)
    requires |r| > 0
    ensures R.Without(r, |r| - 1) == r[..|r| - 1]
  {
  }

  lemma {:induction false} AgreeCovers<K, V>(capacity: nat, kv: map<K, V>, ki: map<K, Node<K>>, kl: seq<Node<K>>)
    requires Agree(capacity, kv, ki, kl)
    ensures Covers(kv, kl) && |kv| == |kl| <= capacity && 0 < capacity
  {
  }

  class LruMap<K(==), V> {
    const capacity: nat
    var kv: map<K, V>
    var ki: map<K, Node<K>>
    var kl: seq<Node<K>>

    ghost predicate Valid()
      reads this
    {
      Agree(capacity, kv, ki, kl)
    }

    ghost function View(): seq<R.Entry<K, V>>
      requires Valid()
      reads this
    {
      Entries(kv, kl)
    }

    constructor (capacity: nat)
      ensures Valid() && View() == [] && this.capacity == if capacity > 0 then capacity else 1024
    {
      this.capacity := if capacity > 0 then capacity else 1024;
      kv, ki, kl := map[], map[], [];
    }

    method Find(key: K) returns (value: Option<V>)
      requires Valid()
      modifies this
      ensures Valid() && View() == R.Apply(old(View()), R.Find(key), capacity)
      ensures value == (if key in old(kv) then Some(old(kv)[key]) else None) && kv == old(kv)
    {
      hide Agree, Covers, Entries, R.ToFront;
      PlaceOf(capacity, kv, ki, kl, key);
      if key !in kv {
        return None;
      }
      AgreeMeans(capacity, kv, ki, kl, key);
      var i := Position(kl, ki[key]);
      if kl[0].key != key {
        MoveAgrees(capacity, kv, ki, kl, i);
        AgreeCovers(capacity, kv, ki, R.ToFront(kl, i));
        MoveEntries(kv, kl, i);
        R.ToFrontAt(kl, i);
        kl := R.ToFront(kl, i);
        ki := ki[key := kl[0]];
        assert ki == old(ki);
      } else {
        SameFront(View());
      }
      value := Some(kv[key]);
    }

    static lemma {:induction false} SameFront(r: seq<R.Entry<K, V>>)
      requires |r| > 0
      ensures R.ToFront(r, 0) == r
    {
    }

    static lemma {:induction false} AgreeMeans(capacity: nat, kv: map<K, V>, ki: map<K, Node<K>>, kl: seq<Node<K>>,
                                               key: K)
      requires Agree(capacity, kv, ki, kl) && key in kv
      ensures |kl| > 0 && key in ki && ki[key] in kl && ki[key].key == key
      ensures kl[0].key == key ==> Position(kl, ki[key]) == 0
      ensures kl[Position(kl, ki[key])].key == key
    {
    }

    /** Takes out the key at the end of the list. */
    method Evict()
      requires Agree(capacity + 1, kv, ki, kl) && |kl| > 0 && Covers(kv, kl)
      modifies this
      ensures |kl| == |old(kl)| - 1 && Agree(capacity + 1, kv, ki, kl) && Covers(kv, kl)
      ensures Entries(kv, kl) == old(Entries(kv, kl))[..|old(kl)| - 1]
      ensures kv == old(kv) - {old(kl)[|old(kl)| - 1].key}
    {
      hide Agree, Covers, Entries;
      DropLast(capacity + 1, kv, ki, kl);
      var k := kl[|kl| - 1].key;
      kl := kl[..|kl| - 1];
      kv := kv - {k};
      ki := ki - {k};
    }

    /** A key that is there keeps its value and its place. */
    method Insert(key: K, value: V)
      requires Valid()
      modifies this
      ensures Valid() && View() == R.Apply(old(View()), R.Insert(key, value), capacity)
      ensures forall k :: k in kv ==> (k in old(kv) && kv[k] == old(kv)[k]) || (k == key && kv[k] == value)
      ensures key in kv
    {
      hide Agree, Covers, Entries, R.Has, R.Apply;
      PlaceOf(capacity, kv, ki, kl, key);
      InsertMeans(View(), key, value);
      if key in kv {
        return;
      }
      var node := new Node(key);
      AgreeCovers(capacity, kv, ki, kl);
      PushAgrees(capacity, kv, ki, kl, node, value);
      PushEntries(kv, kl, node, value);
      kv, ki, kl := kv[key := value], ki[key := node], [node] + kl;
      AgreeCovers(capacity + 1, kv, ki, kl);
      if |kv| > capacity {
        Evict();
      }
      FitsBack(capacity, kv, ki, kl);
    }

    lemma {:induction false} InsertMeans(r: seq<R.Entry<K, V>>, key: K, value: V)
      ensures R.Apply(r, R.Insert(key, value), capacity)
           == if R.Has(r, key) then r
              else if |r| + 1 > capacity then ([R.Entry(key, value)] + r)[..|r|] else [R.Entry(key, value)] + r
    {
    }

    static lemma {:induction false} FitsBack(capacity: nat, kv: map<K, V>, ki: map<K, Node<K>>, kl: seq<Node<K>>)
      requires Agree(capacity + 1, kv, ki, kl) && |kl| <= capacity && 0 < capacity
      ensures Agree(capacity, kv, ki, kl) && Covers(kv, kl)
    {
    }

    method Erase(key: K)
      requires Valid()
      modifies this
      ensures Valid() && View() == R.Apply(old(View()), R.Erase(key), capacity)
    {
      hide R.Without, Agree, Covers, Entries;
      PlaceOf(capacity, kv, ki, kl, key);
      if key in kv {
        AgreeMeans(capacity, kv, ki, kl, key);
        var i := Position(kl, ki[key]);
        DropAgrees(capacity, kv, ki, kl, i);
        AgreeCovers(capacity, kv - {key}, ki - {key}, R.Without(kl, i));
        DropEntries(kv, kl, i);
        kl := R.Without(kl, i);
        ki := ki - {key};
        kv := kv - {key};
      }
    }

    method Clear()
      requires Valid()
      modifies this
      ensures Valid() && View() == R.Apply(old(View()), R.Clear, capacity)
    {
      kv, ki, kl := map[], map[], [];
    }
  }

  /** `dtoa`: formats through the cache; the formatter may fail, and failures are not cached. */
  class FormatCache {
    const format: nat -> Option<Bytes>
    const cache: LruMap<nat, Bytes>
    /** How often something was formatted. */
    ghost var formatted: nat

    ghost predicate Valid()
      reads this, cache
    {
      && cache.Valid() && cache.capacity == 1024
      && forall key :: key in cache.kv ==> format(key) == Some(cache.kv[key])
    }

    constructor (format: nat -> Option<Bytes>)
      ensures Valid() && this.format == format && fresh(cache)
    {
      this.format := format;
      cache := new LruMap(1024);
      formatted := 0;
    }

    /** Whatever was formatted before, the text is what formatting gives without the cache; nothing is formatted
        that the cache has, and it has what was last asked for. */
    method Dtoa(key: nat) returns (text: Bytes)
      requires Valid()
      modifies cache, `formatted
      ensures Valid() && text == match format(key) case Some(s) => s case None => []
      ensures formatted == old(formatted) + if key in old(cache.kv) then 0 else 1
      ensures format(key).Some? ==> key in cache.kv
    {
      hide Agree, Covers, Entries, R.Apply;
      var found := cache.Find(key);
      if found.Some? {
        return found.value;
      }
      var r := format(key);
      formatted := formatted + 1;
      if r.Some? {
        cache.Insert(key, r.value);
        return r.value;
      }
      text := [];
    }
  }
}
