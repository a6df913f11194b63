/** `fastring::rfind`: the last occurrence of a text, found backwards with a table of safe skips. */
module FastringRfind {
  import opened Options
  import opened ByteText

  ghost predicate OccursAt(s: Bytes, sub: Bytes, j: int) {
    0 <= j && j + |sub| <= |s| && s[j..j + |sub|] == sub
  }

  /** The last place where `sub` stands in `s`, or none because there is no such place. */
  ghost predicate IsLast(s: Bytes, sub: Bytes, r: Option<nat>) {
    match r
    case Some(j) => OccursAt(s, sub, j) && forall k :: j < k ==> !OccursAt(s, sub, k)
    case None => forall k :: !OccursAt(s, sub, k)
  }

  lemma {:induction false} LastIsUnique(s: Bytes, sub: Bytes, r: Option<nat>, t: Option<nat>)
    requires IsLast(s, sub, r) && IsLast(s, sub, t)
    ensures r == t
  {
    if r.Some? && t.Some? {
      assert OccursAt(s, sub, r.value) && OccursAt(s, sub, t.value);
    }
  }

  /** The table entry of a byte: the first place it has in `sub`, counted from one, or zero. */
  ghost predicate IsEntry(sub: Bytes, c: Byte, x: nat) {
    && x <= |sub| && (x > 0 ==> sub[x - 1] == c)
    && forall i :: 0 <= i < (if x > 0 then x - 1 else |sub|) ==> sub[i] != c
  }

  /** An occurrence before j covers the byte before j or ends before it, so it lies at least a skip away. */
  lemma {:induction false} NoMatchIsSkipped(s: Bytes, sub: Bytes, j: nat, x: nat, k: int)
    requires 0 < j <= |s| && IsEntry(sub, s[j - 1], x)
    requires OccursAt(s, sub, k) && k < j
    ensures k <= j - if x == 0 then |sub| + 1 else x
  {
    var i := j - 1 - k;
    if i < |sub| {
      assert s[k..k + |sub|][i] == s[j - 1];
    }
  }

  /** `memrchr`. */
  method LastByte(s: Bytes, c: Byte) returns (r: Option<nat>)
    ensures IsLast(s, [c], r)
  {
    var j := |s|;
    while j > 0
      invariant 0 <= j <= |s| && forall k :: j <= k < |s| ==> s[k] != c
    {
      j := j - 1;
      if s[j] == c {
        forall k | j < k ensures !OccursAt(s, [c], k) {
          assert k < |s| ==> s[k..k + 1][0] == s[k];
        }
        return Some(j);
      }
    }
    forall k ensures !OccursAt(s, [c], k) {
      assert 0 <= k < |s| ==> s[k..k + 1][0] == s[k];
    }
    r := None;
  }

  /** Filled from the end of `sub`, so that an earlier place overwrites a later one. */
  method SkipTable(sub: Bytes) returns (tbl: array<nat>)
    ensures fresh(tbl) && tbl.Length == 256 && forall c: Byte :: IsEntry(sub, c, tbl[c])
  {
    tbl := new nat[256](_ => 0);
    var i := |sub|;
    while i > 0
      invariant 0 <= i <= |sub| && tbl.Length == 256
      invariant forall c: Byte :: tbl[c] <= |sub| && (tbl[c] > 0 ==> tbl[c] > i && sub[tbl[c] - 1] == c)
      invariant forall c: Byte, k :: i <= k < (if tbl[c] > 0 then tbl[c] - 1 else |sub|) ==> sub[k] != c
    {
      tbl[sub[i - 1]] := i;
      i := i - 1;
    }
  }

  method Rfind(s: Bytes, sub: Bytes) returns (r: Option<nat>)
    ensures IsLast(s, sub, r)
  {
    if |sub| == 1 {
      assert sub == [sub[0]];
      r := LastByte(s, sub[0]);
      return;
    }
    if |s| < |sub| {
      return None;
    }
    var tbl := SkipTable(sub);
    var j := |s| - |sub|;
    while true
      invariant 0 <= j && j + |sub| <= |s| && forall k :: j < k ==> !OccursAt(s, sub, k)
      decreases j
    {
      if s[j..j + |sub|] == sub {
        return Some(j);
      }
      if j == 0 {
        return None;
      }
      var x := tbl[s[j - 1]];
      ghost var entry := x;
      if x == 0 {
        x := |sub| + 1;
      }
      forall k | j - x < k <= j ensures !OccursAt(s, sub, k) {
        if k < j && OccursAt(s, sub, k) {
          NoMatchIsSkipped(s, sub, j, entry, k);
          assert false;
        }
      }
      if j < x {
        return None;
      }
      j := j - x;
    }
  }
}
