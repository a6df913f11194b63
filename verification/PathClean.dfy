/** Lexical path cleaning: the in-place loop equals a split, fold and join, and is idempotent. */
module PathClean {
  import opened ByteText

  const DOT_ELEMENT: Bytes := [DOT]
  const DOT_DOT: Bytes := [DOT, DOT]

  // Specification

  function NextSlash(s: Bytes, i: nat): (k: nat)
    requires i <= |s|
    ensures i <= k <= |s| && (k < |s| ==> s[k] == SLASH)
    ensures forall j :: i <= j < k ==> s[j] != SLASH
    decreases |s| - i
  {
    if i == |s| || s[i] == SLASH then i else NextSlash(s, i + 1)
  }

  /** The elements between slashes from i on, empty ones included. */
  function Elements(s: Bytes, i: nat): seq<Bytes>
    requires i <= |s|
    decreases |s| - i
  {
    var k := NextSlash(s, i);
    [s[i..k]] + if k == |s| then [] else Elements(s, k + 1)
  }

  /** One element folded onto the elements kept so far. */
  function Push(rooted: bool, stack: seq<Bytes>, e: Bytes): seq<Bytes> {
    if e == [] || e == DOT_ELEMENT then stack
    else if e != DOT_DOT then stack + [e]
    else if |stack| > 0 && stack[|stack| - 1] != DOT_DOT then stack[..|stack| - 1]
    else if rooted then stack
    else stack + [DOT_DOT]
  }

  function Fold(rooted: bool, stack: seq<Bytes>, es: seq<Bytes>): seq<Bytes>
    decreases es
  {
    if |es| == 0 then stack else Fold(rooted, Push(rooted, stack, es[0]), es[1..])
  }

  function Join(es: seq<Bytes>): Bytes {
    if |es| == 0 then []
    else if |es| == 1 then es[0]
    else Join(es[..|es| - 1]) + [SLASH] + es[|es| - 1]
  }

  function Render(rooted: bool, stack: seq<Bytes>): Bytes {
    (if rooted then [SLASH] else []) + Join(stack)
  }

  predicate IsRooted(s: Bytes) {
    |s| > 0 && s[0] == SLASH
  }

  function Kept(s: Bytes): seq<Bytes> {
    Fold(IsRooted(s), [], Elements(s, if IsRooted(s) then 1 else 0))
  }

  function Clean(s: Bytes): Bytes {
    var r := Render(IsRooted(s), Kept(s));
    if |r| == 0 then DOT_ELEMENT else r
  }

  // Shape of what is kept

  predicate IsName(e: Bytes) {
    |e| > 0 && e != DOT_ELEMENT && e != DOT_DOT && SLASH !in e
  }

  /** d elements `..`, none if rooted, and then only names. */
  ghost predicate Normal(rooted: bool, stack: seq<Bytes>, d: nat) {
    && d <= |stack| && (rooted ==> d == 0)
    && (forall k :: 0 <= k < d ==> stack[k] == DOT_DOT)
    && (forall k :: d <= k < |stack| ==> IsName(stack[k]))
  }

  lemma {:induction false} PushNormal(rooted: bool, stack: seq<Bytes>, d: nat, e: Bytes) returns (d': nat)
    requires Normal(rooted, stack, d) && SLASH !in e
    ensures Normal(rooted, Push(rooted, stack, e), d')
  {
    d' := if e == DOT_DOT && |stack| == d && !rooted then d + 1 else d;
  }

  lemma {:induction false} ElementsHaveNoSlash(s: Bytes, i: nat)
    requires i <= |s|
    ensures forall e :: e in Elements(s, i) ==> SLASH !in e
    decreases |s| - i
  {
    var k := NextSlash(s, i);
    assert SLASH !in s[i..k];
    if k < |s| {
      ElementsHaveNoSlash(s, k + 1);
    }
  }

  lemma {:induction false} FoldNormal(rooted: bool, stack: seq<Bytes>, d: nat, es: seq<Bytes>) returns (d': nat)
    requires Normal(rooted, stack, d) && forall e :: e in es ==> SLASH !in e
    ensures Normal(rooted, Fold(rooted, stack, es), d')
    decreases es
  {
    if |es| == 0 {
      d' := d;
    } else {
      assert es[0] in es;
      d' := PushNormal(rooted, stack, d, es[0]);
      d' := FoldNormal(rooted, Push(rooted, stack, es[0]), d', es[1..]);
    }
  }

  /** A kept stack folds to itself. */
  lemma {:induction false} FoldKeepsNormal(rooted: bool, stack: seq<Bytes>, d: nat, k: nat)
    requires Normal(rooted, stack, d) && k <= |stack|
    ensures Fold(rooted, stack[..k], stack[k..]) == stack
    decreases |stack| - k
  {
    if k < |stack| {
      assert stack[k..][1..] == stack[k + 1..];
      assert stack[..k + 1] == stack[..k] + [stack[k]];
      FoldKeepsNormal(rooted, stack, d, k + 1);
    } else {
      assert stack[..k] == stack;
    }
  }

  // Joining and splitting are inverse

  lemma {:induction false} NextSlashIs(s: Bytes, i: nat, k: nat)
    requires i <= k <= |s| && (k == |s| || s[k] == SLASH) && forall j :: i <= j < k ==> s[j] != SLASH
    ensures NextSlash(s, i) == k
    decreases k - i
  {
    if i < k {
      NextSlashIs(s, i + 1, k);
    }
  }

  lemma {:induction false} ElementsUnfold(s: Bytes, i: nat, k: nat)
    requires i <= k <= |s| && (k == |s| || s[k] == SLASH) && forall j :: i <= j < k ==> s[j] != SLASH
    ensures Elements(s, i) == [s[i..k]] + if k == |s| then [] else Elements(s, k + 1)
  {
    NextSlashIs(s, i, k);
  }

  /** A slash and an element at the end of a text are one more element. */
  lemma {:induction false} ElementsSnoc(s: Bytes, e: Bytes, i: nat)
    requires i <= |s| && SLASH !in e
    ensures Elements(s + [SLASH] + e, i) == Elements(s, i) + [e]
    decreases |s| - i
  {
    hide Elements;
    var t := s + [SLASH] + e;
    var k := NextSlash(s, i);
    ElementsUnfold(s, i, k);
    ElementsUnfold(t, i, k);
    assert t[i..k] == s[i..k];
    if k < |s| {
      ElementsSnoc(s, e, k + 1);
    } else {
      ElementsUnfold(t, k + 1, |t|);
      assert t[k + 1..|t|] == e;
    }
  }

  lemma {:induction false} OneElement(s: Bytes, i: nat)
    requires i <= |s| && SLASH !in s[i..]
    ensures Elements(s, i) == [s[i..]]
  {
    forall j | i <= j < |s| ensures s[j] != SLASH {
      assert s[j] == s[i..][j - i];
    }
    NextSlashIs(s, i, |s|);
    assert s[i..|s|] == s[i..];
  }

  lemma {:induction false} RenderSnoc(rooted: bool, stack: seq<Bytes>, e: Bytes)
    ensures Render(rooted, stack + [e])
         == if |stack| == 0 then Render(rooted, []) + e else Render(rooted, stack) + [SLASH] + e
  {
    var all := stack + [e];
    assert all[..|all| - 1] == stack;
  }

  lemma {:induction false} ElementsOfOne(rooted: bool, e: Bytes)
    requires SLASH !in e
    ensures Elements(Render(rooted, [e]), if rooted then 1 else 0) == [e]
  {
    var start := if rooted then 1 else 0;
    var r := Render(rooted, [e]);
    assert r[start..] == e;
    OneElement(r, start);
  }

  lemma {:induction false} ElementsOfRender(rooted: bool, es: seq<Bytes>)
    requires |es| > 0 && forall e :: e in es ==> SLASH !in e
    ensures Elements(Render(rooted, es), if rooted then 1 else 0) == es
  {
    hide Elements, Join;
    var start := if rooted then 1 else 0;
    assert es[|es| - 1] in es;
    if |es| == 1 {
      assert es == [es[0]];
      ElementsOfOne(rooted, es[0]);
    } else {
      var init, e := es[..|es| - 1], es[|es| - 1];
      forall f | f in init ensures SLASH !in f {
        assert f in es;
      }
      ElementsOfRender(rooted, init);
      assert es == init + [e];
      RenderSnoc(rooted, init, e);
      ElementsSnoc(Render(rooted, init), e, start);
    }
  }

  lemma {:induction false} RenderStart(rooted: bool, stack: seq<Bytes>, d: nat)
    requires Normal(rooted, stack, d) && |stack| > 0
    ensures |Render(rooted, stack)| > 0 && IsRooted(Render(rooted, stack)) == rooted
    decreases |stack|
  {
    if |stack| > 1 {
      RenderStart(rooted, stack[..|stack| - 1], if d == |stack| then d - 1 else d);
    }
  }

  lemma {:induction false} KeptNormal(s: Bytes) returns (d: nat)
    ensures Normal(IsRooted(s), Kept(s), d)
  {
    var start := if IsRooted(s) then 1 else 0;
    ElementsHaveNoSlash(s, start);
    d := FoldNormal(IsRooted(s), [], 0, Elements(s, start));
  }

  /** Cleaning a clean path changes nothing. */
  lemma {:induction false} CleanIsIdempotent(s: Bytes)
    ensures Clean(Clean(s)) == Clean(s)
  {
    var d := KeptNormal(s);
    var rooted, kept := IsRooted(s), Kept(s);
    var r := Clean(s);
    if |kept| > 0 {
      RenderStart(rooted, kept, d);
      ElementsOfRender(rooted, kept);
      assert kept[..0] == [] && kept[0..] == kept;
      FoldKeepsNormal(rooted, kept, d, 0);
    } else if rooted {
      assert r == [SLASH];
      OneElement(r, 1);
      assert Fold(true, [], [[]]) == [];
    } else {
      assert r == DOT_ELEMENT;
      OneElement(r, 0);
      assert r[0..] == r;
      assert Fold(false, [], [DOT_ELEMENT]) == [];
    }
  }

  /** What a clean path looks like: `.`, or elements joined by single slashes, `..` only in front
      and only if the path is not rooted. */
  lemma {:induction false} CleanIsNormal(s: Bytes) returns (stack: seq<Bytes>, d: nat)
    ensures Normal(IsRooted(s), stack, d)
    ensures Clean(s) == if IsRooted(s) || |stack| > 0 then Render(IsRooted(s), stack) else DOT_ELEMENT
  {
    d := KeptNormal(s);
    stack := Kept(s);
    if |stack| > 0 {
      RenderStart(IsRooted(s), stack, d);
    }
  }

  /** The elements after the slash at k. */
  function ElementsAfter(s: Bytes, k: nat): seq<Bytes>
    requires k <= |s|
  {
    if k == |s| then [] else Elements(s, k + 1)
  }

  lemma {:induction false} ElementsFrom(s: Bytes, i: nat, k: nat)
    requires i <= k <= |s| && k == NextSlash(s, i)
    ensures Elements(s, i) == [s[i..k]] + ElementsAfter(s, k)
  {
    hide NextSlash;
  }

  // Where a path leads

  /** A directory, by the names from the root down to it. */
  type Directory = seq<Bytes>

  /** An empty element and `.` stay, `..` goes to the parent, which the root is of itself. */
  function Go(dir: Directory, e: Bytes): Directory {
    if e == [] || e == [0x2E] then dir
    else if e == [0x2E, 0x2E] then if |dir| == 0 then [] else dir[..|dir| - 1]
    else dir + [e]
  }

  /** Byte by byte, with the name that is under way. */
  function Walk(dir: Directory, name: Bytes, s: Bytes): Directory
    decreases |s|
  {
    if |s| == 0 then Go(dir, name)
    else if s[0] == 0x2F then Walk(Go(dir, name), [], s[1..])
    else Walk(dir, name + [s[0]], s[1..])
  }

  function Leads(base: Directory, s: Bytes): Directory {
    Walk(if |s| > 0 && s[0] == 0x2F then [] else base, [], s)
  }

  function GoAll(dir: Directory, es: seq<Bytes>): Directory {
    if |es| == 0 then dir else Go(GoAll(dir, es[..|es| - 1]), es[|es| - 1])
  }

  lemma {:induction false} GoAllJoins(dir: Directory, es: seq<Bytes>, more: seq<Bytes>)
    ensures GoAll(dir, es + more) == GoAll(GoAll(dir, es), more)
    decreases |more|
  {
    hide Go;
    if |more| == 0 {
      assert es + more == es;
    } else {
      var n := |more| - 1;
      GoAllJoins(dir, es, more[..n]);
      assert (es + more)[..|es| + n] == es + more[..n];
    }
  }

  lemma {:induction false} GoOne(dir: Directory, e: Bytes)
    ensures GoAll(dir, [e]) == Go(dir, e)
  {
    assert GoAll(dir, [e][..0]) == dir;
  }

  lemma {:induction false} WalkName(dir: Directory, name: Bytes, s: Bytes, i: nat, k: nat)
    requires i <= k <= |s| && forall j :: i <= j < k ==> s[j] != SLASH
    ensures Walk(dir, name, s[i..]) == Walk(dir, name + s[i..k], s[k..])
    decreases k - i
  {
    if i == k {
      assert name + s[i..k] == name;
    } else {
      assert s[i..][0] == s[i] && s[i..][1..] == s[i + 1..];
      WalkName(dir, name + [s[i]], s, i + 1, k);
      assert name + [s[i]] + s[i + 1..k] == name + s[i..k];
    }
  }

  lemma {:induction false} WalkSlash(dir: Directory, name: Bytes, s: Bytes, k: nat)
    requires k <= |s| && (k == |s| || s[k] == SLASH)
    ensures Walk(dir, name, s[k..]) == if k == |s| then Go(dir, name) else Walk(Go(dir, name), [], s[k + 1..])
  {
    if k < |s| {
      assert s[k..][0] == SLASH && s[k..][1..] == s[k + 1..];
    }
  }

  lemma {:induction false} WalkElement(dir: Directory, s: Bytes, i: nat, k: nat)
    requires i <= k <= |s| && k == NextSlash(s, i)
    ensures var next := Go(dir, s[i..k]);
            Walk(dir, [], s[i..]) == if k == |s| then next else Walk(next, [], s[k + 1..])
  {
    hide Go, Walk;
    WalkName(dir, [], s, i, k);
    assert [] + s[i..k] == s[i..k];
    WalkSlash(dir, s[i..k], s, k);
  }

  lemma {:induction false} GoFirst(dir: Directory, e: Bytes, es: seq<Bytes>)
    ensures GoAll(dir, [e] + es) == GoAll(Go(dir, e), es)
  {
    hide Go;
    GoOne(dir, e);
    GoAllJoins(dir, [e], es);
  }

  /** Walking a text is going through its elements. */
  lemma {:induction false} WalkElements(dir: Directory, s: Bytes, i: nat)
    requires i <= |s|
    ensures Walk(dir, [], s[i..]) == GoAll(dir, Elements(s, i))
    decreases |s| - i
  {
    hide Go, Walk, NextSlash, Elements;
    var k := NextSlash(s, i);
    WalkElement(dir, s, i, k);
    ElementsFrom(s, i, k);
    GoFirst(dir, s[i..k], ElementsAfter(s, k));
    if k < |s| {
      WalkElements(Go(dir, s[i..k]), s, k + 1);
    } else {
      NoneLeft(Go(dir, s[i..k]), s);
    }
  }

  lemma {:induction false} NoneLeft(dir: Directory, s: Bytes)
    ensures GoAll(dir, ElementsAfter(s, |s|)) == dir
  {
  }

  lemma {:induction false} PushGoes(rooted: bool, dir: Directory, stack: seq<Bytes>, d: nat, e: Bytes)
    requires Normal(rooted, stack, d) && (rooted ==> dir == [])
    ensures GoAll(dir, Push(rooted, stack, e)) == Go(GoAll(dir, stack), e)
  {
    var n := |stack|;
    if e == DOT_DOT && n > 0 && stack[n - 1] != DOT_DOT {
      assert IsName(stack[n - 1]);
      var before := GoAll(dir, stack[..n - 1]);
      assert GoAll(dir, stack) == before + [stack[n - 1]];
    } else if e == DOT_DOT && rooted {
      assert stack == [];
    } else {
      assert (stack + [e])[..n] == stack;
    }
  }

  lemma {:induction false} FoldGoes(rooted: bool, dir: Directory, stack: seq<Bytes>, d: nat, es: seq<Bytes>)
    requires Normal(rooted, stack, d) && (rooted ==> dir == []) && forall e :: e in es ==> SLASH !in e
    ensures GoAll(dir, Fold(rooted, stack, es)) == GoAll(GoAll(dir, stack), es)
    decreases es
  {
    hide Go, Push;
    if |es| > 0 {
      assert es[0] in es && es == [es[0]] + es[1..];
      var d' := PushNormal(rooted, stack, d, es[0]);
      PushGoes(rooted, dir, stack, d, es[0]);
      FoldGoes(rooted, dir, Push(rooted, stack, es[0]), d', es[1..]);
      GoAllJoins(GoAll(dir, stack), [es[0]], es[1..]);
      GoOne(GoAll(dir, stack), es[0]);
    }
  }

  /** The elements of a clean path are those kept, or one that stays. */
  lemma {:induction false} CleanElements(s: Bytes, dir: Directory)
    ensures IsRooted(Clean(s)) == IsRooted(s)
    ensures var start := if IsRooted(s) then 1 else 0;
            start <= |Clean(s)| && GoAll(dir, Elements(Clean(s), start)) == GoAll(dir, Kept(s))
  {
    var rooted, kept, r := IsRooted(s), Kept(s), Clean(s);
    var d := KeptNormal(s);
    if |kept| > 0 {
      RenderStart(rooted, kept, d);
      ElementsOfRender(rooted, kept);
    } else if rooted {
      assert r == [SLASH];
      OneElement(r, 1);
      GoOne(dir, []);
    } else {
      OneElement(r, 0);
      assert r[0..] == DOT_ELEMENT;
      GoOne(dir, DOT_ELEMENT);
    }
  }

  lemma {:induction false} LeadsIs(base: Directory, s: Bytes)
    ensures var start := if IsRooted(s) then 1 else 0;
            Leads(base, s) == GoAll(if IsRooted(s) then [] else base, Elements(s, start))
  {
    if IsRooted(s) {
      WalkElements([], s, 1);
    } else {
      WalkElements(base, s, 0);
      assert s[0..] == s;
    }
  }

  /** Cleaning changes no path's meaning: from every directory a path and the clean path lead to the same place. */
  lemma {:induction false} CleanLeadsToTheSame(base: Directory, s: Bytes)
    ensures Leads(base, Clean(s)) == Leads(base, s)
  {
    hide Clean, Leads, Kept, Go, Elements;
    var rooted, start := IsRooted(s), if IsRooted(s) then 1 else 0;
    var dir := if rooted then [] else base;
    LeadsIs(base, s);
    LeadsIs(base, Clean(s));
    CleanElements(s, dir);
    ElementsHaveNoSlash(s, start);
    KeptIsFold(s);
    FoldGoes(rooted, dir, [], 0, Elements(s, start));
  }

  lemma {:induction false} KeptIsFold(s: Bytes)
    ensures Kept(s) == Fold(IsRooted(s), [], Elements(s, if IsRooted(s) then 1 else 0))
  {
  }

  // The loop

  lemma {:induction false} FoldCons(rooted: bool, stack: seq<Bytes>, e: Bytes, es: seq<Bytes>)
    ensures Fold(rooted, stack, [e] + es) == Fold(rooted, Push(rooted, stack, e), es)
  {
    assert ([e] + es)[1..] == es;
  }

  lemma {:induction false} PushNothing(rooted: bool, stack: seq<Bytes>)
    ensures Push(rooted, stack, []) == stack
  {
  }

  /** Reading the element from i to k folds it; what is left starts at the slash or the end. */
  lemma {:induction false} ReadElement(rooted: bool, stack: seq<Bytes>, s: Bytes, i: nat, k: nat)
    requires i <= k <= |s| && k == NextSlash(s, i)
    ensures Fold(rooted, stack, Elements(s, i)) == Fold(rooted, Push(rooted, stack, s[i..k]), Elements(s, k))
  {
    NextSlashIs(s, k, k);
    hide NextSlash, Fold, Push, Elements, ElementsAfter;
    ElementsFrom(s, i, k);
    ElementsFrom(s, k, k);
    assert s[k..k] == [];
    var stack' := Push(rooted, stack, s[i..k]);
    PushNothing(rooted, stack');
    FoldCons(rooted, stack, s[i..k], ElementsAfter(s, k));
    FoldCons(rooted, stack', [], ElementsAfter(s, k));
  }

  lemma {:induction false} ReadSlash(rooted: bool, stack: seq<Bytes>, s: Bytes, i: nat)
    requires i < |s| && s[i] == SLASH
    ensures Fold(rooted, stack, Elements(s, i)) == Fold(rooted, stack, Elements(s, i + 1))
  {
    assert s[i..i] == [];
    FoldCons(rooted, stack, [], Elements(s, i + 1));
  }

  lemma {:induction false} ReadDot(rooted: bool, stack: seq<Bytes>, s: Bytes, i: nat)
    requires i < |s| && s[i] == DOT && (i + 1 == |s| || s[i + 1] == SLASH)
    ensures Fold(rooted, stack, Elements(s, i)) == Fold(rooted, stack, Elements(s, i + 1))
  {
    hide Fold, Elements;
    NextSlashIs(s, i, i + 1);
    assert s[i..i + 1] == DOT_ELEMENT;
    ReadElement(rooted, stack, s, i, i + 1);
  }

  lemma {:induction false} ReadDotDot(rooted: bool, stack: seq<Bytes>, d: nat, s: Bytes, i: nat)
    requires Normal(rooted, stack, d) && i + 2 <= |s| && s[i] == s[i + 1] == DOT
    requires i + 2 == |s| || s[i + 2] == SLASH
    ensures var stack' := if |stack| > d then stack[..|stack| - 1] else if rooted then stack else stack + [DOT_DOT];
            && Fold(rooted, stack, Elements(s, i)) == Fold(rooted, stack', Elements(s, i + 2))
            && Normal(rooted, stack', if |stack| > d || rooted then d else d + 1)
  {
    hide Fold, Elements;
    NextSlashIs(s, i, i + 2);
    assert s[i..i + 2] == DOT_DOT;
    ReadElement(rooted, stack, s, i, i + 2);
  }

  lemma {:induction false} ReadName(rooted: bool, stack: seq<Bytes>, d: nat, s: Bytes, i: nat, k: nat)
    requires Normal(rooted, stack, d) && i < |s| && s[i] != SLASH && k == NextSlash(s, i)
    requires !(s[i] == DOT && (i + 1 == |s| || s[i + 1] == SLASH))
    requires !(s[i] == DOT && i + 1 < |s| && s[i + 1] == DOT && (i + 2 == |s| || s[i + 2] == SLASH))
    ensures Fold(rooted, stack, Elements(s, i)) == Fold(rooted, stack + [s[i..k]], Elements(s, k))
    ensures Normal(rooted, stack + [s[i..k]], d)
  {
    hide Fold, Elements;
    var e := s[i..k];
    assert e[0] == s[i];
    assert |e| >= 2 ==> e[1] == s[i + 1];
    ReadElement(rooted, stack, s, i, k);
  }

  /** In a text that ends with a name, the name's start is the last slash. */
  lemma {:induction false} NameAtEnd(head: Bytes, e: Bytes, q: nat)
    requires SLASH !in e && |e| > 0 && q <= |head|
    requires |head| == q || (|head| == q + 1 && head[q] == SLASH)
    ensures var r := head + e;
            q < |r| && r[..q] == head[..q] && (|head| > q ==> r[q] == SLASH)
                && forall j :: q < j < |r| ==> r[j] != SLASH
  {
    var r := head + e;
    forall j | q < j < |r| ensures r[j] != SLASH {
      assert r[j] == e[j - |head|];
    }
  }

  /** Backtracking over the last name ends at the text without it. */
  lemma {:induction false} PopText(rooted: bool, stack: seq<Bytes>, d: nat, r: Bytes, dotdot: nat)
    requires Normal(rooted, stack, d) && d < |stack| && r == Render(rooted, stack)
    requires dotdot == |Render(rooted, stack[..d])|
    ensures var q := |Render(rooted, stack[..|stack| - 1])|;
            && dotdot <= q < |r| && r[..q] == Render(rooted, stack[..|stack| - 1])
            && (q > dotdot ==> r[q] == SLASH) && forall j :: q < j < |r| ==> r[j] != SLASH
  {
    var n := |stack| - 1;
    var init, e := stack[..n], stack[n];
    assert stack == init + [e] && IsName(e);
    RenderSnoc(rooted, init, e);
    RenderGrows(rooted, stack, d, n);
    hide Render, Normal;
    var text := Render(rooted, init);
    if n == 0 {
      assert init == [] && stack[..d] == [];
      NameAtEnd(text, e, |text|);
    } else {
      NameAtEnd(text + [SLASH], e, |text|);
      assert (text + [SLASH])[..|text|] == text;
    }
  }

  lemma {:induction false} RenderGrows(rooted: bool, stack: seq<Bytes>, d: nat, n: nat)
    requires d <= n <= |stack|
    ensures |Render(rooted, stack[..d])| <= |Render(rooted, stack[..n])|
    decreases n - d
  {
    if d < n {
      RenderGrows(rooted, stack, d, n - 1);
      assert stack[..n] == stack[..n - 1] + [stack[n - 1]];
      RenderSnoc(rooted, stack[..n - 1], stack[n - 1]);
      assert n == 1 ==> stack[..0] == [];
    }
  }

  /** The text is as long as the stop index exactly when nothing may be popped. */
  lemma {:induction false} StopIndex(rooted: bool, stack: seq<Bytes>, d: nat)
    requires Normal(rooted, stack, d)
    ensures |Render(rooted, stack)| > |Render(rooted, stack[..d])| <==> |stack| > d
    ensures |Render(rooted, stack)| >= (if rooted then 1 else 0)
    ensures |Render(rooted, stack)| == (if rooted then 1 else 0) <==> |stack| == 0
  {
    var n := |stack|;
    assert stack[..n] == stack;
    if n > 0 {
      RenderGrows(rooted, stack, d, n);
      RenderGrows(rooted, stack, 0, n - 1);
      assert stack == stack[..n - 1] + [stack[n - 1]];
      RenderSnoc(rooted, stack[..n - 1], stack[n - 1]);
      assert n == 1 ==> stack[..0] == [];
      assert stack[..0] == [];
      if d < n { RenderGrows(rooted, stack, d, n - 1); }
    }
  }

  /** Moves the write index back over the last name. */
  method Backtrack(r: array<Byte>, p0: nat, dotdot: nat, rooted: bool, ghost stack: seq<Bytes>, ghost d: nat)
    returns (p: nat)
    requires Normal(rooted, stack, d) && d < |stack| && p0 <= r.Length && r[..p0] == Render(rooted, stack)
    requires dotdot == |Render(rooted, stack[..d])|
    ensures p < p0 && r[..p] == Render(rooted, stack[..|stack| - 1])
  {
    PopText(rooted, stack, d, r[..p0], dotdot);
    ghost var q := |Render(rooted, stack[..|stack| - 1])|;
    p := p0 - 1;
    while p > dotdot && r[p] != SLASH
      invariant q <= p < p0
    {
      assert r[..p0][p] == r[p];
      p := p - 1;
    }
    assert r[..p0][p] == r[p];
    assert r[..p0][..q] == r[..q];
  }

  /** What stands before an element that is added. */
  function Before(rooted: bool, stack: seq<Bytes>): Bytes {
    if |stack| == 0 then Render(rooted, []) else Render(rooted, stack) + [SLASH]
  }

  lemma {:induction false} RenderAdded(rooted: bool, stack: seq<Bytes>, e: Bytes)
    ensures Render(rooted, stack + [e]) == Before(rooted, stack) + e
  {
    hide Render;
    RenderSnoc(rooted, stack, e);
  }

  /** Writes the slash before an element, unless it is the first. */
  method WriteSlash(r: array<Byte>, p0: nat, rooted: bool, ghost stack: seq<Bytes>) returns (p: nat)
    requires p0 <= r.Length && r[..p0] == Render(rooted, stack) && (|stack| > 0 ==> p0 < r.Length)
    requires p0 == (if rooted then 1 else 0) <==> |stack| == 0
    modifies r
    ensures p == (if |stack| > 0 then p0 + 1 else p0) <= r.Length && r[..p] == Before(rooted, stack)
  {
    hide Render;
    p := p0;
    assert |stack| == 0 ==> stack == [];
    if (rooted && p != 1) || (!rooted && p != 0) {
      ghost var text := r[..p];
      r[p] := SLASH;
      p := p + 1;
      assert r[..p] == text + [SLASH];
    }
  }

  /** Copies the name at i to the write index, which stays behind. */
  method CopyName(s: Bytes, r: array<Byte>, i0: nat, p0: nat) returns (i: nat, p: nat)
    requires i0 <= |s| == r.Length && p0 <= i0
    modifies r
    ensures i == NextSlash(s, i0) && p - p0 == i - i0 && p <= i && r[..p] == old(r[..p0]) + s[i0..i]
  {
    i, p := i0, p0;
    ghost var base := r[..p0];
    while i < |s| && s[i] != SLASH
      invariant i0 <= i <= |s| && NextSlash(s, i) == NextSlash(s, i0)
      invariant p - p0 == i - i0 && r[..p] == base + s[i0..i]
    {
      r[p] := s[i];
      Longer(base, s, i0, i, r[..p], r[..p + 1]);
      p := p + 1;
      i := i + 1;
    }
  }

  lemma {:induction false} Longer(base: Bytes, s: Bytes, i0: nat, i: nat, text: Bytes, more: Bytes)
    requires i0 <= i < |s| && text == base + s[i0..i] && |more| == |text| + 1
    requires more[..|text|] == text && more[|text|] == s[i]
    ensures more == base + s[i0..i + 1]
  {
    assert s[i0..i + 1] == s[i0..i] + [s[i]];
    Regroup(base, s[i0..i], [s[i]]);
    assert more == text + [s[i]];
  }

  /** Copies the element at i behind the write index, with a slash before it unless it is the first; the
      write index does not pass the read index. */
  method CopyElement(s: Bytes, r: array<Byte>, i0: nat, p0: nat, rooted: bool, ghost stack: seq<Bytes>)
    returns (i: nat, p: nat)
    requires i0 < |s| == r.Length && p0 <= i0 && (|stack| > 0 ==> p0 < i0) && s[i0] != SLASH
    requires r[..p0] == Render(rooted, stack) && (p0 == (if rooted then 1 else 0) <==> |stack| == 0)
    modifies r
    ensures i == NextSlash(s, i0) && p <= i && r[..p] == Render(rooted, stack + [s[i0..i]])
  {
    hide *;
    p := WriteSlash(r, p0, rooted, stack);
    i, p := CopyName(s, r, i0, p);
    RenderAdded(rooted, stack, s[i0..i]);
  }

  /** Appends `..` where nothing can be taken back. */
  method AppendDotDot(r: array<Byte>, p0: nat, ghost stack: seq<Bytes>) returns (p: nat)
    requires p0 + (if p0 > 0 then 3 else 2) <= r.Length
    requires r[..p0] == Render(false, stack) && (p0 == 0 <==> |stack| == 0)
    modifies r
    ensures p == p0 + (if p0 > 0 then 3 else 2) && r[..p] == Render(false, stack + [DOT_DOT])
  {
    hide Render, Before;
    p := WriteSlash(r, p0, false, stack);
    ghost var base := r[..p];
    r[p] := DOT;
    r[p + 1] := DOT;
    assert r[..p + 2] == base + DOT_DOT;
    p := p + 2;
    RenderAdded(false, stack, DOT_DOT);
  }

  /** The loop has read i bytes and written a text: the text shows the elements kept so far, folding
      the rest onto them gives what the specification keeps, and writing is not ahead of reading. */
  ghost predicate Reading(s: Bytes, i: nat, text: Bytes, dotdot: nat, stack: seq<Bytes>, d: nat) {
    && |text| <= i <= |s| && (|stack| > 0 && i < |s| && s[i] != SLASH ==> |text| < i)
    && Normal(IsRooted(s), stack, d) && text == Render(IsRooted(s), stack)
    && dotdot == |Render(IsRooted(s), stack[..d])|
    && Fold(IsRooted(s), stack, Elements(s, i)) == Kept(s)
  }

  lemma {:induction false} Start(s: Bytes)
    requires |s| > 0
    ensures var p := if s[0] == SLASH then 1 else 0; Reading(s, p, s[..p], p, [], 0)
  {
  }

  lemma {:induction false} ReadNothing(s: Bytes, i: nat, text: Bytes, dotdot: nat, stack: seq<Bytes>, d: nat)
    requires Reading(s, i, text, dotdot, stack, d) && i < |s|
    requires s[i] == SLASH || (s[i] == DOT && (i + 1 == |s| || s[i + 1] == SLASH))
    ensures Reading(s, i + 1, text, dotdot, stack, d)
  {
    hide Fold, Elements, Render, Normal, Kept;
    if s[i] == SLASH {
      ReadSlash(IsRooted(s), stack, s, i);
    } else {
      ReadDot(IsRooted(s), stack, s, i);
    }
  }

  lemma {:induction false} Finish(s: Bytes, text: Bytes, dotdot: nat, stack: seq<Bytes>, d: nat)
    requires Reading(s, |s|, text, dotdot, stack, d)
    ensures Clean(s) == if |text| == 0 then [DOT] else text
  {
    var es: seq<Bytes> := [[]];
    assert Elements(s, |s|) == es;
    assert es[1..] == [] && Push(IsRooted(s), stack, []) == stack;
    assert Fold(IsRooted(s), stack, es) == Fold(IsRooted(s), stack, es[1..]);
  }

  /** `..`: takes back a name, or is kept where there is none and the path is not rooted. */
  method DotDotElement(s: Bytes, r: array<Byte>, i: nat, p0: nat, dotdot0: nat, rooted: bool,
                       ghost stack: seq<Bytes>, ghost d: nat)
    returns (p: nat, dotdot: nat, ghost stack': seq<Bytes>, ghost d': nat)
    requires i + 2 <= |s| == r.Length && p0 <= r.Length && rooted == IsRooted(s)
    requires Reading(s, i, r[..p0], dotdot0, stack, d)
    requires s[i] == s[i + 1] == DOT && (i + 2 == |s| || s[i + 2] == SLASH)
    modifies r
    ensures p <= r.Length && Reading(s, i + 2, r[..p], dotdot, stack', d')
  {
    hide Fold, Elements, Render, Normal, Kept, IsRooted;
    p, dotdot, stack', d' := p0, dotdot0, stack, d;
    StopIndex(rooted, stack, d);
    ReadDotDot(rooted, stack, d, s, i);
    NormalSize(rooted, stack, d);
    if p > dotdot {
      p := Backtrack(r, p, dotdot, rooted, stack, d);
      stack' := stack[..|stack| - 1];
      assert stack'[..d] == stack[..d];
    } else if !rooted {
      p := AppendDotDot(r, p, stack);
      stack', d' := stack + [DOT_DOT], d + 1;
      assert stack'[..d'] == stack';
      dotdot := p;
    }
  }

  lemma {:induction false} NormalSize(rooted: bool, stack: seq<Bytes>, d: nat)
    requires Normal(rooted, stack, d)
    ensures d <= |stack|
  {
  }

  /** A name: a slash before it unless it is the first, then the name itself. */
  method NameElement(s: Bytes, r: array<Byte>, i0: nat, p0: nat, dotdot: nat, rooted: bool,
                     ghost stack: seq<Bytes>, ghost d: nat)
    returns (i: nat, p: nat, ghost stack': seq<Bytes>)
    requires i0 < |s| == r.Length && p0 <= r.Length && rooted == IsRooted(s)
    requires Reading(s, i0, r[..p0], dotdot, stack, d) && s[i0] != SLASH
    requires !(s[i0] == DOT && (i0 + 1 == |s| || s[i0 + 1] == SLASH))
    requires !(s[i0] == DOT && i0 + 1 < |s| && s[i0 + 1] == DOT && (i0 + 2 == |s| || s[i0 + 2] == SLASH))
    modifies r
    ensures i0 < i <= |s| && p <= r.Length && Reading(s, i, r[..p], dotdot, stack', d)
  {
    hide Fold, Elements, Render, Normal, Kept, IsRooted;
    StopIndex(rooted, stack, d);
    NormalSize(rooted, stack, d);
    i, p := CopyElement(s, r, i0, p0, rooted, stack);
    ReadName(rooted, stack, d, s, i0, i);
    stack' := stack + [s[i0..i]];
    assert stack'[..d] == stack[..d];
  }

  /** `path::clean`: it works in a copy of its input, writing never ahead of where it reads. */
  method CleanPath(s: Bytes) returns (out: Bytes)
    ensures out == Clean(s)
  {
    if |s| == 0 {
      Finish(s, [], 0, [], 0);
      return [DOT];
    }
    var n := |s|;
    var r := new Byte[n](k requires 0 <= k < n => s[k]);
    assert r[..] == s;
    var rooted := s[0] == SLASH;
    var p: nat := if rooted then 1 else 0;
    var dotdot := p;
    var i := p;
    ghost var stack: seq<Bytes>, d := [], 0;
    Start(s);
    assert r[..p] == s[..p];
    assert rooted == IsRooted(s);
    hide *;
    while i < n
      invariant i <= n == r.Length && p <= r.Length
      invariant Reading(s, i, r[..p], dotdot, stack, d)
      decreases n - i
    {
      if s[i] == SLASH || (s[i] == DOT && (i + 1 == n || s[i + 1] == SLASH)) {
        ReadNothing(s, i, r[..p], dotdot, stack, d);
        i := i + 1;
      } else if s[i] == DOT && s[i + 1] == DOT && (i + 2 == n || s[i + 2] == SLASH) {
        p, dotdot, stack, d := DotDotElement(s, r, i, p, dotdot, rooted, stack, d);
        i := i + 2;
      } else {
        i, p, stack := NameElement(s, r, i, p, dotdot, rooted, stack, d);
      }
    }
    Finish(s, r[..p], dotdot, stack, d);
    out := if p == 0 then [DOT] else r[..p];
  }
}
