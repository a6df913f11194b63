/** The cursor loops over white space and comments skip exactly the gaps of the grammar. */
module JsonGapProofs {
  import opened Options
  import opened ByteText
  import opened JsonGrammar
  import opened JsonReader

  lemma {:induction false} GapTextCons(g: GapItem, rest: Gap)
    ensures GapText([g] + rest) == GapItemText(g) + GapText(rest)
  {
    assert ([g] + rest)[1..] == rest;
  }

  lemma {:induction false} GapTextAppend(a: Gap, b: Gap)
    ensures GapText(a + b) == GapText(a) + GapText(b)
  {
    if |a| == 0 {
      assert a + b == b;
    } else {
      var g, rest := GapItemText(a[0]), a[1..];
      calc {
        GapText(a + b);
        { assert a + b == [a[0]] + (rest + b); GapTextCons(a[0], rest + b); }
        g + GapText(rest + b);
        { GapTextAppend(rest, b); }
        g + (GapText(rest) + GapText(b));
        { Regroup(g, GapText(rest), GapText(b)); }
        GapText(a) + GapText(b);
      }
    }
  }

  lemma {:induction false} LineEndIs(s: Bytes, i: nat, j: nat)
    requires i <= j <= |s| && (forall k :: i <= k < j ==> s[k] != NEWLINE)
    requires j == |s| || s[j] == NEWLINE
    ensures LineEnd(s, i) == j
    decreases j - i
  {
    if i < j { LineEndIs(s, i + 1, j); }
  }

  lemma {:induction false} LineEndStops(s: Bytes, i: nat)
    requires i <= |s|
    ensures var j := LineEnd(s, i);
            (forall k :: i <= k < j ==> s[k] != NEWLINE) && (j == |s| || s[j] == NEWLINE)
    decreases |s| - i
  {
    if i < |s| && s[i] != NEWLINE { LineEndStops(s, i + 1); }
  }

  ghost predicate Closes(s: Bytes, k: int) {
    0 <= k && k + 2 <= |s| && s[k] == STAR && s[k + 1] == SLASH
  }

  lemma {:induction false} BlockEndIs(s: Bytes, i: nat, j: nat)
    requires i <= j && Closes(s, j) && forall k :: i <= k < j ==> !Closes(s, k)
    ensures BlockEnd(s, i) == Some(j + 2)
    decreases j - i
  {
    if i < j {
      assert !Closes(s, i);
      BlockEndIs(s, i + 1, j);
    }
  }

  lemma {:induction false} BlockEndStops(s: Bytes, i: nat)
    requires BlockEnd(s, i).Some?
    ensures var j := BlockEnd(s, i).value - 2;
            i <= j && Closes(s, j) && forall k :: i <= k < j ==> !Closes(s, k)
    decreases |s| - i
  {
    if !Closes(s, i) { BlockEndStops(s, i + 1); }
  }

  /** Between i and j no closing mark starts exactly when the text between holds none. */
  lemma {:induction false} NoCloseInside(s: Bytes, i: nat, j: nat)
    requires i <= j && Closes(s, j)
    ensures HasBlockEnd(s[i..j]) <==> exists k :: i <= k < j && Closes(s, k)
  {
    var body := s[i..j];
    forall k | i <= k < j && Closes(s, k) ensures HasBlockEnd(body) {
      assert body[k - i] == STAR && body[k - i + 1] == SLASH;
    }
    if HasBlockEnd(body) {
      var k :| 0 <= k < |body| - 1 && body[k] == STAR && body[k + 1] == SLASH;
      assert Closes(s, k + i);
    }
  }

  /** At j the skipping loops stop. */
  predicate Settled(st: Strategy, s: Bytes, j: nat)
    requires j <= |s|
  {
    !IsWhite(At(s, j)) && (st.COMMENTS? ==> At(s, j) != SLASH)
  }

  lemma {:induction false} SkipWhiteByte(st: Strategy, s: Bytes, i: nat)
    requires i < |s| && IsWhite(s[i])
    ensures SkipGap(st, s, i) == SkipGap(st, s, i + 1)
  {
  }

  lemma {:induction false} SkipOneComment(s: Bytes, i: nat)
    requires i < |s| && s[i] == SLASH && SkipComment(s, i).Done?
    ensures SkipGap(COMMENTS, s, i) == SkipGap(COMMENTS, s, SkipComment(s, i).next)
  {
    assert SkipWhite(s, i) == i;
  }

  lemma {:induction false} SkipSettled(st: Strategy, s: Bytes, j: nat)
    requires j <= |s| && Settled(st, s, j)
    ensures Reaches(SkipGap(st, s, j), j)
  {
    assert SkipWhite(s, j) == j;
  }

  lemma {:induction false} SkipItem(st: Strategy, s: Bytes, i: nat, k: nat, g: GapItem)
    requires ValidGapItem(st, g) && Span(s, i, k, GapItemText(g))
    ensures SkipGap(st, s, i) == SkipGap(st, s, k)
  {
    hide SkipGap, SkipComment;
    match g
    case White(b) =>
      SpanByte(s, i, k, b, []);
      SkipWhiteByte(st, s, i);
    case Line(body) =>
      LineItemRead(s, i, k, body);
      SkipOneComment(s, i);
      SkipWhiteByte(st, s, k - 1);
    case Block(body) =>
      BlockItemRead(s, i, k, body);
      SkipOneComment(s, i);
  }

  lemma {:induction false} LineItemRead(s: Bytes, i: nat, k: nat, body: Bytes)
    requires NEWLINE !in body && Span(s, i, k, GapItemText(Line(body)))
    ensures i + 2 < k && s[i] == SLASH && SkipComment(s, i) == Done(true, k - 1) && s[k - 1] == NEWLINE
  {
    SpanSplit(s, i, k, [SLASH, SLASH] + body, [NEWLINE]);
    SpanSplit(s, i, k - 1, [SLASH, SLASH], body);
    assert s[i..i + 2][1] == SLASH && s[i..i + 2][0] == SLASH && s[k - 1..k][0] == NEWLINE;
    forall m | i + 2 <= m < k - 1 ensures s[m] != NEWLINE {
      assert s[m] == body[m - i - 2];
    }
    LineEndIs(s, i + 2, k - 1);
  }

  lemma {:induction false} BlockItemRead(s: Bytes, i: nat, k: nat, body: Bytes)
    requires !HasBlockEnd(body) && Span(s, i, k, GapItemText(Block(body)))
    ensures i + 2 < k && s[i] == SLASH && SkipComment(s, i) == Done(true, k)
  {
    hide HasBlockEnd;
    SpanSplit(s, i, k, [SLASH, STAR] + body, [STAR, SLASH]);
    SpanSplit(s, i, k - 2, [SLASH, STAR], body);
    assert s[i..i + 2][1] == STAR && s[i..i + 2][0] == SLASH;
    assert s[k - 2..k][0] == STAR && s[k - 2..k][1] == SLASH;
    NoCloseInside(s, i + 2, k - 2);
    BlockEndIs(s, i + 2, k - 2);
  }

  lemma {:induction false} TailIs(st: Strategy, tail: Bytes)
    requires EndsOpen(st, tail) && tail != []
    ensures st.COMMENTS? && [SLASH, SLASH] <= tail && NEWLINE !in tail
  {
  }

  lemma {:induction false} SkipTail(s: Bytes, i: nat, tail: Bytes)
    requires [SLASH, SLASH] <= tail && NEWLINE !in tail && Span(s, i, |s|, tail)
    ensures Reaches(SkipGap(COMMENTS, s, i), |s|)
  {
    assert s[i] == tail[0] && s[i + 1] == tail[1];
    forall k | i + 2 <= k < |s| ensures s[k] != NEWLINE {
      assert s[k] == tail[k - i];
    }
    LineEndIs(s, i + 2, |s|);
    SkipOneComment(s, i);
    SkipSettled(COMMENTS, s, |s|);
  }

  /** Completeness: whatever gap stands at i, the loops skip all of it. */
  lemma {:induction false} SkipGapComplete(st: Strategy, s: Bytes, i: nat, j: nat, gap: Gap, tail: Bytes)
    requires ValidGap(st, gap) && EndsOpen(st, tail) && Span(s, i, j, GapText(gap) + tail)
    requires if tail == [] then Settled(st, s, j) else j == |s|
    ensures Reaches(SkipGap(st, s, i), j)
    decreases |gap|
  {
    hide SkipGap, SkipComment, GapItemText, ValidGapItem, Settled, EndsOpen;
    if |gap| > 0 {
      var g := GapItemText(gap[0]);
      Regroup(g, GapText(gap[1..]), tail);
      SpanSplit(s, i, j, g, GapText(gap[1..]) + tail);
      SkipItem(st, s, i, i + |g|, gap[0]);
      assert ValidGap(st, gap[1..]);
      SkipGapComplete(st, s, i + |g|, j, gap[1..], tail);
    } else if tail == [] {
      assert GapText(gap) + tail == [];
      SkipSettled(st, s, j);
    } else {
      assert GapText(gap) + tail == tail;
      assert st.COMMENTS? && [SLASH, SLASH] <= tail && NEWLINE !in tail by { TailIs(st, tail); }
      SkipTail(s, i, tail);
    }
  }

  lemma {:induction false} PrependItem(st: Strategy, s: Bytes, i: nat, k: nat, j: nat, g: GapItem, rest: Gap,
                                       tail: Bytes)
    returns (gap: Gap)
    requires ValidGapItem(st, g) && ValidGap(st, rest)
    requires Span(s, i, k, GapItemText(g)) && Span(s, k, j, GapText(rest) + tail)
    ensures ValidGap(st, gap) && Span(s, i, j, GapText(gap) + tail)
  {
    gap := [g] + rest;
    SpanJoin(s, i, k, j, GapItemText(g), GapText(rest) + tail);
    GapTextCons(g, rest);
    Regroup(GapItemText(g), GapText(rest), tail);
  }

  lemma {:induction false} BlockIsItem(s: Bytes, i: nat, k: nat)
    requires i + 2 <= |s| && s[i] == SLASH && s[i + 1] == STAR && BlockEnd(s, i + 2) == Some(k)
    ensures ValidGapItem(COMMENTS, Block(s[i + 2..k - 2])) && Span(s, i, k, GapItemText(Block(s[i + 2..k - 2])))
  {
    BlockEndStops(s, i + 2);
    NoCloseInside(s, i + 2, k - 2);
    SpanTwo(s, i);
    SpanTwo(s, k - 2);
    SpanJoin(s, i, i + 2, k - 2, [SLASH, STAR], s[i + 2..k - 2]);
    SpanJoin(s, i, k - 2, k, [SLASH, STAR] + s[i + 2..k - 2], [STAR, SLASH]);
  }

  lemma {:induction false} LineIsItem(s: Bytes, i: nat, k: nat)
    requires i + 2 <= |s| && s[i] == s[i + 1] == SLASH && LineEnd(s, i + 2) == k
    ensures NEWLINE !in s[i + 2..k]
    ensures k < |s| ==> Span(s, i, k + 1, GapItemText(Line(s[i + 2..k])))
  {
    LineEndStops(s, i + 2);
    if k < |s| {
      SpanTwo(s, i);
      SpanJoin(s, i, i + 2, k, [SLASH, SLASH], s[i + 2..k]);
      SpanSnoc(s, i, k, [SLASH, SLASH] + s[i + 2..k]);
    }
  }

  lemma {:induction false} LastLineIsOpen(s: Bytes, i: nat)
    requires i + 2 <= |s| && s[i] == s[i + 1] == SLASH && LineEnd(s, i + 2) == |s|
    ensures EndsOpen(COMMENTS, s[i..])
  {
    LineEndStops(s, i + 2);
    var tail := s[i..];
    forall k | 0 <= k < |tail| ensures tail[k] != NEWLINE {
      assert tail[k] == s[i + k];
    }
    assert tail[..2] == [SLASH, SLASH];
  }

  lemma {:induction false} CommentIsRead(s: Bytes, i: nat, j: nat)
    requires i < |s| && s[i] == SLASH && Reaches(SkipGap(COMMENTS, s, i), j)
    ensures SkipComment(s, i).Done? && i + 2 <= |s|
    ensures var k := SkipComment(s, i).next;
            && k <= |s| && Reaches(SkipGap(COMMENTS, s, k), j)
            && if s[i + 1] == STAR then BlockEnd(s, i + 2) == Some(k)
               else s[i + 1] == SLASH && LineEnd(s, i + 2) == k
  {
    assert SkipWhite(s, i) == i;
    SkipOneComment(s, i);
  }

  /** What SkipGap passed over between i and j. */
  ghost predicate Passed(st: Strategy, s: Bytes, i: int, j: int, gap: Gap, tail: Bytes) {
    ValidGap(st, gap) && EndsOpen(st, tail) && Span(s, i, j, GapText(gap) + tail) && (tail != [] ==> j == |s|)
  }

  /** Soundness: what the loops skip is a gap, possibly followed by the line comment that ends the text. */
  lemma {:induction false} SkipGapSound(st: Strategy, s: Bytes, i: nat, j: nat) returns (gap: Gap, tail: Bytes)
    requires i <= |s| && Reaches(SkipGap(st, s, i), j)
    ensures Passed(st, s, i, j, gap, tail) && Settled(st, s, j)
    decreases |s| - i
  {
    if IsWhite(At(s, i)) {
      SkipWhiteByte(st, s, i);
      gap, tail := SkipGapSound(st, s, i + 1, j);
      assert s[i..i + 1] == GapItemText(White(s[i]));
      gap := PrependItem(st, s, i, i + 1, j, White(s[i]), gap, tail);
    } else if st.STANDARD? || At(s, i) != SLASH {
      SkipSettled(st, s, i);
      gap, tail := [], [];
    } else {
      gap, tail := SkipCommentSound(s, i, j);
    }
  }

  lemma {:induction false} SkipCommentSound(s: Bytes, i: nat, j: nat) returns (gap: Gap, tail: Bytes)
    requires i < |s| && s[i] == SLASH && Reaches(SkipGap(COMMENTS, s, i), j)
    ensures Passed(COMMENTS, s, i, j, gap, tail) && Settled(COMMENTS, s, j)
    decreases |s| - i, 0
  {
    hide SkipGap, SkipComment, BlockEnd, LineEnd, GapText, GapItemText, ValidGapItem, Settled;
    CommentIsRead(s, i, j);
    var k := SkipComment(s, i).next;
    if s[i + 1] == STAR {
      BlockIsItem(s, i, k);
      gap, tail := SkipGapSound(COMMENTS, s, k, j);
      gap := PrependItem(COMMENTS, s, i, k, j, Block(s[i + 2..k - 2]), gap, tail);
    } else if k == |s| {
      LastLineIsOpen(s, i);
      EndIsSettled(s);
      gap, tail := [], s[i..];
      assert GapText(gap) + tail == tail by { NoGapText(); }
    } else {
      LineIsItem(s, i, k);
      LineIsClosed(s, i, k);
      SkipWhiteByte(COMMENTS, s, k);
      gap, tail := SkipGapSound(COMMENTS, s, k + 1, j);
      gap := PrependItem(COMMENTS, s, i, k + 1, j, Line(s[i + 2..k]), gap, tail);
    }
  }

  lemma {:induction false} NoGapText()
    ensures GapText([]) == []
  {
  }

  lemma {:induction false} EndIsSettled(s: Bytes)
    ensures Settled(COMMENTS, s, |s|) && Reaches(SkipGap(COMMENTS, s, |s|), |s|)
  {
    SkipSettled(COMMENTS, s, |s|);
  }

  lemma {:induction false} LineIsClosed(s: Bytes, i: nat, k: nat)
    requires i + 2 <= |s| && LineEnd(s, i + 2) == k < |s| && NEWLINE !in s[i + 2..k]
    ensures s[k] == NEWLINE && IsWhite(s[k]) && ValidGapItem(COMMENTS, Line(s[i + 2..k]))
  {
    LineEndStops(s, i + 2);
  }

  lemma {:induction false} NextTokenComplete(st: Strategy, s: Bytes, i: nat, j: nat, gap: Gap)
    requires ValidGap(st, gap) && Span(s, i, j, GapText(gap)) && j < |s| && Settled(st, s, j)
    ensures NextToken(st, s, i) == Done(s[j], j + 1)
  {
    assert GapText(gap) + [] == GapText(gap);
    SkipGapComplete(st, s, i, j, gap, []);
  }

  lemma {:induction false} NextTokenSound(st: Strategy, s: Bytes, i: nat) returns (gap: Gap)
    requires i <= |s| && NextToken(st, s, i).Done?
    ensures var j := NextToken(st, s, i).next - 1;
            ValidGap(st, gap) && Span(s, i, j, GapText(gap)) && Settled(st, s, j)
  {
    var j := SkipGap(st, s, i).next;
    var tail;
    gap, tail := SkipGapSound(st, s, i, j);
    assert GapText(gap) + [] == GapText(gap);
  }
}
