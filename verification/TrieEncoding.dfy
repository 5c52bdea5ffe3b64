/** When a position in a byte sequence holds the serialized form of a trie. */
module TrieEncoding {
  import opened Basics
  import opened TrieFormat
  import opened Tries

  ghost predicate EncodesNode(b: seq<Byte>, pos: int, t: Trie)
    decreases t
  {
    && 0 <= pos < |b|
    && match t.value
       case None => EncodesNext(b, pos, t.next)
       case Some(v) =>
         && IsValueLead(b, pos)
         && ValueOf(b, pos) == v
         && (IsFinal(b, pos) <==> t.next.End?)
         && (!t.next.End? ==> EncodesNext(b, AfterValue(b, pos), t.next))
  }

  ghost predicate EncodesNext(b: seq<Byte>, pos: int, next: Next)
    decreases next
  {
    && 0 <= pos < |b|
    && match next
       case End => false
       case Linear(units, child) =>
         && 1 <= |units| <= MAX_LINEAR_MATCH_LENGTH
         && b[pos] == MIN_LINEAR_MATCH + |units| - 1
         && HoldsUnits(b, pos + 1, units)
         && EncodesNode(b, pos + 1 + |units|, child)
       case Branch(edges) =>
         && 2 <= |edges| <= 0x100
         && b[pos] < MIN_LINEAR_MATCH
         && (b[pos] == 0 ==> pos + 1 < |b|)
         && |edges| - 1 == (if b[pos] == 0 then b[pos + 1] else b[pos])
         && EncodesBranch(b, pos + (if b[pos] == 0 then 2 else 1), edges)
  }

  predicate HoldsUnits(b: seq<Byte>, pos: nat, units: seq<Byte>) {
    pos + |units| <= |b| && forall i :: 0 <= i < |units| ==> b[pos + i] == units[i]
  }

  /** A binary search down to short lists. */
  ghost predicate EncodesBranch(b: seq<Byte>, pos: int, edges: seq<Edge>)
    decreases edges, 1
  {
    && 0 <= pos < |b|
    && |edges| >= 2
    && if |edges| > MAX_BRANCH_LINEAR_SUB_NODE_LENGTH then
         var half := |edges| / 2;
         && b[pos] == edges[half].unit
         && IsDelta(b, pos + 1)
         && EncodesBranch(b, JumpTarget(b, pos + 1), edges[..half])
         && EncodesBranch(b, AfterDelta(b, pos + 1), edges[half..])
       else
         EncodesList(b, pos, edges)
  }

  /** Units with final values or jump deltas; the last unit's child follows in place. */
  ghost predicate EncodesList(b: seq<Byte>, pos: int, edges: seq<Edge>)
    decreases edges, 0
  {
    && 0 <= pos < |b|
    && |edges| >= 1
    && b[pos] == edges[0].unit
    && if |edges| == 1 then
         EncodesChild(b, pos + 1, edges[0])
       else
         && IsValueLead(b, pos + 1)
         && EncodesEdge(b, pos + 1, edges[0])
         && EncodesList(b, AfterValue(b, pos + 1), edges[1..])
  }

  ghost predicate EncodesEdge(b: seq<Byte>, pos: nat, e: Edge)
    requires IsValueLead(b, pos)
    decreases e
  {
    if IsFinal(b, pos) then e.child == Trie(Some(ValueOf(b, pos)), End)
    else EncodesChild(b, AfterValue(b, pos) + ValueOf(b, pos), e)
  }

  ghost predicate EncodesChild(b: seq<Byte>, pos: int, e: Edge)
    decreases e, 0
  {
    EncodesNode(b, pos, e.child)
  }

  // ---------- prepending keeps every encoding, at the same distance from the end ----------

  lemma ShiftValue(x: seq<Byte>, b: seq<Byte>, pos: nat)
    ensures IsValueLead(b, pos) ==>
      && IsValueLead(x + b, |x| + pos)
      && ValueOf(x + b, |x| + pos) == ValueOf(b, pos)
      && IsFinal(x + b, |x| + pos) == IsFinal(b, pos)
      && AfterValue(x + b, |x| + pos) == |x| + AfterValue(b, pos)
  {
    assert forall k :: 0 <= k < |b| ==> (x + b)[|x| + k] == b[k];
  }

  lemma ShiftDelta(x: seq<Byte>, b: seq<Byte>, pos: nat)
    ensures IsDelta(b, pos) ==>
      && IsDelta(x + b, |x| + pos)
      && AfterDelta(x + b, |x| + pos) == |x| + AfterDelta(b, pos)
      && JumpTarget(x + b, |x| + pos) == |x| + JumpTarget(b, pos)
  {
    assert forall k :: 0 <= k < |b| ==> (x + b)[|x| + k] == b[k];
  }

  lemma ShiftUnits(x: seq<Byte>, b: seq<Byte>, pos: nat, units: seq<Byte>)
    requires HoldsUnits(b, pos, units)
    ensures HoldsUnits(x + b, |x| + pos, units)
  {
    assert forall k :: 0 <= k < |b| ==> (x + b)[|x| + k] == b[k];
  }

  lemma {:induction false} ShiftNode(x: seq<Byte>, b: seq<Byte>, pos: int, t: Trie)
    requires EncodesNode(b, pos, t)
    ensures EncodesNode(x + b, |x| + pos, t)
    decreases t
  {
    match t.value
    case None => ShiftNext(x, b, pos, t.next);
    case Some(v) =>
      ShiftValue(x, b, pos);
      if !t.next.End? {
        ShiftNext(x, b, AfterValue(b, pos), t.next);
      }
  }

  lemma {:induction false} ShiftNext(x: seq<Byte>, b: seq<Byte>, pos: int, next: Next)
    requires EncodesNext(b, pos, next)
    ensures EncodesNext(x + b, |x| + pos, next)
    decreases next
  {
    hide EncodesNode, EncodesBranch, HoldsUnits;
    assert (x + b)[|x| + pos] == b[pos];
    match next
    case Linear(units, child) =>
      ShiftUnits(x, b, pos + 1, units);
      ShiftNode(x, b, pos + 1 + |units|, child);
      assert |x| + (pos + 1 + |units|) == (|x| + pos) + 1 + |units|;
    case Branch(edges) =>
      if b[pos] == 0 {
        assert (x + b)[|x| + pos + 1] == b[pos + 1];
        ShiftBranch(x, b, pos + 2, edges);
        assert |x| + (pos + 2) == (|x| + pos) + 2;
      } else {
        ShiftBranch(x, b, pos + 1, edges);
        assert |x| + (pos + 1) == (|x| + pos) + 1;
      }
  }

  lemma {:induction false} ShiftBranch(x: seq<Byte>, b: seq<Byte>, pos: int, edges: seq<Edge>)
    requires EncodesBranch(b, pos, edges)
    ensures EncodesBranch(x + b, |x| + pos, edges)
    decreases edges, 1
  {
    hide EncodesList, IsDelta, JumpTarget, AfterDelta;
    assert (x + b)[|x| + pos] == b[pos];
    if |edges| > MAX_BRANCH_LINEAR_SUB_NODE_LENGTH {
      var half := |edges| / 2;
      ShiftDelta(x, b, pos + 1);
      assert |x| + (pos + 1) == |x| + pos + 1;
      ShiftBranch(x, b, JumpTarget(b, pos + 1), edges[..half]);
      ShiftBranch(x, b, AfterDelta(b, pos + 1), edges[half..]);
    } else {
      ShiftList(x, b, pos, edges);
    }
  }

  lemma {:induction false} ShiftList(x: seq<Byte>, b: seq<Byte>, pos: int, edges: seq<Edge>)
    requires EncodesList(b, pos, edges)
    ensures EncodesList(x + b, |x| + pos, edges)
    decreases edges, 0
  {
    assert (x + b)[|x| + pos] == b[pos];
    assert |x| + (pos + 1) == (|x| + pos) + 1;
    if |edges| == 1 {
      ShiftChild(x, b, pos + 1, edges[0]);
    } else {
      ShiftValue(x, b, pos + 1);
      ShiftEdge(x, b, pos + 1, edges[0]);
      ShiftList(x, b, AfterValue(b, pos + 1), edges[1..]);
    }
  }

  lemma {:induction false} ShiftEdge(x: seq<Byte>, b: seq<Byte>, pos: nat, e: Edge)
    requires IsValueLead(b, pos) && EncodesEdge(b, pos, e)
    ensures IsValueLead(x + b, |x| + pos) && EncodesEdge(x + b, |x| + pos, e)
    decreases e
  {
    ShiftValue(x, b, pos);
    if !IsFinal(b, pos) {
      ShiftChild(x, b, AfterValue(b, pos) + ValueOf(b, pos), e);
      assert |x| + (AfterValue(b, pos) + ValueOf(b, pos)) == (|x| + AfterValue(b, pos)) + ValueOf(b, pos);
    }
  }

  lemma {:induction false} ShiftChild(x: seq<Byte>, b: seq<Byte>, pos: int, e: Edge)
    requires EncodesChild(b, pos, e)
    ensures EncodesChild(x + b, |x| + pos, e)
    decreases e, 0
  {
    ShiftNode(x, b, pos, e.child);
  }
}
