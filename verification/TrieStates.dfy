/** The state of a reader, a position and a pending match length, and how one input byte changes it. */
module TrieStates {
  import opened Basics
  import opened TrieFormat
  import opened Tries
  import opened TrieEncoding

  const NULL := -1

  datatype Result = NO_MATCH | NO_VALUE | FINAL_VALUE | INTERMEDIATE_VALUE

  /** The result for a matched byte sequence after which t is left. */
  function ResultOf(t: Trie): Result {
    match t.value
    case None => NO_VALUE
    case Some(_) => if t.next.End? then FINAL_VALUE else INTERMEDIATE_VALUE
  }

  function OptionResult(t: Option<Trie>): Result {
    match t
    case None => NO_MATCH
    case Some(c) => ResultOf(c)
  }

  function ValueResult(node: Byte): Result {
    if node % 2 == 1 then FINAL_VALUE else INTERMEDIATE_VALUE
  }

  /** What the node byte at a node's start tells about its value. */
  function NodeResult(node: Byte): Result {
    if node >= MIN_VALUE_LEAD then ValueResult(node) else NO_VALUE
  }

  lemma NodeResultIs(b: seq<Byte>, pos: nat, t: Trie)
    requires EncodesNode(b, pos, t)
    ensures pos < |b| && NodeResult(b[pos]) == ResultOf(t)
  {
  }

  /** The four kinds of nodes, told apart by their first byte. */
  lemma NodeCases(b: seq<Byte>, pos: int, t: Trie)
    requires EncodesNode(b, pos, t)
    ensures 0 <= pos < |b|
    ensures b[pos] < MIN_LINEAR_MATCH ==>
      && t.value.None? && t.next.Branch? && 2 <= |t.next.edges| <= 0x100
      && (b[pos] == 0 ==>
        pos + 1 < |b| && b[pos + 1] == |t.next.edges| - 1 && EncodesBranch(b, pos + 2, t.next.edges))
      && (b[pos] != 0 ==> b[pos] == |t.next.edges| - 1 && EncodesBranch(b, pos + 1, t.next.edges))
    ensures MIN_LINEAR_MATCH <= b[pos] < MIN_VALUE_LEAD ==>
      && t.value.None? && t.next.Linear? && |t.next.units| == b[pos] - MIN_LINEAR_MATCH + 1
      && HoldsUnits(b, pos + 1, t.next.units)
      && EncodesNode(b, pos + 1 + |t.next.units|, t.next.child)
    ensures b[pos] >= MIN_VALUE_LEAD ==>
      && IsValueLead(b, pos) && t.value == Some(ValueOf(b, pos)) && (b[pos] % 2 == 1 <==> t.next.End?)
      && (b[pos] % 2 == 0 ==> EncodesNode(b, pos + 1 + SkipValue(b[pos]), Trie(None, t.next)))
  {
    assert EncodesNext(b, pos, t.next) || t.value.Some?;
  }

  /** After the first unit of a linear-match node the rest of it is pending. */
  lemma LinearStep(b: seq<Byte>, p: nat, t: Trie, u: int)
    requires t.next.Linear? && |t.next.units| >= 1 && HoldsUnits(b, p, t.next.units)
    requires EncodesNode(b, p + |t.next.units|, t.next.child)
    ensures p < |b| && (Step(t, u).Some? <==> u == b[p])
    ensures u == b[p] ==> StateAt(b, p + 1, |t.next.units| - 2, Step(t, u).value)
  {
    hide EncodesNode;
    HoldsTail(b, p, t.next.units);
  }

  lemma HoldsTail(b: seq<Byte>, p: nat, units: seq<Byte>)
    requires |units| >= 1 && HoldsUnits(b, p, units)
    ensures p < |b| && b[p] == units[0]
    ensures HoldsUnits(b, p + 1, units[1..])
  {
    assert b[p + 0] == units[0];
    forall i | 0 <= i < |units| - 1 ensures b[p + 1 + i] == units[1..][i] {
      assert b[p + (i + 1)] == units[i + 1];
    }
  }

  // ---------- searching edges ----------

  lemma {:induction false} FindEdgeAppend(a: seq<Edge>, b: seq<Edge>, u: int)
    ensures FindEdge(a + b, u) == if FindEdge(a, u).Some? then FindEdge(a, u) else FindEdge(b, u)
  {
    if a == [] {
      assert a + b == b;
    } else {
      assert (a + b)[1..] == a[1..] + b;
      FindEdgeAppend(a[1..], b, u);
    }
  }

  /** The comparison with the middle unit picks the half that can hold u. */
  lemma FindEdgeHalf(edges: seq<Edge>, half: nat, u: int)
    requires OrderedEdges(edges) && half < |edges|
    ensures OrderedEdges(edges[..half]) && OrderedEdges(edges[half..])
    ensures u < edges[half].unit ==> FindEdge(edges, u) == FindEdge(edges[..half], u)
    ensures u >= edges[half].unit ==> FindEdge(edges, u) == FindEdge(edges[half..], u)
  {
    assert edges == edges[..half] + edges[half..];
    FindEdgeAppend(edges[..half], edges[half..], u);
    FindEdgeIsMember(edges[..half], u);
    FindEdgeIsMember(edges[half..], u);
  }

  lemma BranchFacts(b: seq<Byte>, pos: int, edges: seq<Edge>)
    requires EncodesBranch(b, pos, edges)
    ensures 0 <= pos < |b| && |edges| >= 2
    ensures |edges| > MAX_BRANCH_LINEAR_SUB_NODE_LENGTH ==>
      var half := |edges| / 2;
      && b[pos] == edges[half].unit
      && IsDelta(b, pos + 1)
      && EncodesBranch(b, JumpTarget(b, pos + 1), edges[..half])
      && EncodesBranch(b, AfterDelta(b, pos + 1), edges[half..])
    ensures |edges| <= MAX_BRANCH_LINEAR_SUB_NODE_LENGTH ==> EncodesList(b, pos, edges)
  {
  }

  lemma ListFacts(b: seq<Byte>, pos: int, edges: seq<Edge>)
    requires EncodesList(b, pos, edges)
    ensures 0 <= pos < |b| && |edges| >= 1 && b[pos] == edges[0].unit
    ensures |edges| == 1 ==> EncodesNode(b, pos + 1, edges[0].child)
    ensures |edges| > 1 ==>
      && IsValueLead(b, pos + 1)
      && (IsFinal(b, pos + 1) ==> EncodesNode(b, pos + 1, edges[0].child))
      && (!IsFinal(b, pos + 1) ==>
        EncodesNode(b, AfterValue(b, pos + 1) + ValueOf(b, pos + 1), edges[0].child))
      && EncodesList(b, AfterValue(b, pos + 1), edges[1..])
  {
    if |edges| == 1 {
      assert EncodesChild(b, pos + 1, edges[0]);
    } else {
      assert EncodesEdge(b, pos + 1, edges[0]);
      if !IsFinal(b, pos + 1) {
        assert EncodesChild(b, AfterValue(b, pos + 1) + ValueOf(b, pos + 1), edges[0]);
      }
    }
  }

  // ---------- reading several bytes ----------

  /** t is left to match at p, with a linear-match node pending if length >= 0. */
  ghost predicate StateAt(b: seq<Byte>, p: int, length: int, t: Trie) {
    if length < 0 then
      EncodesNode(b, p, t)
    else
      && 0 <= p
      && t.value.None? && t.next.Linear?
      && |t.next.units| == length + 1
      && HoldsUnits(b, p, t.next.units)
      && EncodesNode(b, p + length + 1, t.next.child)
  }

  function WalkOption(t: Option<Trie>, s: seq<int>): Option<Trie> {
    match t
    case None => None
    case Some(c) => Walk(c, s)
  }

  lemma PlainState(b: seq<Byte>, p: int, length: int, t: Trie)
    requires length < 0 && StateAt(b, p, length, t)
    ensures EncodesNode(b, p, t)
  {
  }

  lemma OrderedBranch(t: Trie)
    requires Ordered(t) && t.next.Branch?
    ensures OrderedEdges(t.next.edges)
  {
  }

  // ---------- the state as a function of the bytes ----------

  /** The reader's pos_ and remainingMatchLength_. */
  datatype State = State(pos: int, left: int)

  /** What the list of a branch leads to for u, by the bytes alone. */
  function ListTarget(b: seq<Byte>, p: int, length: nat, u: int): int
    decreases length
  {
    if !(0 <= p < |b|) then NULL
    else if length <= 1 then
      if b[p] == u then p + 1 else NULL
    else if !IsValueLead(b, p + 1) then NULL
    else if b[p] == u then
      if IsFinal(b, p + 1) then p + 1 else AfterValue(b, p + 1) + ValueOf(b, p + 1)
    else ListTarget(b, AfterValue(b, p + 1), length - 1, u)
  }

  function BranchTarget(b: seq<Byte>, p: int, length: nat, u: int): int
    decreases length
  {
    if length <= MAX_BRANCH_LINEAR_SUB_NODE_LENGTH then ListTarget(b, p, length, u)
    else if !(0 <= p < |b|) || !IsDelta(b, p + 1) then NULL
    else if u < b[p] then BranchTarget(b, JumpTarget(b, p + 1), length / 2, u)
    else BranchTarget(b, AfterDelta(b, p + 1), length - length / 2, u)
  }

  /** The state after u from the node at p; a mismatch and a branch leave the match length alone. */
  function AfterNode(b: seq<Byte>, p: int, left: int, u: int): State
    decreases |b| - p
  {
    if !(0 <= p < |b|) then State(NULL, left)
    else
      var node := b[p];
      if node < MIN_LINEAR_MATCH then
        if node != 0 then State(BranchTarget(b, p + 1, node + 1, u), left)
        else if p + 1 < |b| then State(BranchTarget(b, p + 2, b[p + 1] as int + 1, u), left)
        else State(NULL, left)
      else if node < MIN_VALUE_LEAD then
        if p + 1 < |b| && b[p + 1] == u then State(p + 2, node - MIN_LINEAR_MATCH - 1) else State(NULL, left)
      else if node % 2 == 1 then State(NULL, left)
      else AfterNode(b, p + 1 + SkipValue(node), left, u)
  }

  /** The state after one more unit. */
  function Move(b: seq<Byte>, st: State, u: int): State {
    if st.pos == NULL then st
    else if st.left >= 0 then
      if 0 <= st.pos < |b| && b[st.pos] == u then State(st.pos + 1, st.left - 1) else State(NULL, st.left)
    else AfterNode(b, st.pos, st.left, u)
  }

  function Moves(b: seq<Byte>, st: State, s: seq<int>): State {
    if s == [] then st else Move(b, Moves(b, st, s[..|s| - 1]), s[|s| - 1])
  }

  /** How many units of s match before the first one that does not. */
  function Matched(b: seq<Byte>, st: State, s: seq<int>): (n: nat)
    ensures n <= |s|
  {
    if s == [] then 0
    else if Moves(b, st, s).pos != NULL then |s|
    else Matched(b, st, s[..|s| - 1])
  }

  ghost predicate IsStateOf(b: seq<Byte>, st: State, t: Option<Trie>) {
    && st.left >= -1
    && match t
       case None => st.pos == NULL
       case Some(c) => StateAt(b, st.pos, st.left, c)
  }

  function ResultAt(b: seq<Byte>, st: State): Result {
    if st.pos == NULL then NO_MATCH
    else if st.left < 0 && 0 <= st.pos < |b| then NodeResult(b[st.pos])
    else NO_VALUE
  }

  lemma ResultAtIs(b: seq<Byte>, st: State, t: Option<Trie>)
    requires IsStateOf(b, st, t)
    ensures ResultAt(b, st) == OptionResult(t)
    ensures st.pos == NULL <==> t.None?
  {
    if t.Some? && st.left < 0 {
      NodeResultIs(b, st.pos, t.value);
    }
  }

  lemma {:induction false} ListTargetIs(b: seq<Byte>, p: int, edges: seq<Edge>, u: int)
    requires EncodesList(b, p, edges)
    ensures IsStateOf(b, State(ListTarget(b, p, |edges|, u), -1), FindEdge(edges, u))
    decreases |edges|
  {
    ListFacts(b, p, edges);
    if |edges| > 1 && b[p] != u {
      ListTargetIs(b, AfterValue(b, p + 1), edges[1..], u);
    }
  }

  lemma {:induction false} BranchTargetIs(b: seq<Byte>, p: int, edges: seq<Edge>, u: int)
    requires EncodesBranch(b, p, edges) && OrderedEdges(edges)
    ensures IsStateOf(b, State(BranchTarget(b, p, |edges|, u), -1), FindEdge(edges, u))
    decreases |edges|
  {
    hide EncodesBranch, EncodesList, OrderedEdges, IsStateOf;
    BranchFacts(b, p, edges);
    if |edges| > MAX_BRANCH_LINEAR_SUB_NODE_LENGTH {
      var half := |edges| / 2;
      FindEdgeHalf(edges, half, u);
      if u < b[p] {
        BranchTargetIs(b, JumpTarget(b, p + 1), edges[..half], u);
      } else {
        BranchTargetIs(b, AfterDelta(b, p + 1), edges[half..], u);
      }
    } else {
      ListTargetIs(b, p, edges, u);
    }
  }

  lemma {:induction false} AfterNodeIs(b: seq<Byte>, p: int, t: Trie, u: int)
    requires EncodesNode(b, p, t) && Ordered(t)
    ensures IsStateOf(b, AfterNode(b, p, -1, u), Step(t, u))
    decreases |b| - p
  {
    hide EncodesNode, EncodesBranch, StateAt;
    NodeCases(b, p, t);
    if b[p] < MIN_LINEAR_MATCH {
      OrderedBranch(t);
      BranchTargetIs(b, if b[p] == 0 then p + 2 else p + 1, t.next.edges, u);
    } else if b[p] < MIN_VALUE_LEAD {
      LinearStep(b, p + 1, t, u);
    } else if b[p] % 2 == 0 {
      AfterNodeIs(b, p + 1 + SkipValue(b[p]), Trie(None, t.next), u);
    }
  }

  /** One unit leads to the state of one step in the trie. */
  lemma MoveIsStep(b: seq<Byte>, st: State, t: Trie, u: int)
    requires IsStateOf(b, st, Some(t)) && Ordered(t)
    ensures IsStateOf(b, Move(b, st, u), Step(t, u))
  {
    hide EncodesNode, Ordered;
    if st.left < 0 {
      AfterNodeIs(b, st.pos, t, u);
      PlainState(b, st.pos, st.left, t);
    } else {
      HoldsTail(b, st.pos, t.next.units);
    }
  }

  lemma {:induction false} MovesIsWalk(b: seq<Byte>, st: State, t: Option<Trie>, s: seq<int>)
    requires IsStateOf(b, st, t) && (t.Some? ==> Ordered(t.value))
    ensures IsStateOf(b, Moves(b, st, s), WalkOption(t, s))
    ensures WalkOption(t, s).Some? ==> Ordered(WalkOption(t, s).value)
    decreases |s|
  {
    hide StateAt, Ordered, Step;
    if s == [] {
      assert s[..0] == s;
      WalkNothing(t, s);
    } else {
      var n := |s| - 1;
      MovesIsWalk(b, st, t, s[..n]);
      assert s[..n + 1] == s;
      WalkOptionSnoc(t, s, n);
      var c := WalkOption(t, s[..n]);
      if c.Some? {
        MoveIsStep(b, Moves(b, st, s[..n]), c.value, s[n]);
        StepKeepsOrder(c.value, s[n]);
      }
    }
  }

  lemma MovesSnoc(b: seq<Byte>, st: State, s: seq<int>, i: nat)
    requires i < |s|
    ensures Moves(b, st, s[..i + 1]) == Move(b, Moves(b, st, s[..i]), s[i])
  {
    assert s[..i + 1][..i] == s[..i];
  }

  /** Where the input stops matching. */
  lemma {:induction false} StopsAt(b: seq<Byte>, st: State, s: seq<int>, k: nat)
    requires k < |s| && Moves(b, st, s[..k + 1]).pos == NULL
    requires Moves(b, st, s[..k]).pos != NULL || k == 0
    ensures Moves(b, st, s) == Moves(b, st, s[..k + 1]) && Matched(b, st, s) == k
    decreases |s|
  {
    hide Move;
    if k + 1 == |s| {
      assert s[..k + 1] == s;
      MatchedAll(b, st, s[..k]);
    } else {
      var n := |s| - 1;
      assert s[..n][..k + 1] == s[..k + 1] && s[..n][..k] == s[..k];
      StopsAt(b, st, s[..n], k);
      StoppedStays(b, Moves(b, st, s[..n]), s[n]);
    }
  }

  lemma MatchedAll(b: seq<Byte>, st: State, s: seq<int>)
    requires Moves(b, st, s).pos != NULL || s == []
    ensures Matched(b, st, s) == |s|
  {
  }

  lemma StoppedStays(b: seq<Byte>, st: State, u: int)
    requires st.pos == NULL
    ensures Move(b, st, u) == st
  {
  }

  lemma WalkNothing(t: Option<Trie>, s: seq<int>)
    ensures WalkOption(t, s[..0]) == t
  {
  }

  lemma WalkOptionSnoc(t: Option<Trie>, s: seq<int>, i: nat)
    requires i < |s|
    ensures WalkOption(t, s[..i + 1]) ==
            match WalkOption(t, s[..i]) case None => None case Some(c) => Step(c, s[i])
  {
    if t.Some? {
      assert s[..i + 1] == s[..i] + [s[i]];
      WalkConcat(t.value, s[..i], [s[i]]);
      match Walk(t.value, s[..i])
      case None =>
      case Some(c) => assert Walk(c, [s[i]]) == Step(c, s[i]);
    }
  }
}
