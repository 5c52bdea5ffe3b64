/** The reader: walks a serialized trie byte by byte with a position and a pending match length. */
module BytesTries {
  import opened Basics
  import opened TrieFormat
  import opened Tries
  import opened TrieEncoding
  import opened TrieStates

  // ---------- what the results say about the keys ----------

  /** NO_MATCH, a value and a final value, in terms of the keys alone. */
  lemma ResultsDecideKeys(t: Trie, s: seq<Byte>)
    requires Ordered(t)
    ensures var r := OptionResult(Walk(t, s));
            && (r == NO_MATCH <==> forall e :: e in Entries(t) ==> !(s <= e.key))
            && (r == FINAL_VALUE || r == INTERMEDIATE_VALUE <==> exists v :: Entry(s, v) in Entries(t))
            && (r == FINAL_VALUE <==>
                (exists v :: Entry(s, v) in Entries(t)) && forall e :: e in Entries(t) ==> !(s < e.key))
    ensures forall v :: Entry(s, v) in Entries(t) ==> Walk(t, s).Some? && Walk(t, s).value.value == Some(v)
  {
    WalkDecides(t, s);
    WalkKeepsOrder(t, s);
    if Walk(t, s).Some? && Walk(t, s).value.value.Some? {
      assert Entry(s, Walk(t, s).value.value.value) in Entries(t);
    }
    forall v | Entry(s, v) in Entries(t) ensures Walk(t, s).Some? && Walk(t, s).value.value == Some(v) {
      assert s <= Entry(s, v).key;
    }
    forall e | e in Entries(t) && s <= e.key ensures e.key == s <==> !(s < e.key) {
    }
  }

  /** inByte as next(int32_t) sees it: negative values stand for 0x80..0xFF. */
  function Adjusted(inByte: int): int {
    if inByte < 0 then inByte + 0x100 else inByte
  }

  function AdjustedAll(s: seq<int>): seq<int> {
    seq(|s|, i requires 0 <= i < |s| => Adjusted(s[i]))
  }

  lemma {:induction false} NegativeNeverMatches(t: Trie, s: seq<int>)
    requires exists i :: 0 <= i < |s| && s[i] < 0
    ensures Walk(t, s).None?
    decreases |s|
  {
    if s[0] < 0 {
      if t.next.Branch? { FindEdgeIsMember(t.next.edges, s[0]); }
    } else {
      assert exists i :: 0 <= i < |s| - 1 && s[1..][i] < 0 by {
        var i :| 0 <= i < |s| && s[i] < 0;
        assert s[1..][i - 1] < 0;
      }
      match Step(t, s[0])
      case None =>
      case Some(c) => NegativeNeverMatches(c, s[1..]);
    }
  }

  // ---------- a whole string at once ----------

  /** The characters that next(const char *, int32_t) reads; a negative length means up to the first NUL. */
  function Input(s: seq<int>, sLength: int): seq<int>
    requires IsString(s, sLength)
  {
    if sLength < 0 then UpToNul(s) else s[..sLength]
  }

  predicate IsString(s: seq<int>, sLength: int) {
    if sLength < 0 then 0 in s else sLength <= |s|
  }

  function UpToNul(s: seq<int>): (r: seq<int>)
    requires 0 in s
    ensures |r| < |s| && r == s[..|r|] && s[|r|] == 0 && 0 !in r
  {
    if s[0] == 0 then [] else [s[0]] + UpToNul(s[1..])
  }

  predicate AtEnd(s: seq<int>, sLength: int, i: nat)
    requires i < |s| || i == sLength
  {
    if sLength < 0 then s[i] == 0 else i == sLength
  }

  lemma EndOfInput(s: seq<int>, sLength: int, i: nat)
    requires IsString(s, sLength) && i <= |Input(s, sLength)|
    ensures i < |s| || i == sLength
    ensures AtEnd(s, sLength, i) <==> i == |Input(s, sLength)|
    ensures i < |Input(s, sLength)| ==> i < |s| && s[i] == Input(s, sLength)[i]
  {
  }

  /** remainingMatchLength_ after a mismatch: it is not counted down inside a linear-match node. */
  function Kept(st: State, matched: nat): int {
    if matched <= st.left then st.left else -1
  }

  /** The state that next(const char *, int32_t) leaves. */
  function StringState(b: seq<Byte>, st: State, s: seq<int>): State {
    if s == [] || Moves(b, st, s).pos != NULL then Moves(b, st, s)
    else State(NULL, Kept(st, Matched(b, st, s)))
  }

  lemma {:induction false} StopKeepsLeft(b: seq<Byte>, p: int, left: int, u: int)
    ensures AfterNode(b, p, left, u).pos == NULL ==> AfterNode(b, p, left, u).left == left
    decreases |b| - p
  {
    if 0 <= p < |b| && b[p] >= MIN_VALUE_LEAD && b[p] % 2 == 0 {
      StopKeepsLeft(b, p + 1 + SkipValue(b[p]), left, u);
    }
  }

  /** Single bytes stop with the match length of the state before the byte that does not match. */
  lemma {:induction false} LeftWhereStopped(b: seq<Byte>, st: State, s: seq<int>)
    requires s != [] && Moves(b, st, s).pos == NULL
    ensures var k := Matched(b, st, s); k < |s| && Moves(b, st, s) == State(NULL, Moves(b, st, s[..k]).left)
    decreases |s|
  {
    hide AfterNode;
    var n := |s| - 1;
    var before := Moves(b, st, s[..n]);
    assert s[..n + 1] == s;
    if before.pos != NULL || n == 0 {
      MatchedAll(b, st, s[..n]);
      StopKeepsLeft(b, before.pos, before.left, s[n]);
    } else {
      LeftWhereStopped(b, st, s[..n]);
      StoppedStays(b, before, s[n]);
      assert s[..n][..Matched(b, st, s[..n])] == s[..Matched(b, st, s[..n])];
    }
  }

  /** A pending linear match is counted down. */
  lemma {:induction false} PendingCountsDown(b: seq<Byte>, st: State, s: seq<int>)
    requires |s| <= st.left + 1 && (Moves(b, st, s).pos != NULL || s == [])
    ensures Moves(b, st, s).left == st.left - |s|
  {
    if s != [] {
      PendingCountsDown(b, st, s[..|s| - 1]);
    }
  }

  lemma MatchedMoves(b: seq<Byte>, st: State, s: seq<int>)
    ensures Matched(b, st, s) > 0 ==> Moves(b, st, s[..Matched(b, st, s)]).pos != NULL
  {
    if s != [] {
      assert s[..|s|] == s;
      if Moves(b, st, s).pos == NULL {
        MatchedMoves(b, st, s[..|s| - 1]);
        assert s[..|s| - 1][..Matched(b, st, s)] == s[..Matched(b, st, s)];
      }
    }
  }

  predicate NoNegative(s: seq<int>) {
    forall i :: 0 <= i < |s| ==> s[i] >= 0
  }

  /** next(s, n) and n calls of next(int32_t) give the same result exactly if no character is negative or no key goes on with them. */
  lemma ResultsAgreeIff(t: Trie, s: seq<int>)
    requires Ordered(t) && forall i :: 0 <= i < |s| ==> -0x80 <= s[i] < 0x80
    ensures OptionResult(Walk(t, s)) == OptionResult(Walk(t, AdjustedAll(s))) <==>
            NoNegative(s) || forall e :: e in Entries(t) ==> !(AdjustedAll(s) <= e.key)
  {
    if NoNegative(s) {
      assert AdjustedAll(s) == s;
    } else {
      NegativeNeverMatches(t, s);
      var a: seq<Byte> := AdjustedAll(s);
      ResultsDecideKeys(t, a);
    }
  }

  /**
    * Where the two ways of reading stop, k units in and m units in, decides whether they leave the same
    * state. If that is the same place, then exactly if it is the start or begins a node. If only the
    * adjusted string gets past k, where the character is negative, then exactly if it stops too: at the
    * beginning of a node, or, if k lies in the match that was pending, in a later match that has just as
    * much left as that one had.
    */
  lemma StatesAgreeIff(b: seq<Byte>, st: State, t: Option<Trie>, s: seq<int>)
    requires IsStateOf(b, st, t) && (t.Some? ==> Ordered(t.value))
    ensures var a := AdjustedAll(s);
            var (k, m) := (Matched(b, st, s), Matched(b, st, a));
            && k <= m && (k < m ==> s[k] < 0)
            && (StringState(b, st, s) == Moves(b, st, a) <==>
                if k == |s| then true
                else if m == k then k == 0 || Moves(b, st, a[..k]).left < 0
                else m < |s| && if k > st.left then Moves(b, st, a[..m]).left < 0
                                else m > st.left && Moves(b, st, a[..m]).left == st.left)
  {
    hide Move, StateAt;
    var a := AdjustedAll(s);
    var (k, m) := (Matched(b, st, s), Matched(b, st, a));
    MatchesFurther(b, st, t, s);
    StatesAgreeWhereStopped(b, st, t, s);
    MovesIsWalk(b, st, t, a[..m]);
    MatchedMoves(b, st, a);
    if m <= st.left + 1 {
      PendingCountsDown(b, st, a[..m]);
    }
  }

  /** The adjusted string matches at least as far, and further only past a negative character. */
  lemma MatchesFurther(b: seq<Byte>, st: State, t: Option<Trie>, s: seq<int>)
    requires IsStateOf(b, st, t) && (t.Some? ==> Ordered(t.value))
    ensures var (k, m) := (Matched(b, st, s), Matched(b, st, AdjustedAll(s))); k <= m && (k < m ==> s[k] < 0)
  {
    hide Moves, StateAt, Matched;
    var a := AdjustedAll(s);
    if s == [] {
      NothingMatched(b, st);
    } else if Moves(b, st, s).pos != NULL {
      MatchedIsPositive(b, st, t, s);
    } else {
      var k := Matched(b, st, s);
      StopsSomewhere(b, st, s);
      MatchedMoves(b, st, s);
      if k > 0 { MatchedIsPositive(b, st, t, s[..k]); }
      assert AdjustedAll(s[..k]) == a[..k];
      if k > 0 { MatchedAtLeast(b, st, a, k); }
      if s[k] >= 0 {
        assert s[..k + 1] == s[..k] + [s[k]] && a[..k + 1] == a[..k] + [a[k]];
        assert k == 0 ==> s[..k] == a[..k];
        StopsAt(b, st, a, k);
      }
    }
  }

  lemma NothingMatched(b: seq<Byte>, st: State)
    ensures Matched(b, st, []) == 0
  {
  }

  lemma StopsSomewhere(b: seq<Byte>, st: State, s: seq<int>)
    requires s != [] && Moves(b, st, s).pos == NULL
    ensures var k := Matched(b, st, s); k < |s| && Moves(b, st, s[..k + 1]).pos == NULL
  {
    hide Move;
    var k := Matched(b, st, s);
    LeftWhereStopped(b, st, s);
    if Moves(b, st, s[..k + 1]).pos != NULL {
      MatchedAtLeast(b, st, s, k + 1);
    }
  }

  lemma {:induction false} MatchedAtLeast(b: seq<Byte>, st: State, s: seq<int>, n: nat)
    requires n <= |s| && Moves(b, st, s[..n]).pos != NULL
    ensures Matched(b, st, s) >= n
    decreases |s|
  {
    hide Move;
    if n == |s| {
      assert s[..n] == s;
    } else {
      assert s[..|s| - 1][..n] == s[..n];
      MatchedAtLeast(b, st, s[..|s| - 1], n);
    }
  }

  /** What matches as it is has no negative characters. */
  lemma MatchedIsPositive(b: seq<Byte>, st: State, t: Option<Trie>, s: seq<int>)
    requires IsStateOf(b, st, t) && (t.Some? ==> Ordered(t.value)) && Moves(b, st, s).pos != NULL
    ensures NoNegative(s) && AdjustedAll(s) == s
  {
    hide Move, StateAt;
    MovesIsWalk(b, st, t, s);
    ResultAtIs(b, Moves(b, st, s), WalkOption(t, s));
    if !NoNegative(s) {
      NegativeNeverMatches(t.value, s);
    }
  }

  lemma StatesAgreeWhereStopped(b: seq<Byte>, st: State, t: Option<Trie>, s: seq<int>)
    requires IsStateOf(b, st, t) && (t.Some? ==> Ordered(t.value))
    ensures var a := AdjustedAll(s);
            var (k, m) := (Matched(b, st, s), Matched(b, st, a));
            StringState(b, st, s) == Moves(b, st, a) <==>
            k == |s| || (m < |s| && Moves(b, st, a[..m]).left == Kept(st, k))
  {
    hide Move, StateAt;
    var a := AdjustedAll(s);
    if s == [] {
      assert a == s;
    } else if Moves(b, st, s).pos != NULL {
      MatchedIsPositive(b, st, t, s);
    } else {
      LeftWhereStopped(b, st, s);
      if Moves(b, st, a).pos == NULL {
        LeftWhereStopped(b, st, a);
      } else {
        MatchedAll(b, st, a);
      }
    }
  }

  /** Without negative characters: exactly if all match, or the one that does not is the first one or begins a node. */
  lemma StatesAgreeIfPositive(b: seq<Byte>, st: State, t: Option<Trie>, s: seq<int>)
    requires IsStateOf(b, st, t) && (t.Some? ==> Ordered(t.value)) && NoNegative(s)
    ensures var k := Matched(b, st, s);
            StringState(b, st, s) == Moves(b, st, AdjustedAll(s)) <==>
            k == |s| || k == 0 || Moves(b, st, s[..k]).left < 0
  {
    hide Move, StateAt;
    assert AdjustedAll(s) == s;
    StatesAgreeIff(b, st, t, s);
    var k := Matched(b, st, s);
    MatchedMoves(b, st, s);
    MovesIsWalk(b, st, t, s[..k]);
    if k <= st.left + 1 {
      PendingCountsDown(b, st, s[..k]);
    }
  }

  /** "ax" in a trie of "abc": the same result, but not the same state. */
  lemma StatesDiffer()
    ensures var b := [0x12, 0x61, 0x62, 0x63, 0x23];
            && EncodesNode(b, 0, Trie(None, Linear([0x61, 0x62, 0x63], Trie(Some(1), End))))
            && StringState(b, State(0, -1), [0x61, 0x78]) == State(NULL, -1)
            && Moves(b, State(0, -1), AdjustedAll([0x61, 0x78])) == State(NULL, 1)
  {
    var b := [0x12, 0x61, 0x62, 0x63, 0x23];
    assert EncodesNode(b, 4, Trie(Some(1), End));
    var st, s := State(0, -1), [0x61, 0x78];
    assert AdjustedAll(s) == s;
    assert s[..1] == [0x61] && [0x61][..0] == [];
    assert Moves(b, st, [0x61]) == Move(b, st, 0x61) == State(2, 1);
    assert Moves(b, st, s) == Move(b, State(2, 1), 0x78) == State(NULL, 1);
  }

  /** The byte 0x80, a negative character, in a trie of that byte: found by next(int32_t) only. */
  lemma ResultsDiffer()
    ensures var b := [0x10, 0x80, 0x23];
            && EncodesNode(b, 0, Trie(None, Linear([0x80], Trie(Some(1), End))))
            && StringState(b, State(0, -1), [-0x80]) == State(NULL, -1)
            && Moves(b, State(0, -1), AdjustedAll([-0x80])) == State(2, -1)
            && ResultAt(b, State(2, -1)) == FINAL_VALUE
  {
    var b := [0x10, 0x80, 0x23];
    assert EncodesNode(b, 2, Trie(Some(1), End));
    assert AdjustedAll([-0x80]) == [0x80];
    assert Moves(b, State(0, -1), [0x80]) == Move(b, State(0, -1), 0x80);
    assert Moves(b, State(0, -1), [-0x80]) == Move(b, State(0, -1), -0x80);
  }

  /** The string overload leads to the state of the whole walk. */
  lemma StringStateIs(b: seq<Byte>, st: State, t: Option<Trie>, s: seq<int>)
    requires IsStateOf(b, st, t) && (t.Some? ==> Ordered(t.value))
    ensures IsStateOf(b, StringState(b, st, s), WalkOption(t, s))
  {
    hide Moves, WalkOption, StateAt;
    MovesIsWalk(b, st, t, s);
    ResultAtIs(b, Moves(b, st, s), WalkOption(t, s));
  }

  lemma NothingRead(b: seq<Byte>, st: State, t: Option<Trie>, s: seq<int>)
    requires IsStateOf(b, st, t)
    ensures Moves(b, st, s[..0]) == st && WalkOption(t, s[..0]) == t
    ensures st.left >= -1 && (st.pos == NULL <==> t.None?)
    ensures s == [] ==> StringState(b, st, s) == st && WalkOption(t, s) == t
    ensures st.pos == NULL ==> StringState(b, st, s) == st && WalkOption(t, s) == t
    ensures OptionResult(None) == NO_MATCH
  {
    hide Move, StateAt;
    assert s[..0] == [];
    ResultAtIs(b, st, t);
    if st.pos == NULL {
      StoppedInput(b, st, s);
    }
  }

  lemma {:induction false} StoppedInput(b: seq<Byte>, st: State, s: seq<int>)
    requires st.pos == NULL
    ensures Moves(b, st, s) == st && Matched(b, st, s) == 0
  {
    if s != [] {
      StoppedInput(b, st, s[..|s| - 1]);
    }
  }

  lemma ReadSoFar(b: seq<Byte>, st: State, t: Option<Trie>, s: seq<int>, i: nat)
    requires IsStateOf(b, st, t) && (t.Some? ==> Ordered(t.value))
    requires i <= |s| && Moves(b, st, s[..i]).pos != NULL
    ensures var now, t' := Moves(b, st, s[..i]), WalkOption(t, s[..i]);
            && t'.Some? && Ordered(t'.value) && IsStateOf(b, now, t')
            && now.left >= -1 && (now.left < 0 ==> EncodesNode(b, now.pos, t'.value))
            && (i <= st.left + 1 ==> now.left == st.left - i)
    ensures i == |s| ==> StringState(b, st, s) == Moves(b, st, s[..i]) && WalkOption(t, s) == WalkOption(t, s[..i])
  {
    hide Move, Walk, Ordered, Moves;
    MovesIsWalk(b, st, t, s[..i]);
    ResultAtIs(b, Moves(b, st, s[..i]), WalkOption(t, s[..i]));
    if i <= st.left + 1 { PendingCountsDown(b, st, s[..i]); }
    if i == |s| { assert s[..i] == s; }
  }

  lemma PendingMove(b: seq<Byte>, st: State, t: Trie, u: int)
    requires IsStateOf(b, st, Some(t)) && st.left >= 0
    ensures 0 <= st.pos < |b| && st.pos != NULL && st.pos + 1 != NULL
    ensures Move(b, st, u) == if b[st.pos] == u then State(st.pos + 1, st.left - 1) else State(NULL, st.left)
  {
  }

  lemma MismatchAt(b: seq<Byte>, st: State, t: Option<Trie>, s: seq<int>, k: nat)
    requires IsStateOf(b, st, t) && (t.Some? ==> Ordered(t.value))
    requires k < |s| && Moves(b, st, s[..k]).pos != NULL && Moves(b, st, s[..k + 1]).pos == NULL
    ensures StringState(b, st, s) == State(NULL, if k <= st.left then st.left else -1)
    ensures IsStateOf(b, StringState(b, st, s), WalkOption(t, s)) && OptionResult(WalkOption(t, s)) == NO_MATCH
  {
    hide Moves, WalkOption, StateAt, Matched;
    StopsAt(b, st, s, k);
    StringStateIs(b, st, t, s);
    ResultAtIs(b, StringState(b, st, s), WalkOption(t, s));
  }

  lemma FromNode(b: seq<Byte>, p: int, u: int)
    requires p != NULL
    ensures Move(b, State(p, -1), u) == AfterNode(b, p, -1, u)
  {
  }

  lemma AfterNodeCases(b: seq<Byte>, p: int, left: int, u: int)
    requires 0 <= p < |b|
    ensures b[p] < MIN_LINEAR_MATCH && b[p] != 0 ==> AfterNode(b, p, left, u) == State(BranchTarget(b, p + 1, b[p] + 1, u), left)
    ensures b[p] == 0 && p + 1 < |b| ==> AfterNode(b, p, left, u) == State(BranchTarget(b, p + 2, b[p + 1] as int + 1, u), left)
    ensures MIN_LINEAR_MATCH <= b[p] < MIN_VALUE_LEAD && p + 1 < |b| ==>
      AfterNode(b, p, left, u) == if b[p + 1] == u then State(p + 2, b[p] - MIN_LINEAR_MATCH - 1) else State(NULL, left)
    ensures b[p] >= MIN_VALUE_LEAD && b[p] % 2 == 1 ==> AfterNode(b, p, left, u) == State(NULL, left)
    ensures b[p] >= MIN_VALUE_LEAD && b[p] % 2 == 0 ==> AfterNode(b, p, left, u) == AfterNode(b, p + 1 + SkipValue(b[p]), left, u)
    ensures NULL == -1 && 0 < MIN_LINEAR_MATCH < MIN_VALUE_LEAD
  {
  }

  lemma BranchTargetStep(b: seq<Byte>, p: int, length: nat, u: int)
    requires length > MAX_BRANCH_LINEAR_SUB_NODE_LENGTH ==> 0 <= p < |b| && IsDelta(b, p + 1)
    ensures BranchTarget(b, p, length, u) ==
            if length <= MAX_BRANCH_LINEAR_SUB_NODE_LENGTH then ListTarget(b, p, length, u)
            else if u < b[p] then BranchTarget(b, JumpTarget(b, p + 1), length / 2, u)
            else BranchTarget(b, AfterDelta(b, p + 1), length - length / 2, u)
  {
  }

  lemma NoMatchIsStop(t: Option<Trie>)
    ensures OptionResult(t) == NO_MATCH <==> t.None?
  {
  }

  lemma FinalStops(b: seq<Byte>, p: int, t: Trie, u: int)
    requires EncodesNode(b, p, t) && OptionResult(Some(t)) == FINAL_VALUE
    ensures AfterNode(b, p, -1, u).pos == NULL
  {
    NodeCases(b, p, t);
  }

  lemma OneStep(t: Option<Trie>, u: int)
    ensures WalkOption(t, [u]) == if t.None? then None else Step(t.value, u)
  {
    if t.Some? {
      var c := Step(t.value, u);
      assert [u][1..] == [];
      assert c.Some? ==> Walk(c.value, []) == c;
    }
  }

  // ---------- the class ----------

  class BytesTrie {
    const bytes: seq<Byte>
    var pos: int
    var remainingMatchLength: int   // of a pending linear-match node, minus 1

    function Now(): State
      reads this
    {
      State(pos, remainingMatchLength)
    }

    /** The state after reading input from which t, if any, is left. */
    ghost predicate IsState(t: Option<Trie>)
      reads this
    {
      IsStateOf(bytes, Now(), t)
    }

    constructor (trieBytes: seq<Byte>)
      ensures bytes == trieBytes && pos == 0 && remainingMatchLength == -1
    {
      bytes, pos, remainingMatchLength := trieBytes, 0, -1;
    }

    method Reset()
      modifies this
      ensures pos == 0 && remainingMatchLength == -1
    {
      pos, remainingMatchLength := 0, -1;
    }

    method Current(ghost t: Option<Trie>) returns (r: Result)
      requires IsState(t)
      ensures r == OptionResult(t)
    {
      if pos == NULL {
        return NO_MATCH;
      }
      if remainingMatchLength < 0 {
        NodeResultIs(bytes, pos, t.value);
        return NodeResult(bytes[pos]);
      }
      return NO_VALUE;
    }

    method GetValue(ghost t: Trie) returns (value: int)
      requires IsState(Some(t)) && t.value.Some?
      ensures t.value == Some(value)
    {
      value := ReadValue(bytes, pos + 1, bytes[pos] / 2);
    }

    method Stop()
      modifies this`pos
      ensures pos == NULL
    {
      pos := NULL;
    }

    method First(inByte: int, ghost t: Trie) returns (r: Result)
      requires EncodesNode(bytes, 0, t) && Ordered(t)
      modifies this
      ensures Now() == AfterNode(bytes, 0, -1, Adjusted(inByte))
      ensures IsState(Step(t, Adjusted(inByte))) && r == OptionResult(Step(t, Adjusted(inByte)))
    {
      remainingMatchLength := -1;
      r := NextImpl(0, Adjusted(inByte), t);
    }

    /** One input byte from the current state. */
    method Next(inByte: int, ghost t: Option<Trie>) returns (r: Result)
      requires IsState(t) && (t.Some? ==> Ordered(t.value))
      modifies this
      ensures Now() == Move(bytes, old(Now()), Adjusted(inByte))
      ensures var t' := WalkOption(t, [Adjusted(inByte)]); IsState(t') && r == OptionResult(t')
    {
      hide EncodesNode, Ordered, AfterNode;
      OneStep(t, Adjusted(inByte));
      ResultAtIs(bytes, Now(), t);
      if pos == NULL {
        return NO_MATCH;
      }
      var b := Adjusted(inByte);
      MoveIsStep(bytes, Now(), t.value, b);
      ResultAtIs(bytes, Move(bytes, Now(), b), Step(t.value, b));
      var length := remainingMatchLength;
      if length >= 0 {
        PendingMove(bytes, Now(), t.value, b);
        if b == bytes[pos] {
          pos := pos + 1;
          length := length - 1;
          remainingMatchLength := length;
          r := Current(Step(t.value, b));
        } else {
          Stop();
          r := NO_MATCH;
        }
        return;
      }
      PlainState(bytes, pos, length, t.value);
      r := NextImpl(pos, b, t.value);
    }

    method NextImpl(start: int, inByte: int, ghost t: Trie) returns (r: Result)
      requires remainingMatchLength == -1
      requires EncodesNode(bytes, start, t) && Ordered(t)
      modifies this
      ensures Now() == AfterNode(bytes, start, -1, inByte)
      ensures IsState(Step(t, inByte)) && r == OptionResult(Step(t, inByte))
    {
      hide EncodesNode, EncodesBranch, Ordered, IsStateOf, AfterNode, BranchTarget, Step, OptionResult, HoldsUnits;
      AfterNodeIs(bytes, start, t, inByte);
      ResultAtIs(bytes, AfterNode(bytes, start, -1, inByte), Step(t, inByte));
      var p := start;
      ghost var cur := t;
      while true
        invariant EncodesNode(bytes, p, cur) && cur.next == t.next && remainingMatchLength == -1
        invariant AfterNode(bytes, p, -1, inByte) == AfterNode(bytes, start, -1, inByte)
        decreases if cur.value.Some? then 1 else 0
      {
        NodeCases(bytes, p, cur);
        AfterNodeCases(bytes, p, -1, inByte);
        var node := bytes[p];
        p := p + 1;
        if node < MIN_LINEAR_MATCH {
          OrderedBranch(t);
          r := BranchNext(p, node, inByte, cur.next.edges);
          ResultAtIs(bytes, Now(), FindEdge(cur.next.edges, inByte));
          return;
        } else if node < MIN_VALUE_LEAD {
          var length := node - MIN_LINEAR_MATCH;
          HoldsTail(bytes, p, cur.next.units);
          if inByte == bytes[p] {
            length := length - 1;
            remainingMatchLength := length;
            pos := p + 1;
            r := Current(Step(t, inByte));
            return;
          } else {
            break;
          }
        } else if node % 2 == 1 {
          break;
        } else {
          p := p + SkipValue(node);
          cur := Trie(None, cur.next);
        }
      }
      Stop();
      r := NO_MATCH;
    }

    /** Handles a branch node for both overloads of next(). */
    method BranchNext(start: int, length0: int, inByte: int, ghost edges: seq<Edge>) returns (r: Result)
      requires remainingMatchLength == -1
      requires 0 <= start && OrderedEdges(edges) && 2 <= |edges| <= 0x100
      requires length0 == 0 ==> start < |bytes| && bytes[start] == |edges| - 1 && EncodesBranch(bytes, start + 1, edges)
      requires length0 != 0 ==> length0 == |edges| - 1 && EncodesBranch(bytes, start, edges)
      modifies this`pos
      ensures pos == BranchTarget(bytes, if length0 == 0 then start + 1 else start, |edges|, inByte)
      ensures IsState(FindEdge(edges, inByte)) && r == OptionResult(FindEdge(edges, inByte))
    {
      hide EncodesBranch, EncodesList, OrderedEdges, IsStateOf, FindEdge, ListTarget, BranchTarget, OptionResult;
      hide JumpTarget, AfterDelta, IsDelta;
      var length, p := length0, start;
      if length == 0 {
        length := bytes[p];
        p := p + 1;
      }
      length := length + 1;
      ghost var es, first := edges, p;
      BranchTargetIs(bytes, p, edges, inByte);
      BranchFacts(bytes, p, es);
      while length > MAX_BRANCH_LINEAR_SUB_NODE_LENGTH
        invariant EncodesBranch(bytes, p, es) && length == |es| >= 2
        invariant BranchTarget(bytes, p, length, inByte) == BranchTarget(bytes, first, |edges|, inByte)
        decreases length
      {
        BranchFacts(bytes, p, es);
        BranchTargetStep(bytes, p, length, inByte);
        if inByte < bytes[p] {
          es := es[..length / 2];
          length := length / 2;
          p := JumpTarget(bytes, p + 1);
        } else {
          es := es[length / 2..];
          length := length - length / 2;
          p := AfterDelta(bytes, p + 1);
        }
        BranchFacts(bytes, p, es);
      }
      BranchFacts(bytes, p, es);
      BranchTargetStep(bytes, p, length, inByte);
      r := ListNext(p, length, inByte, es);
      ResultAtIs(bytes, Now(), FindEdge(edges, inByte));
    }

    /** The linear search through the last few units. */
    method ListNext(start: int, length0: int, inByte: int, ghost edges: seq<Edge>) returns (r: Result)
      requires remainingMatchLength == -1
      requires EncodesList(bytes, start, edges) && length0 == |edges| >= 2
      modifies this`pos
      ensures pos == ListTarget(bytes, start, length0, inByte) && r == ResultAt(bytes, Now())
    {
      hide EncodesList, EncodesNode;
      var p, length := start, length0;
      ghost var es := edges;
      while length > 1
        invariant EncodesList(bytes, p, es) && length == |es| >= 1
        invariant ListTarget(bytes, p, length, inByte) == ListTarget(bytes, start, length0, inByte)
        decreases length
      {
        ListFacts(bytes, p, es);
        if inByte == bytes[p] {
          p := p + 1;
          if IsFinal(bytes, p) {
            r := FINAL_VALUE;
          } else {
            // Use the non-final value as the jump delta.
            p := AfterValue(bytes, p) + ValueOf(bytes, p);
            NodeResultIs(bytes, p, es[0].child);
            r := NodeResult(bytes[p]);
          }
          pos := p;
          return;
        }
        length := length - 1;
        p := AfterValue(bytes, p + 1);
        es := es[1..];
      }
      ListFacts(bytes, p, es);
      if inByte == bytes[p] {
        pos := p + 1;
        NodeResultIs(bytes, pos, es[0].child);
        r := NodeResult(bytes[pos]);
      } else {
        Stop();
        r := NO_MATCH;
      }
    }

    /**
      * All of s from the current state. The characters of s are signed and, unlike
      * in next(int32_t), are compared as they are.
      */
    method NextString(s: seq<int>, sLength: int, ghost t: Option<Trie>) returns (r: Result)
      requires IsString(s, sLength)
      requires IsState(t) && (t.Some? ==> Ordered(t.value))
      modifies this
      ensures Now() == StringState(bytes, old(Now()), Input(s, sLength))
      ensures var t' := WalkOption(t, Input(s, sLength)); IsState(t') && r == OptionResult(t')
    {
      hide Moves, Move, AfterNode, WalkOption, StateAt, EncodesNode, Ordered, IsStateOf, StringState, OptionResult, Input, IsString, AtEnd, BranchTarget, FindEdge, EncodesBranch, HoldsUnits;
      ghost var input, st := Input(s, sLength), Now();
      EndOfInput(s, sLength, 0);
      NothingRead(bytes, st, t, input);
      if AtEnd(s, sLength, 0) {
        r := Current(t);
        return;
      }
      if pos == NULL {
        return NO_MATCH;
      }
      var p, length, i: nat := pos, remainingMatchLength, 0;
      while true
        invariant i <= |input| && State(p, length) == Moves(bytes, st, input[..i]) && p != NULL
        invariant remainingMatchLength == (if i <= st.left + 1 then st.left else -1)
        decreases |input| - i
      {
        EndOfInput(s, sLength, i);
        ReadSoFar(bytes, st, t, input, i);
        ghost var cur := WalkOption(t, input[..i]).value;
        if AtEnd(s, sLength, i) {
          pos, remainingMatchLength := p, length;
          r := Current(Some(cur));
          return;
        }
        var inByte := s[i];
        ghost var before := i;
        MovesSnoc(bytes, st, input, i);
        i := i + 1;
        if length < 0 {
          remainingMatchLength := length;
          var done;
          done, r, p, length, i := NextNodes(p, inByte, s, sLength, i, st, t, input);
          if done {
            return;
          }
        } else {
          PendingMove(bytes, State(p, length), cur, inByte);
          if inByte != bytes[p] {
            Stop();
            MismatchAt(bytes, st, t, input, before);
            r := NO_MATCH;
            return;
          }
          p := p + 1;
          length := length - 1;
        }
      }
    }

    /**
      * Follows nodes for inByte, which is input[i0 - 1], and for further input as long as
      * branches lead to branches; stops inside the first linear-match node.
      */
    method NextNodes(start: int, inByte0: int, s: seq<int>, sLength: int, i0: nat, ghost st: State, ghost t: Option<Trie>, ghost input: seq<int>)
      returns (done: bool, r: Result, p: int, length: int, i: nat)
      requires IsString(s, sLength) && input == Input(s, sLength)
      requires IsStateOf(bytes, st, t) && (t.Some? ==> Ordered(t.value))
      requires remainingMatchLength == -1
      requires 0 < i0 <= |input| && inByte0 == input[i0 - 1] && st.left + 1 < i0
      requires Moves(bytes, st, input[..i0 - 1]) == State(start, -1) && start != NULL
      modifies this
      ensures done ==> Now() == StringState(bytes, st, input)
      ensures done ==> var t' := WalkOption(t, input); IsState(t') && r == OptionResult(t')
      ensures !done ==> i0 <= i <= |input| && State(p, length) == Moves(bytes, st, input[..i]) && p != NULL
      ensures !done ==> remainingMatchLength == -1
    {
      hide Moves, Move, AfterNode, WalkOption, StateAt, EncodesNode, Ordered, IsStateOf, StringState, OptionResult, Input, IsString, AtEnd, BranchTarget, FindEdge, EncodesBranch, HoldsUnits;
      p, i, length, r, done := start, i0, -1, NO_MATCH, true;
      var inByte := inByte0;
      ReadSoFar(bytes, st, t, input, i - 1);
      MovesSnoc(bytes, st, input, i - 1);
      FromNode(bytes, start, inByte);
      ghost var cur := WalkOption(t, input[..i - 1]).value;
      ghost var node0 := cur;
      while true
        invariant 0 < i <= |input| && i0 <= i && inByte == input[i - 1] && remainingMatchLength == -1
        invariant Moves(bytes, st, input[..i - 1]).pos != NULL
        invariant AfterNode(bytes, p, -1, inByte) == Moves(bytes, st, input[..i])
        invariant EncodesNode(bytes, p, node0) && Ordered(cur) && node0.next == cur.next
        decreases |input| - i, if node0.value.Some? then 1 else 0
      {
        NodeCases(bytes, p, node0);
        AfterNodeCases(bytes, p, -1, inByte);
        var node := bytes[p];
        p := p + 1;
        if node < MIN_LINEAR_MATCH {
          OrderedBranch(cur);
          r := BranchNext(p, node, inByte, cur.next.edges);
          NoMatchIsStop(FindEdge(cur.next.edges, inByte));
          ResultAtIs(bytes, Now(), FindEdge(cur.next.edges, inByte));
          if r == NO_MATCH {
            MismatchAt(bytes, st, t, input, i - 1);
            return true, r, p, length, i;
          }
          ReadSoFar(bytes, st, t, input, i);
          EndOfInput(s, sLength, i);
          cur := WalkOption(t, input[..i]).value;
          ResultAtIs(bytes, Now(), Some(cur));
          if AtEnd(s, sLength, i) {
            return true, r, p, length, i;
          }
          inByte := s[i];
          MovesSnoc(bytes, st, input, i);
          FromNode(bytes, pos, inByte);
          node0 := cur;
          i := i + 1;
          if r == FINAL_VALUE {
            FinalStops(bytes, pos, cur, inByte);
            Stop();
            MismatchAt(bytes, st, t, input, i - 1);
            return true, NO_MATCH, p, length, i;
          }
          p := pos;
        } else if node < MIN_VALUE_LEAD {
          length := node - MIN_LINEAR_MATCH;
          HoldsTail(bytes, p, node0.next.units);
          if inByte != bytes[p] {
            break;
          }
          return false, r, p + 1, length - 1, i;
        } else if node % 2 == 1 {
          break;
        } else {
          p := p + SkipValue(node);
          node0 := Trie(None, node0.next);
        }
      }
      Stop();
      MismatchAt(bytes, st, t, input, i - 1);
      return true, NO_MATCH, p, length, i;
    }

    /** One call of next(int32_t) for each character. */
    method NextEach(s: seq<int>, ghost t: Option<Trie>) returns (r: Result)
      requires IsState(t) && (t.Some? ==> Ordered(t.value))
      modifies this
      ensures Now() == Moves(bytes, old(Now()), AdjustedAll(s))
      ensures var t' := WalkOption(t, AdjustedAll(s)); IsState(t') && r == OptionResult(t')
    {
      hide StateAt, Walk, Ordered, Step, Move, IsStateOf;
      ghost var st, all := Now(), AdjustedAll(s);
      r := Current(t);
      NothingRead(bytes, st, t, all);
      for i := 0 to |s|
        invariant Now() == Moves(bytes, st, all[..i])
        invariant IsState(WalkOption(t, all[..i])) && r == OptionResult(WalkOption(t, all[..i]))
      {
        MovesIsWalk(bytes, st, t, all[..i]);
        MovesSnoc(bytes, st, all, i);
        MovesIsWalk(bytes, st, t, all[..i + 1]);
        ghost var before := WalkOption(t, all[..i]);
        WalkOptionSnoc(t, all, i);
        r := Next(s[i], before);
        OneStep(before, all[i]);
      }
      assert all[..|s|] == all;
    }

    /** Each byte that continues the input so far, in ascending order. */
    method GetNextBytes(ghost t: Option<Trie>) returns (out: seq<Byte>)
      requires IsState(t)
      ensures out == NextUnits(t)
    {
      if pos == NULL {
        return [];
      }
      var p := pos;
      if remainingMatchLength >= 0 {
        assert bytes[p + 0] == t.value.next.units[0];
        return [bytes[p]];
      }
      NodeCases(bytes, p, t.value);
      var node := bytes[p];
      p := p + 1;
      ghost var c := t.value;
      if node >= MIN_VALUE_LEAD {
        if node % 2 == 1 {
          return [];
        }
        p := p + SkipValue(node);
        c := Trie(None, c.next);
        NodeCases(bytes, p, c);
        node := bytes[p];
        p := p + 1;
      }
      if node < MIN_LINEAR_MATCH {
        if node == 0 {
          node := bytes[p];
          p := p + 1;
        }
        out := GetNextBranchBytes(p, node + 1, c.next.edges);
      } else {
        assert bytes[p + 0] == c.next.units[0];
        out := [bytes[p]];
      }
    }

    method GetNextBranchBytes(start: int, length0: int, ghost edges: seq<Edge>) returns (out: seq<Byte>)
      requires EncodesBranch(bytes, start, edges) && length0 == |edges|
      ensures out == UnitsOf(edges)
      decreases |edges|
    {
      hide EncodesBranch, EncodesList, JumpTarget, AfterDelta, AfterValue, UnitsOf, IsDelta, IsValueLead, EncodesNode;
      NoUnits(edges);
      var p, length := start, length0;
      ghost var es := edges;
      out := [];
      while length > MAX_BRANCH_LINEAR_SUB_NODE_LENGTH
        invariant EncodesBranch(bytes, p, es) && length == |es| <= |edges|
        invariant out + UnitsOf(es) == UnitsOf(edges)
        decreases length
      {
        BranchFacts(bytes, p, es);
        var half := GetNextBranchBytes(JumpTarget(bytes, p + 1), length / 2, es[..length / 2]);
        ghost var before := out;
        out := out + half;
        UnitsSplit(es, length / 2, before);
        es := es[length / 2..];
        length := length - length / 2;
        p := AfterDelta(bytes, p + 1);
      }
      BranchFacts(bytes, p, es);
      while length > 1
        invariant EncodesList(bytes, p, es) && length == |es| >= 1
        invariant out + UnitsOf(es) == UnitsOf(edges)
        decreases length
      {
        ListFacts(bytes, p, es);
        UnitsFirst(es, out);
        out := out + [bytes[p]];
        es := es[1..];
        length := length - 1;
        p := AfterValue(bytes, p + 1);
      }
      ListFacts(bytes, p, es);
      UnitsFirst(es, out);
      out := out + [bytes[p]];
    }
  }

  function UnitsOf(edges: seq<Edge>): seq<Byte> {
    seq(|edges|, i requires 0 <= i < |edges| => edges[i].unit)
  }

  lemma NoUnits(edges: seq<Edge>)
    ensures [] + UnitsOf(edges) == UnitsOf(edges)
  {
  }

  lemma UnitsSplit(edges: seq<Edge>, half: nat, before: seq<Byte>)
    requires half <= |edges|
    ensures before + UnitsOf(edges) == (before + UnitsOf(edges[..half])) + UnitsOf(edges[half..])
  {
    assert UnitsOf(edges) == UnitsOf(edges[..half]) + UnitsOf(edges[half..]);
  }

  lemma UnitsFirst(edges: seq<Edge>, before: seq<Byte>)
    requires edges != []
    ensures before + UnitsOf(edges) == (before + [edges[0].unit]) + UnitsOf(edges[1..])
    ensures |edges| == 1 ==> before + UnitsOf(edges) == before + [edges[0].unit]
  {
    assert UnitsOf(edges) == [edges[0].unit] + UnitsOf(edges[1..]);
  }

  function NextUnits(t: Option<Trie>): seq<Byte> {
    match t
    case None => []
    case Some(c) =>
      match c.next
      case End => []
      case Linear(units, _) => units[..if units == [] then 0 else 1]
      case Branch(edges) => UnitsOf(edges)
  }

  /** The bytes listed are exactly those that next() would match. */
  lemma NextUnitsAreTheSteps(t: Trie, u: Byte)
    requires Ordered(t)
    ensures u in NextUnits(Some(t)) <==> Step(t, u).Some?
  {
    match t.next
    case End =>
    case Linear(units, _) => assert units[..1] == [units[0]];
    case Branch(edges) =>
      FindEdgeIsMember(edges, u);
      if u in UnitsOf(edges) {
        var i :| 0 <= i < |edges| && UnitsOf(edges)[i] == u;
        assert edges[i].unit == u;
      }
      if Step(t, u).Some? {
        var i :| 0 <= i < |edges| && edges[i].unit == u;
        assert UnitsOf(edges)[i] == u;
      }
  }
}
