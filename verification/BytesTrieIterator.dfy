/** Iterating over all entries of a serialized trie, with a packed stack of branches to come back to. */
module BytesTrieIterators {
  import opened Basics
  import opened TrieFormat
  import opened Tries
  import opened TrieEncoding
  import opened TrieNodes
  import opened TrieStates

  datatype Error = ZERO_ERROR | INDEX_OUTOFBOUNDS_ERROR | NO_WRITE_PERMISSION | ILLEGAL_ARGUMENT_ERROR

  /** NULL plus a length: not NULL, and no position in the bytes. */
  const STRAY := -2

  const MAX_KEY_LENGTH := 0xFFFF

  // ---------- what a position in a branch stands for ----------

  /** The edges from a position inside a branch node on; a single last one may follow in place. */
  ghost predicate EncodesEdges(b: seq<Byte>, pos: int, edges: seq<Edge>) {
    if |edges| == 1 then EncodesList(b, pos, edges) else EncodesBranch(b, pos, edges)
  }

  /** One stack entry: the edges still to visit after the first len bytes of the string. */
  datatype Frame = Frame(at: int, len: nat, edges: seq<Edge>)

  ghost predicate FrameReady(b: seq<Byte>, f: Frame) {
    && f.len < MAX_KEY_LENGTH
    && 1 <= |f.edges| <= 0x100
    && OrderedEdges(f.edges)
    && EncodesEdges(b, f.at, f.edges)
  }

  /** Later frames belong to longer prefixes. */
  ghost predicate FramesReady(b: seq<Byte>, frames: seq<Frame>, length: nat) {
    && (forall k :: 0 <= k < |frames| ==> FrameReady(b, frames[k]) && frames[k].len <= length)
    && (forall j, k :: 0 <= j < k < |frames| ==> frames[j].len <= frames[k].len)
  }

  function Packed(f: Frame): int {
    |f.edges| * 0x10000 + f.len
  }

  /** The integers on the stack: offset and packed length, per frame. */
  function Stack(frames: seq<Frame>): seq<int> {
    if frames == [] then [] else Stack(frames[..|frames| - 1]) + [frames[|frames| - 1].at, Packed(frames[|frames| - 1])]
  }

  /** What the stack still has to deliver, the top frame first. */
  ghost function StackEntries(frames: seq<Frame>, str: seq<Byte>): seq<Entry> {
    if frames == [] then []
    else
      var top := frames[|frames| - 1];
      Prefixed(FirstUnits(str, top.len), EdgeEntries(top.edges)) + StackEntries(frames[..|frames| - 1], str)
  }

  function FirstUnits(str: seq<Byte>, len: nat): seq<Byte> {
    if len <= |str| then str[..len] else str
  }

  ghost predicate KeysFit(es: seq<Entry>) {
    forall e :: e in es ==> |e.key| <= MAX_KEY_LENGTH
  }

  lemma PrefixedConcat(p: seq<Byte>, a: seq<Entry>, b: seq<Entry>)
    ensures Prefixed(p, a + b) == Prefixed(p, a) + Prefixed(p, b)
  {
  }

  lemma PrefixedTwice(p: seq<Byte>, q: seq<Byte>, es: seq<Entry>)
    ensures Prefixed(p, Prefixed(q, es)) == Prefixed(p + q, es)
  {
    forall i | 0 <= i < |es| ensures p + (q + es[i].key) == (p + q) + es[i].key {
    }
  }

  /** Only the first len bytes of the string matter to the stack. */
  lemma {:induction false} StackEntriesKept(frames: seq<Frame>, str: seq<Byte>, str': seq<Byte>, len: nat)
    requires len <= |str| && len <= |str'| && str[..len] == str'[..len]
    requires forall k :: 0 <= k < |frames| ==> frames[k].len <= len
    ensures StackEntries(frames, str) == StackEntries(frames, str')
  {
    if frames != [] {
      var top := frames[|frames| - 1];
      assert str[..top.len] == str[..len][..top.len] == str'[..len][..top.len] == str'[..top.len];
      StackEntriesKept(frames[..|frames| - 1], str, str', len);
    }
  }

  lemma EdgesHaveEntry(edges: seq<Edge>) returns (e: Entry)
    requires OrderedEdges(edges) && edges != []
    ensures e in EdgeEntries(edges) && e.key != []
  {
    assert OrderedEdge(edges[0]);
    var c := SomeEntry(edges[0].child);
    e := Entry([edges[0].unit] + c.key, c.value);
    PrefixedHas([edges[0].unit], Entries(edges[0].child), c.key, c.value);
    assert e in EntriesOf(edges[0]);
  }

  /** A string that still has edges to follow is shorter than the longest key. */
  lemma StringIsShort(str: seq<Byte>, edges: seq<Edge>, rest: seq<Entry>)
    requires OrderedEdges(edges) && edges != []
    requires KeysFit(Prefixed(str, EdgeEntries(edges)) + rest)
    ensures |str| < MAX_KEY_LENGTH
  {
    var e := EdgesHaveEntry(edges);
    PrefixedHas(str, EdgeEntries(edges), e.key, e.value);
    assert Entry(str + e.key, e.value) in Prefixed(str, EdgeEntries(edges)) + rest;
  }

  lemma NodeStringFits(str: seq<Byte>, t: Trie, rest: seq<Entry>)
    requires Ordered(t)
    requires KeysFit(Prefixed(str, Entries(t)) + rest)
    ensures |str| <= MAX_KEY_LENGTH
  {
    var e := SomeEntry(t);
    PrefixedHas(str, Entries(t), e.key, e.value);
    assert Entry(str + e.key, e.value) in Prefixed(str, Entries(t)) + rest;
  }

  /** Splitting a branch: the upper half goes on the stack. */
  lemma SplitEntries(str: seq<Byte>, edges: seq<Edge>, half: nat, rest: seq<Entry>)
    requires half <= |edges|
    ensures Prefixed(str, EdgeEntries(edges)) + rest ==
            Prefixed(str, EdgeEntries(edges[..half])) + (Prefixed(str, EdgeEntries(edges[half..])) + rest)
  {
    hide *;
    var lt, ge := edges[..half], edges[half..];
    assert edges == lt + ge;
    EdgeEntriesConcat(lt, ge);
    PrefixedConcat(str, EdgeEntries(lt), EdgeEntries(ge));
    ConcatAssociates(Prefixed(str, EdgeEntries(lt)), Prefixed(str, EdgeEntries(ge)), rest);
  }

  lemma ConcatAssociates(a: seq<Entry>, b: seq<Entry>, c: seq<Entry>)
    ensures (a + b) + c == a + (b + c)
  {
  }

  /** Taking the first edge: the others go on the stack. */
  lemma FirstEdgeEntries(str: seq<Byte>, edges: seq<Edge>, rest: seq<Entry>)
    requires edges != []
    ensures Prefixed(str, EdgeEntries(edges)) + rest ==
            Prefixed(str + [edges[0].unit], Entries(edges[0].child)) + (Prefixed(str, EdgeEntries(edges[1..])) + rest)
  {
    var e := edges[0];
    PrefixedConcat(str, EntriesOf(e), EdgeEntries(edges[1..]));
    PrefixedTwice(str, [e.unit], Entries(e.child));
  }

  lemma LinearEntriesFrom(str: seq<Byte>, units: seq<Byte>, child: Trie)
    ensures Prefixed(str, Entries(Trie(None, Linear(units, child)))) == Prefixed(str + units, Entries(child))
  {
    assert Entries(Trie(None, Linear(units, child))) == Prefixed(units, Entries(child));
    PrefixedTwice(str, units, Entries(child));
  }

  lemma BranchEntriesFrom(str: seq<Byte>, edges: seq<Edge>)
    ensures Prefixed(str, Entries(Trie(None, Branch(edges)))) == Prefixed(str, EdgeEntries(edges))
  {
    assert Entries(Trie(None, Branch(edges))) == EdgeEntries(edges);
  }

  lemma ValueEntriesFrom(str: seq<Byte>, v: int, next: Next)
    ensures Prefixed(str, Entries(Trie(Some(v), next))) == [Entry(str, v)] + Prefixed(str, Entries(Trie(None, next)))
  {
    assert Entries(Trie(None, next)) == NextEntries(next);
    assert Entries(Trie(Some(v), next)) == [Entry([], v)] + NextEntries(next);
    PrefixedConcat(str, [Entry([], v)], NextEntries(next));
    assert str + [] == str;
    assert Prefixed(str, [Entry([], v)]) == [Entry(str, v)];
  }

  lemma EndEntriesFrom(str: seq<Byte>, v: int)
    ensures Prefixed(str, Entries(Trie(Some(v), End))) == [Entry(str, v)]
  {
    ValueEntriesFrom(str, v, End);
    assert Entries(Trie(None, End)) == [];
  }

  // ---------- the iterator ----------

  lemma EdgesCases(b: seq<Byte>, at: int, edges: seq<Edge>)
    requires EncodesEdges(b, at, edges) && |edges| >= 1
    ensures |edges| >= 2 ==> EncodesBranch(b, at, edges)
    ensures |edges| == 1 ==> 0 <= at < |b| && b[at] == edges[0].unit && EncodesNode(b, at + 1, edges[0].child)
  {
    if |edges| == 1 { ListFacts(b, at, edges); }
  }

  lemma ListIsEdges(b: seq<Byte>, at: int, edges: seq<Edge>)
    requires EncodesList(b, at, edges) && 1 <= |edges| <= MAX_BRANCH_LINEAR_SUB_NODE_LENGTH
    ensures EncodesEdges(b, at, edges)
  {
  }

  lemma OrderedRest(edges: seq<Edge>)
    requires OrderedEdges(edges) && edges != []
    ensures OrderedEdges(edges[1..]) && Ordered(edges[0].child)
  {
    assert OrderedEdge(edges[0]);
  }

  lemma OrderedParts(t: Trie)
    requires Ordered(t)
    ensures !t.next.End? ==> Ordered(Trie(None, t.next))
    ensures t.next.Linear? ==> Ordered(t.next.child) && |t.next.units| >= 1
    ensures t.next.Branch? ==> OrderedEdges(t.next.edges)
  {
  }

  /** The integers on the stack stand for frames that are ready to be visited. */
  ghost predicate Stacked(b: seq<Byte>, stack: seq<int>, frames: seq<Frame>, length: nat) {
    stack == Stack(frames) && FramesReady(b, frames, length)
  }

  lemma StackPushed(b: seq<Byte>, stack: seq<int>, frames: seq<Frame>, str: seq<Byte>, f: Frame)
    requires Stacked(b, stack, frames, |str|) && FrameReady(b, f) && f.len == |str|
    ensures Stacked(b, stack + [f.at, Packed(f)], frames + [f], |str|)
    ensures StackEntries(frames + [f], str) == Prefixed(str, EdgeEntries(f.edges)) + StackEntries(frames, str)
  {
    hide FrameReady;
    assert (frames + [f])[..|frames|] == frames;
    assert str[..f.len] == str;
  }

  lemma StackKept(b: seq<Byte>, stack: seq<int>, frames: seq<Frame>, str: seq<Byte>, units: seq<Byte>)
    requires Stacked(b, stack, frames, |str|)
    ensures Stacked(b, stack, frames, |str + units|)
    ensures StackEntries(frames, str + units) == StackEntries(frames, str)
  {
    hide FrameReady;
    assert (str + units)[..|str|] == str[..|str|];
    StackEntriesKept(frames, str, str + units, |str|);
  }

  /** Popping the top frame: what it packed, and what it stands for. */
  lemma StackPopped(b: seq<Byte>, stack: seq<int>, frames: seq<Frame>, str: seq<Byte>)
    requires stack != [] && Stacked(b, stack, frames, |str|)
    ensures frames != [] && |stack| >= 2
    ensures var top, below := frames[|frames| - 1], frames[..|frames| - 1];
            && FrameReady(b, top) && top.len <= |str|
            && stack[|stack| - 2] == top.at
            && stack[|stack| - 1] % 0x10000 == top.len && stack[|stack| - 1] / 0x10000 == |top.edges|
            && Stacked(b, stack[..|stack| - 2], below, top.len)
            && StackEntries(frames, str) ==
               Prefixed(str[..top.len], EdgeEntries(top.edges)) + StackEntries(below, str[..top.len])
  {
    hide FrameReady, EdgeEntries, Prefixed;
    var top, below := frames[|frames| - 1], frames[..|frames| - 1];
    FrameFacts(b, top);
    StackEntriesKept(below, str, str[..top.len], top.len);
    assert stack == Stack(below) + [top.at, Packed(top)];
    assert stack[..|stack| - 2] == Stack(below);
  }

  lemma FrameFacts(b: seq<Byte>, f: Frame)
    requires FrameReady(b, f)
    ensures f.len < MAX_KEY_LENGTH && 1 <= |f.edges| <= 0x100
    ensures OrderedEdges(f.edges) && EncodesEdges(b, f.at, f.edges)
  {
  }

  ghost function EntriesLeft(t: Option<Trie>): seq<Entry> {
    match t
    case None => []
    case Some(c) => Entries(c)
  }

  /** The bytes of a pending linear-match node. */
  ghost function PendingUnits(left: int, t: Option<Trie>): seq<Byte> {
    if t.Some? && left >= 0 && t.value.next.Linear? then t.value.next.units else []
  }

  /** What is left after them. */
  ghost function AfterPending(left: int, t: Trie): Trie {
    if left >= 0 && t.next.Linear? then t.next.child else t
  }

  /** A pending linear-match node starts the string of every entry. */
  lemma PendingFirst(b: seq<Byte>, st: State, t: Trie)
    requires IsStateOf(b, st, Some(t)) && Ordered(t)
    ensures var units, rest := PendingUnits(st.left, Some(t)), AfterPending(st.left, t);
            && |units| == st.left + 1 && HoldsUnits(b, st.pos, units)
            && EncodesNode(b, st.pos + |units|, rest) && Ordered(rest)
            && Prefixed(units, Entries(rest)) == Entries(t)
    ensures forall e :: e in Entries(t) ==> PendingUnits(st.left, Some(t)) <= e.key
  {
    var units, rest := PendingUnits(st.left, Some(t)), AfterPending(st.left, t);
    if st.left >= 0 {
      LinearEntriesFrom([], units, rest);
      assert [] + units == units;
      assert t == Trie(None, Linear(units, rest));
    }
    PrefixedEmpty(Entries(t));
    forall e | e in Entries(t) ensures units <= e.key {
      PrefixedStartsWith(units, Entries(rest), e);
    }
  }

  /** Some of all have been delivered, from the first on, and these remain. */
  predicate IsRestOf(rest: seq<Entry>, all: seq<Entry>) {
    |rest| <= |all| && rest == all[|all| - |rest|..]
  }

  class Iterator {
    const bytes: seq<Byte>
    const initialPos: int
    const initialRemainingMatchLength: int
    const errorCode: Error           // what the constructor leaves in its argument
    var pos: int
    var str: seq<Byte>
    var value: int
    var stack: seq<int>
    ghost const start: Option<Trie>  // what is left in the initial state
    ghost var frames: seq<Frame>     // what the integers on the stack stand for
    ghost var cur: Trie              // the node at pos, if it is not NULL

    ghost predicate Valid()
      reads this
    {
      && errorCode == ZERO_ERROR
      && pos != STRAY
      && Stacked(bytes, stack, frames, |str|)
      && (pos != NULL ==> EncodesNode(bytes, pos, cur) && Ordered(cur))
      && KeysFit(Pending())
      && CanReset()
    }

    /** What coming back to the initial state relies on. */
    ghost predicate CanReset()
      reads this
    {
      && IsStateOf(bytes, State(initialPos, initialRemainingMatchLength), start)
      && (start.Some? ==> Ordered(start.value)) && KeysFit(EntriesLeft(start))
      && (start.None? ==> initialRemainingMatchLength == -1)
      && PendingUnits(initialRemainingMatchLength, start) <= str
      && IsRestOf(Pending(), EntriesLeft(start))
    }

    /** Everything not delivered yet, in order. */
    ghost function Pending(): seq<Entry>
      reads this
    {
      (if pos == NULL then [] else Prefixed(str, Entries(cur))) + StackEntries(frames, str)
    }

    /**
      * Iterates from a reader state; the rest of a pending linear-match node starts the string.
      * A stopped reader has nothing left, but its match length is used all the same.
      */
    constructor (trieBytes: seq<Byte>, pos0: int, remainingMatchLength: int, errorCode0: Error, ghost t: Option<Trie>)
      requires IsStateOf(trieBytes, State(pos0, remainingMatchLength), t)
      requires (t.Some? ==> Ordered(t.value)) && KeysFit(EntriesLeft(t))
      ensures bytes == trieBytes && initialPos == pos0 && initialRemainingMatchLength == remainingMatchLength && start == t
      ensures errorCode ==
        if errorCode0 != ZERO_ERROR then errorCode0
        else if pos0 == NULL && remainingMatchLength >= 0 then ILLEGAL_ARGUMENT_ERROR
        else ZERO_ERROR
      ensures errorCode == ZERO_ERROR ==> Valid() && Pending() == EntriesLeft(t)
      ensures errorCode0 == ZERO_ERROR && errorCode != ZERO_ERROR ==> pos == STRAY
    {
      bytes, initialPos, initialRemainingMatchLength, start := trieBytes, pos0, remainingMatchLength, t;
      value, stack, frames, str, pos := 0, [], [], [], pos0;
      errorCode := errorCode0;
      cur := if t.Some? then AfterPending(remainingMatchLength, t.value) else Trie(None, End);
      if errorCode0 == ZERO_ERROR && remainingMatchLength >= 0 {
        var length := remainingMatchLength + 1;
        if pos0 == NULL {
          errorCode := ILLEGAL_ARGUMENT_ERROR;
          pos := STRAY;
        } else {
          PendingInside(trieBytes, State(pos0, remainingMatchLength), t);
          str := trieBytes[pos0..pos0 + length];
          pos := pos0 + length;
        }
      }
      new;
      if errorCode == ZERO_ERROR {
        StartsOver();
      }
    }

    /** In the initial state everything is pending. */
    lemma StartsOver()
      requires IsStateOf(bytes, State(initialPos, initialRemainingMatchLength), start)
      requires (start.Some? ==> Ordered(start.value)) && KeysFit(EntriesLeft(start))
      requires errorCode == ZERO_ERROR && (start.None? ==> initialRemainingMatchLength == -1)
      requires stack == [] && frames == [] && str == PendingUnits(initialRemainingMatchLength, start)
      requires start.None? ==> pos == NULL
      requires start.Some? ==> pos == initialPos + |str| && cur == AfterPending(initialRemainingMatchLength, start.value)
      ensures Valid() && Pending() == EntriesLeft(start)
    {
      hide EncodesNode, Ordered, Entries, Prefixed, StateAt, AfterPending, PendingUnits;
      assert Stacked(bytes, [], [], |str|);
      if start.Some? {
        PendingFirst(bytes, State(initialPos, initialRemainingMatchLength), start.value);
        NodeCases(bytes, pos, cur);
        assert Pending() == Prefixed(str, Entries(cur));
      } else {
        assert Pending() == [];
      }
    }

    /** Back to the initial state; the string still starts with the units that were pending there. */
    method Reset()
      requires Valid() || (pos == STRAY && initialPos == NULL && initialRemainingMatchLength >= 0)
      modifies this
      ensures old(pos) == STRAY ==> pos == STRAY
      ensures old(pos) != STRAY ==> Valid() && Pending() == EntriesLeft(start)
    {
      hide EncodesNode, Ordered, Entries, StackEntries;
      ghost var was := pos;
      pos := initialPos;
      var length := initialRemainingMatchLength + 1;
      if length < |str| {
        str := str[..length];
      }
      if pos == NULL && length > 0 {
        pos := STRAY;
      } else {
        pos := pos + length;
      }
      stack, frames := [], [];
      if was != STRAY {
        if start.Some? {
          PendingFirst(bytes, State(initialPos, initialRemainingMatchLength), start.value);
          cur := AfterPending(initialRemainingMatchLength, start.value);
        }
        StartsOver();
      }
    }

    method HasNext() returns (r: bool)
      requires Valid() || pos == STRAY
      ensures if pos == STRAY then r else r <==> Pending() != []
    {
      r := pos != NULL || stack != [];
      if pos == STRAY {
      } else if pos != NULL {
        var e := SomeEntry(cur);
        PrefixedHas(str, Entries(cur), e.key, e.value);
      } else if frames != [] {
        StackPopped(bytes, stack, frames, str);
        ghost var top := frames[|frames| - 1];
        ghost var e := EdgesHaveEntry(top.edges);
        PrefixedHas(str[..top.len], EdgeEntries(top.edges), e.key, e.value);
      }
    }

    /** Pushes the edges that remain after the current string. */
    method Push(at: int, ghost edges: seq<Edge>, length: nat)
      requires Stacked(bytes, stack, frames, |str|) && |str| < MAX_KEY_LENGTH
      requires 1 <= length == |edges| <= 0x100 && OrderedEdges(edges) && EncodesEdges(bytes, at, edges)
      modifies this`stack, this`frames
      ensures Stacked(bytes, stack, frames, |str|)
      ensures StackEntries(frames, str) == Prefixed(str, EdgeEntries(edges)) + old(StackEntries(frames, str))
    {
      hide Stacked, EncodesEdges, OrderedEdges, StackEntries, EdgeEntries, Prefixed;
      ghost var f := Frame(at, |str|, edges);
      StackPushed(bytes, stack, frames, str, f);
      stack := stack + [at, length * 0x10000 + |str|];
      frames := frames + [f];
    }

    method Append(units: seq<Byte>)
      requires Stacked(bytes, stack, frames, |str|)
      modifies this`str
      ensures Stacked(bytes, stack, frames, |str|) && str == old(str) + units
      ensures StackEntries(frames, str) == old(StackEntries(frames, str))
    {
      hide *;
      StackKept(bytes, stack, frames, str, units);
      str := str + units;
    }

    /** Takes the first outbound edge and pushes state for the others; NULL if that reached a final value. */
    method BranchNext(start: int, length0: nat, ghost edges0: seq<Edge>, ghost todo: seq<Entry>)
      returns (p: int, ghost node: Trie)
      requires Stacked(bytes, stack, frames, |str|)
      requires EncodesBranch(bytes, start, edges0) && OrderedEdges(edges0)
      requires 2 <= length0 == |edges0| <= 0x100
      requires todo == Prefixed(str, EdgeEntries(edges0)) + StackEntries(frames, str) && KeysFit(todo)
      modifies this`pos, this`str, this`value, this`stack, this`frames
      ensures Stacked(bytes, stack, frames, |str|) && |str| == |old(str)| + 1
      ensures p == NULL ==> pos == NULL && todo == [Entry(str, value)] + StackEntries(frames, str)
      ensures p != NULL ==> pos == old(pos) && value == old(value)
      ensures p != NULL ==> EncodesNode(bytes, p, node) && Ordered(node) && todo == Prefixed(str, Entries(node)) + StackEntries(frames, str)
    {
      hide *;
      var at, length := start, length0;
      ghost var edges := edges0;
      NonEmpty(edges);
      StringIsShort(str, edges, StackEntries(frames, str));
      BranchFacts(bytes, at, edges);
      while length > MAX_BRANCH_LINEAR_SUB_NODE_LENGTH
        invariant Stacked(bytes, stack, frames, |str|) && str == old(str) && pos == old(pos) && value == old(value)
        invariant EncodesBranch(bytes, at, edges) && OrderedEdges(edges) && 2 <= length == |edges| <= 0x100
        invariant todo == Prefixed(str, EdgeEntries(edges)) + StackEntries(frames, str)
        decreases length
      {
        at, length, edges := FollowLess(at, length, edges, todo);
      }
      p, node := TakeFirst(at, length, edges, todo);
    }

    /** Pushes the greater-or-equal edge of a split node and follows the other one. */
    method FollowLess(start: int, length0: nat, ghost edges0: seq<Edge>, ghost todo: seq<Entry>)
      returns (at: int, length: nat, ghost edges: seq<Edge>)
      requires Stacked(bytes, stack, frames, |str|) && |str| < MAX_KEY_LENGTH
      requires EncodesBranch(bytes, start, edges0) && OrderedEdges(edges0)
      requires MAX_BRANCH_LINEAR_SUB_NODE_LENGTH < length0 == |edges0| <= 0x100
      requires todo == Prefixed(str, EdgeEntries(edges0)) + StackEntries(frames, str)
      modifies this`stack, this`frames
      ensures Stacked(bytes, stack, frames, |str|)
      ensures EncodesBranch(bytes, at, edges) && OrderedEdges(edges) && 2 <= length == |edges| < length0
      ensures todo == Prefixed(str, EdgeEntries(edges)) + StackEntries(frames, str)
    {
      hide *;
      BranchFacts(bytes, start, edges0);
      ghost var half := length0 / 2;
      FindEdgeHalf(edges0, half, 0);
      BranchIsEdges(bytes, AfterDelta(bytes, start + 1), edges0[half..]);
      ghost var later := StackEntries(frames, str);
      Push(AfterDelta(bytes, start + 1), edges0[half..], length0 - length0 / 2);
      SplitEntries(str, edges0, half, later);
      at, length, edges := JumpTarget(bytes, start + 1), length0 / 2, edges0[..half];
      BranchFacts(bytes, at, edges);
    }

    /** Reads the first (unit, value) pair of a list and pushes the rest of the list. */
    method TakeFirst(at: int, length: nat, ghost edges: seq<Edge>, ghost todo: seq<Entry>)
      returns (p: int, ghost node: Trie)
      requires Stacked(bytes, stack, frames, |str|) && |str| < MAX_KEY_LENGTH
      requires EncodesBranch(bytes, at, edges) && OrderedEdges(edges)
      requires 2 <= length == |edges| <= MAX_BRANCH_LINEAR_SUB_NODE_LENGTH
      requires todo == Prefixed(str, EdgeEntries(edges)) + StackEntries(frames, str)
      modifies this`pos, this`str, this`value, this`stack, this`frames
      ensures Stacked(bytes, stack, frames, |str|) && |str| == |old(str)| + 1
      ensures p == NULL ==> pos == NULL && todo == [Entry(str, value)] + StackEntries(frames, str)
      ensures p != NULL ==> pos == old(pos) && value == old(value)
      ensures p != NULL ==> EncodesNode(bytes, p, node) && Ordered(node) && todo == Prefixed(str, Entries(node)) + StackEntries(frames, str)
    {
      hide *;
      BranchFacts(bytes, at, edges);
      ListFacts(bytes, at, edges);
      ListIsShort();
      ListIsEdges(bytes, AfterValue(bytes, at + 1), edges[1..]);
      OrderedRest(edges);
      FirstEdgeEntries(str, edges, StackEntries(frames, str));
      node := edges[0].child;
      var unit := bytes[at];
      var isFinal := IsFinal(bytes, at + 1);
      var v := ValueOf(bytes, at + 1);
      p := AfterValue(bytes, at + 1);
      Push(p, edges[1..], length - 1);
      Append([unit]);
      if isFinal {
        FinalNode(bytes, at + 1, node);
        EndEntriesFrom(str, v);
        pos := NULL;
        value := v;
        p := NULL;
      } else {
        NodeCases(bytes, p + v, node);
        NullIsNoPosition();
        p := p + v;
      }
    }

    /** Comes back to the branch on top of the stack. */
    method PopAndBranch() returns (done: bool, p: int, ghost node: Trie)
      requires Stacked(bytes, stack, frames, |str|) && stack != [] && pos == NULL
      requires KeysFit(StackEntries(frames, str))
      modifies this
      ensures Stacked(bytes, stack, frames, |str|)
      ensures done ==> pos == NULL && old(StackEntries(frames, str)) == [Entry(str, value)] + StackEntries(frames, str)
      ensures !done ==> EncodesNode(bytes, p, node) && Ordered(node)
      ensures !done ==> old(StackEntries(frames, str)) == Prefixed(str, Entries(node)) + StackEntries(frames, str)
    {
      hide *;
      ghost var todo := StackEntries(frames, str);
      NothingFirst(todo);
      StackPopped(bytes, stack, frames, str);
      ghost var top := frames[|frames| - 1];
      var length := stack[|stack| - 1];
      var at := stack[|stack| - 2];
      stack := stack[..|stack| - 2];
      frames := frames[..|frames| - 1];
      str := str[..length % 0x10000];
      length := length / 0x10000;
      FrameFacts(bytes, top);
      EdgesCases(bytes, at, top.edges);
      if length > 1 {
        p, node := BranchNext(at, length, top.edges, todo);
        done := p == NULL;
      } else {
        OrderedRest(top.edges);
        FirstEdgeEntries(str, top.edges, StackEntries(frames, str));
        NoEdges(top.edges, str);
        Append([bytes[at]]);
        done, p, node := false, at + 1, top.edges[0].child;
      }
    }

    /** Follows nodes from p until a value can be delivered. */
    method DeliverFrom(start: int, ghost node0: Trie, ghost todo: seq<Entry>)
      requires Stacked(bytes, stack, frames, |str|) && EncodesNode(bytes, start, node0) && Ordered(node0)
      requires todo == Prefixed(str, Entries(node0)) + StackEntries(frames, str) && KeysFit(todo)
      modifies this
      ensures Stacked(bytes, stack, frames, |str|) && (pos != NULL ==> EncodesNode(bytes, pos, cur) && Ordered(cur))
      ensures todo == [Entry(str, value)] + ((if pos == NULL then [] else Prefixed(str, Entries(cur))) + StackEntries(frames, str))
    {
      hide *;
      var p := start;
      ghost var node := node0;
      NodeStringFits(str, node, StackEntries(frames, str));
      while true
        invariant Stacked(bytes, stack, frames, |str|) && EncodesNode(bytes, p, node) && Ordered(node)
        invariant todo == Prefixed(str, Entries(node)) + StackEntries(frames, str)
        invariant |str| <= MAX_KEY_LENGTH
        decreases MAX_KEY_LENGTH - |str|
      {
        NodeCases(bytes, p, node);
        OrderedParts(node);
        var b := bytes[p];
        if b >= MIN_VALUE_LEAD {
          value := ValueOf(bytes, p);
          ValueSplit(str, node, StackEntries(frames, str));
          if b % 2 == 1 {
            pos := NULL;
          } else {
            pos := p + 1 + SkipValue(b);
            cur := Trie(None, node.next);
            NodeCases(bytes, pos, cur);
            NullIsNoPosition();
          }
          return;
        }
        var done;
        done, p, node := MatchNode(p, node, todo);
        if done {
          return;
        }
        NodeStringFits(str, node, StackEntries(frames, str));
      }
    }

    /** Follows one branch or linear-match node. */
    method MatchNode(start: int, ghost node0: Trie, ghost todo: seq<Entry>)
      returns (done: bool, p: int, ghost node: Trie)
      requires Stacked(bytes, stack, frames, |str|) && EncodesNode(bytes, start, node0) && Ordered(node0)
      requires start < |bytes| && bytes[start] < MIN_VALUE_LEAD
      requires todo == Prefixed(str, Entries(node0)) + StackEntries(frames, str) && KeysFit(todo)
      modifies this
      ensures Stacked(bytes, stack, frames, |str|) && |str| > |old(str)|
      ensures done ==> pos == NULL && todo == [Entry(str, value)] + StackEntries(frames, str)
      ensures !done ==> EncodesNode(bytes, p, node) && Ordered(node) && todo == Prefixed(str, Entries(node)) + StackEntries(frames, str)
    {
      hide *;
      NodeCases(bytes, start, node0);
      OrderedParts(node0);
      var b := bytes[start];
      p := start + 1;
      if b < MIN_LINEAR_MATCH {
        if b == 0 {
          b := bytes[p];
          p := p + 1;
        }
        BranchEntriesFrom(str, node0.next.edges);
        p, node := BranchNext(p, b + 1, node0.next.edges, todo);
        done := p == NULL;
      } else {
        var length := b - MIN_LINEAR_MATCH + 1;
        UnitsHeld(bytes, p, node0.next.units);
        LinearEntriesFrom(str, node0.next.units, node0.next.child);
        Append(bytes[p..p + length]);
        p := p + length;
        done, node := false, node0.next.child;
      }
    }

    /** Delivers the first pending entry in str and value, or reports that there is none. */
    method Next(errorCode0: Error) returns (found: bool)
      requires errorCode0 == ZERO_ERROR ==> Valid()
      modifies this
      ensures errorCode0 != ZERO_ERROR ==> !found && unchanged(this)
      ensures errorCode0 == ZERO_ERROR ==>
        && Valid() && (found <==> old(Pending()) != [])
        && (found ==> Entry(str, value) == old(Pending())[0] && Pending() == old(Pending())[1..])
        && (!found ==> Pending() == [])
    {
      hide Stacked, EncodesNode, Ordered, Entries, StackEntries, Prefixed, IsStateOf, PendingUnits, IsRestOf, KeysFit, EntriesLeft;
      if errorCode0 != ZERO_ERROR {
        return false;
      }
      ghost var todo := Pending();
      var p := pos;
      ghost var node := cur;
      if p == NULL {
        if stack == [] {
          NoFrames(bytes, stack, frames, str);
          assert todo == [];
          return false;
        }
        var done;
        NothingFirst(StackEntries(frames, str));
        done, p, node := PopAndBranch();
        if done {
          NothingFirst(StackEntries(frames, str));
          RestAfter(todo, Entry(str, value), Pending(), start, initialRemainingMatchLength, bytes, initialPos);
          return true;
        }
      }
      DeliverFrom(p, node, todo);
      if pos != NULL { NodeIsInside(bytes, pos, cur); }
      RestAfter(todo, Entry(str, value), Pending(), start, initialRemainingMatchLength, bytes, initialPos);
      return true;
    }
  }

  lemma NodeIsInside(b: seq<Byte>, p: int, t: Trie)
    requires EncodesNode(b, p, t)
    ensures p >= 0
  {
  }

  lemma NoFrames(b: seq<Byte>, stack: seq<int>, frames: seq<Frame>, str: seq<Byte>)
    requires Stacked(b, stack, frames, |str|) && stack == []
    ensures StackEntries(frames, str) == []
  {
  }

  lemma PendingInside(b: seq<Byte>, st: State, t: Option<Trie>)
    requires IsStateOf(b, st, t) && st.left >= 0 && st.pos != NULL
    ensures t.Some? && 0 <= st.pos && st.pos + st.left + 1 <= |b|
    ensures b[st.pos..st.pos + st.left + 1] == PendingUnits(st.left, t)
  {
  }

  /** Delivering the first of what remains leaves the rest, and a string that starts like all the others. */
  lemma RestAfter(todo: seq<Entry>, e: Entry, rest: seq<Entry>, t: Option<Trie>, left: int, b: seq<Byte>, pos: int)
    requires todo == [e] + rest && IsRestOf(todo, EntriesLeft(t)) && KeysFit(todo)
    requires IsStateOf(b, State(pos, left), t) && (t.Some? ==> Ordered(t.value))
    ensures rest == todo[1..] && todo != [] && e == todo[0]
    ensures IsRestOf(rest, EntriesLeft(t)) && KeysFit(rest) && PendingUnits(left, t) <= e.key
  {
    hide Entries, Ordered, IsStateOf, PendingUnits;
    var all := EntriesLeft(t);
    assert all[|all| - |todo|] == e;
    assert all[|all| - |rest|..] == all[|all| - |todo|..][1..];
    if t.Some? {
      PendingFirst(b, State(pos, left), t.value);
    }
  }

  lemma NullIsNoPosition()
    ensures NULL < 0
  {
  }

  lemma NothingFirst(es: seq<Entry>)
    ensures [] + es == es
  {
  }

  lemma NonEmpty(edges: seq<Edge>)
    ensures |edges| >= 2 ==> edges != []
  {
  }

  lemma BranchIsEdges(b: seq<Byte>, at: int, edges: seq<Edge>)
    requires EncodesBranch(b, at, edges)
    ensures EncodesEdges(b, at, edges) && |edges| >= 2
  {
  }

  lemma FinalNode(b: seq<Byte>, at: nat, t: Trie)
    requires IsValueLead(b, at) && IsFinal(b, at) && EncodesNode(b, at, t)
    ensures t == Trie(Some(ValueOf(b, at)), End)
  {
    NodeCases(b, at, t);
  }

  lemma NoEdges(edges: seq<Edge>, str: seq<Byte>)
    requires |edges| == 1
    ensures Prefixed(str, EdgeEntries(edges[1..])) == []
  {
  }

  lemma UnitsHeld(b: seq<Byte>, p: nat, units: seq<Byte>)
    requires HoldsUnits(b, p, units)
    ensures p + |units| <= |b| && b[p..p + |units|] == units
  {
  }

  lemma ValueSplit(str: seq<Byte>, t: Trie, later: seq<Entry>)
    requires t.value.Some?
    ensures Prefixed(str, Entries(t)) + later ==
            [Entry(str, t.value.value)] +
            ((if t.next.End? then [] else Prefixed(str, Entries(Trie(None, t.next)))) + later)
  {
    if t.next.End? {
      EndEntriesFrom(str, t.value.value);
    } else {
      ValueEntriesFrom(str, t.value.value, t.next);
    }
    assert t == Trie(Some(t.value.value), t.next);
  }

  lemma PrefixedEmpty(es: seq<Entry>)
    ensures Prefixed([], es) == es
  {
    forall i | 0 <= i < |es| ensures Prefixed([], es)[i] == es[i] {
      assert [] + es[i].key == es[i].key;
    }
  }
}
