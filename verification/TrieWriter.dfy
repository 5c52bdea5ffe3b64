/** The recursive node writers of StringTrieBuilder, for byte tries. */
module TrieWriters {
  import opened Basics
  import opened TrieFormat
  import opened Tries
  import opened TrieElements
  import opened BackBuffers
  import opened TrieNodes

  // ---------- edges that stand for a run of elements ----------

  ghost predicate EdgesFor(es: seq<Entry>, lo: nat, hi: nat, d: nat, edges: seq<Edge>) {
    && LongSlice(es, lo, hi, d)
    && OrderedEdges(edges)
    && |edges| == Units(es, lo, hi, d)
    && edges[0].unit == UnitAt(es, lo, d)
    && edges[|edges| - 1].unit == UnitAt(es, hi - 1, d)
    && EdgeEntries(edges) == Suffixes(es, lo, hi, d)
  }

  lemma EdgesForOne(es: seq<Entry>, lo: nat, hi: nat, d: nat, t: Trie)
    requires LongSlice(es, lo, hi, d)
    requires FirstGroupEnd(es, lo, hi, d) == hi
    requires Ordered(t) && Entries(t) == Suffixes(es, lo, hi, d + 1)
    ensures EdgesFor(es, lo, hi, d, [Edge(UnitAt(es, lo, d), t)])
  {
    var e := Edge(UnitAt(es, lo, d), t);
    GroupIsSlice(es, lo, hi, d, lo, hi);
    GroupEdge(es, lo, hi, d, t);
    assert OrderedEdge(e);
    assert EdgeEntries([e][1..]) == [];
    assert EdgeEntries([e]) == EntriesOf(e);
  }

  lemma EdgesForConcat(es: seq<Entry>, lo: nat, mid: nat, hi: nat, d: nat, lt: seq<Edge>, ge: seq<Edge>)
    requires lo < mid < hi && LongSlice(es, lo, hi, d)
    requires EdgesFor(es, lo, mid, d, lt) && EdgesFor(es, mid, hi, d, ge)
    requires UnitAt(es, mid - 1, d) != UnitAt(es, mid, d)
    ensures EdgesFor(es, lo, hi, d, lt + ge)
  {
    hide Sorted, OrderedEdges, EdgeEntries, Units;
    UnitsAscend(es, lo, hi, d, mid - 1, mid);
    OrderedConcat(lt, ge);
    EdgeEntriesConcat(lt, ge);
    SuffixesSplit(es, lo, mid, hi, d);
    UnitsSplit(es, lo, mid, hi, d);
  }

  lemma EdgesForFacts(es: seq<Entry>, lo: nat, hi: nat, d: nat, edges: seq<Edge>)
    requires EdgesFor(es, lo, hi, d, edges)
    ensures lo < hi <= |es| && LongSlice(es, lo, hi, d)
    ensures |edges| == Units(es, lo, hi, d) >= 1 && edges[0].unit == UnitAt(es, lo, d)
    ensures OrderedEdges(edges) && EdgeEntries(edges) == Suffixes(es, lo, hi, d)
  {
  }

  lemma OrderedConcat(lt: seq<Edge>, ge: seq<Edge>)
    requires OrderedEdges(lt) && OrderedEdges(ge)
    requires |lt| >= 1 && |ge| >= 1 && lt[|lt| - 1].unit < ge[0].unit
    ensures OrderedEdges(lt + ge)
  {
    var edges := lt + ge;
    forall i, j | 0 <= i < j < |edges| ensures edges[i].unit < edges[j].unit {
      assert i < |lt| ==> edges[i].unit <= lt[|lt| - 1].unit;
      assert j >= |lt| ==> ge[0].unit <= edges[j].unit;
    }
  }

  // ---------- the groups of one list node ----------

  /** The elements up to limit, split at starts by their byte at d. */
  datatype Plan = Plan(es: seq<Entry>, starts: seq<nat>, limit: nat, d: nat) {

    ghost predicate Valid() {
      && |starts| >= 2
      && LongSlice(es, starts[0], limit, d)
      && (forall k :: 0 <= k < |starts| ==> starts[0] <= starts[k] < limit)
      && (forall k :: 0 <= k < |starts| - 1 ==> starts[k + 1] == FirstGroupEnd(es, starts[k], limit, d))
      && FirstGroupEnd(es, starts[|starts| - 1], limit, d) == limit
    }

    /** Group k has just one key, which ends after its byte at d. */
    predicate IsFinal(k: nat)
      requires k < |starts| - 1 && starts[k] < |es|
    {
      starts[k + 1] == starts[k] + 1 && |es[starts[k]].key| == d + 1
    }

    ghost predicate FlagsAre(isFinal: seq<bool>) {
      && |isFinal| == |starts| - 1
      && forall k :: 0 <= k < |isFinal| ==> starts[k] < |es| && isFinal[k] == IsFinal(k)
    }

    lemma Flag(isFinal: seq<bool>, k: nat)
      requires FlagsAre(isFinal) && k < |isFinal|
      ensures k < |starts| - 1 && starts[k] < |es| && isFinal[k] == IsFinal(k)
    {
    }

    lemma Group(k: nat)
      requires Valid() && k < |starts| - 1
      ensures starts[k] < starts[k + 1] < limit <= |es| && starts[0] <= starts[k]
      ensures Slice(es, starts[k], starts[k + 1], d + 1) && d < |es[starts[k]].key|
      ensures LongSlice(es, starts[k], starts[k + 1], d) && LongSlice(es, starts[k], limit, d)
      ensures FirstGroupEnd(es, starts[k], starts[k + 1], d) == starts[k + 1]
      ensures UnitAt(es, starts[k + 1] - 1, d) != UnitAt(es, starts[k + 1], d)
      ensures IsInt32(es[starts[k]].value) && 0 <= UnitAt(es, starts[k], d) < 0x100
    {
      GroupIsSlice(es, starts[0], limit, d, starts[k], starts[k + 1]);
      GroupEndUnique(es, starts[k], starts[k + 1], d, starts[k + 1]);
    }

    lemma LastGroup()
      requires Valid()
      ensures var last := starts[|starts| - 1];
              && starts[0] < last < limit <= |es|
              && LongSlice(es, last, limit, d) && Slice(es, last, limit, d + 1)
              && FirstGroupEnd(es, last, limit, d) == limit
              && 0 <= UnitAt(es, last, d) < 0x100
    {
      Group(|starts| - 2);
      GroupIsSlice(es, starts[0], limit, d, starts[|starts| - 1], limit);
    }
  }

  /** The child of group k, already written unless it is a final value. */
  ghost predicate ChildReady(c: seq<Byte>, plan: Plan, k: nat, target: nat, t: Trie)
    requires k < |plan.starts| - 1 && plan.starts[k] <= plan.starts[k + 1] <= |plan.es|
    requires plan.starts[k] < |plan.es|
  {
    && Ordered(t)
    && Entries(t) == Suffixes(plan.es, plan.starts[k], plan.starts[k + 1], plan.d + 1)
    && if plan.IsFinal(k) then t == Trie(Some(plan.es[plan.starts[k]].value), End)
       else target <= |c| && NodeAt(c, target, t)
  }

  /** All children from group number from on, but the last. */
  ghost predicate ChildrenReady(c: seq<Byte>, plan: Plan, targets: seq<nat>, children: seq<Trie>, from: nat) {
    && plan.Valid()
    && |targets| == |children| == |plan.starts| - 1
    && (forall k :: from <= k < |children| ==>
      && plan.starts[k] < plan.starts[k + 1]
      && ChildReady(c, plan, k, targets[k], children[k]))
  }

  lemma ChildrenNone(c: seq<Byte>, plan: Plan, targets: seq<nat>, children: seq<Trie>)
    requires plan.Valid() && |targets| == |children| == |plan.starts| - 1
    ensures ChildrenReady(c, plan, targets, children, |children|)
  {
  }

  lemma ChildrenShape(c: seq<Byte>, plan: Plan, targets: seq<nat>, children: seq<Trie>, from: nat)
    requires ChildrenReady(c, plan, targets, children, from)
    ensures plan.Valid() && |targets| == |children| == |plan.starts| - 1 >= 1
  {
  }

  /** Adds the child of group k and keeps the later ones. */
  lemma ChildrenPush(c: seq<Byte>, c': seq<Byte>, plan: Plan, targets: seq<nat>, children: seq<Trie>, k: nat,
                     target: nat, t: Trie)
    requires IsSuffix(c, c') && k < |children|
    requires ChildrenReady(c, plan, targets, children, k + 1)
    requires plan.starts[k] < plan.starts[k + 1] <= |plan.es| && ChildReady(c', plan, k, target, t)
    ensures ChildrenReady(c', plan, targets[k := target], children[k := t], k)
  {
    ChildrenKept(c, c', plan, targets, children, k + 1);
  }

  lemma ChildrenKept(c: seq<Byte>, c': seq<Byte>, plan: Plan, targets: seq<nat>, children: seq<Trie>, from: nat)
    requires IsSuffix(c, c')
    requires ChildrenReady(c, plan, targets, children, from)
    ensures ChildrenReady(c', plan, targets, children, from)
  {
    forall k | from <= k < |children| ensures ChildReady(c', plan, k, targets[k], children[k]) {
      assert ChildReady(c, plan, k, targets[k], children[k]);
      if !plan.IsFinal(k) {
        NodeKept(c, c', targets[k], children[k]);
      }
    }
  }

  lemma FinalChild(c: seq<Byte>, plan: Plan, k: nat, target: nat)
    requires plan.Valid() && k < |plan.starts| - 1 && plan.IsFinal(k)
    ensures plan.starts[k] < plan.starts[k + 1] <= |plan.es|
    ensures ChildReady(c, plan, k, target, Trie(Some(plan.es[plan.starts[k]].value), End))
  {
    plan.Group(k);
    assert plan.es[plan.starts[k]].key[plan.d + 1..] == [];
  }

  /** Writing the pair of group k in front of the pairs of the later groups. */
  lemma PairWritten(c: seq<Byte>, c': seq<Byte>, plan: Plan, targets: seq<nat>, children: seq<Trie>, k: nat,
                    rest: seq<Edge>, value: int)
    requires ChildrenReady(c, plan, targets, children, 0) && k < |children|
    requires EdgesFor(plan.es, plan.starts[k + 1], plan.limit, plan.d, rest) && ListAt(c, |c|, rest)
    requires plan.starts[k] < |plan.es| && IsInt32(value) && 0 <= UnitAt(plan.es, plan.starts[k], plan.d) < 0x100
    requires value == if plan.IsFinal(k) then plan.es[plan.starts[k]].value else Wrap32(|c| - targets[k])
    requires c' == [UnitAt(plan.es, plan.starts[k], plan.d)] + (EncodeValue(value, plan.IsFinal(k)) + c)
    ensures IsSuffix(c, c') && |c'| > |c|
    ensures var edges := [Edge(UnitAt(plan.es, plan.starts[k], plan.d), children[k])] + rest;
            EdgesFor(plan.es, plan.starts[k], plan.limit, plan.d, edges) && ListAt(c', |c'|, edges)
  {
    hide ListAt, NodeAt, EdgesFor, EncodeValue, Entries, Ordered, Suffixes, LongSlice, Slice;
    plan.Group(k);
    assert ChildReady(c, plan, k, targets[k], children[k]);
    var e := Edge(UnitAt(plan.es, plan.starts[k], plan.d), children[k]);
    PairRead(c, c', e.unit, value, plan.IsFinal(k));
    EdgesForFacts(plan.es, plan.starts[k + 1], plan.limit, plan.d, rest);
    UnitBefore(c, c', e, rest, value, plan.IsFinal(k), targets[k]);
    EdgesForOne(plan.es, plan.starts[k], plan.starts[k + 1], plan.d, children[k]);
    EdgesForConcat(plan.es, plan.starts[k], plan.starts[k + 1], plan.limit, plan.d, [e], rest);
  }

  // ---------- the levels of a split branch ----------

  /** What the less-than half of one split level stands for. */
  datatype Level = Level(from: nat, to: nat, lt: seq<Edge>)

  ghost predicate LevelReady(c: seq<Byte>, es: seq<Entry>, limit: nat, d: nat, lv: Level, middle: Byte, lessThan: nat) {
    && lv.from < lv.to < limit <= |es|
    && LongSlice(es, lv.from, limit, d)
    && UnitAt(es, lv.to - 1, d) != UnitAt(es, lv.to, d)
    && middle == UnitAt(es, lv.to, d)
    && 1 <= lessThan <= |c| && BranchAt(c, lessThan, lv.lt)
    && EdgesFor(es, lv.from, lv.to, d, lv.lt)
    && Units(es, lv.from, limit, d) > MAX_BRANCH_LINEAR_SUB_NODE_LENGTH
    && |lv.lt| == Units(es, lv.from, limit, d) / 2
  }

  /** The position where level j begins; after the last one, start. */
  function LevelStart(levels: seq<Level>, start: nat, j: nat): nat {
    if j < |levels| then levels[j].from else start
  }

  /** Each level continues where the next one begins. */
  ghost predicate LevelsReady(c: seq<Byte>, es: seq<Entry>, start: nat, limit: nat, d: nat,
                              levels: seq<Level>, middles: seq<Byte>, lessThans: seq<nat>)
  {
    && |levels| == |middles| == |lessThans|
    && (forall j :: 0 <= j < |levels| ==>
      LevelReady(c, es, limit, d, levels[j], middles[j], lessThans[j]) && levels[j].to == LevelStart(levels, start, j + 1))
  }

  lemma LevelsNone(c: seq<Byte>, es: seq<Entry>, start: nat, limit: nat, d: nat)
    ensures LevelsReady(c, es, start, limit, d, [], [], [])
    ensures LevelStart([], start, 0) == start
  {
  }

  lemma LevelsShape(c: seq<Byte>, es: seq<Entry>, start: nat, limit: nat, d: nat,
                    levels: seq<Level>, middles: seq<Byte>, lessThans: seq<nat>)
    requires LevelsReady(c, es, start, limit, d, levels, middles, lessThans)
    ensures |levels| == |middles| == |lessThans|
    ensures LevelStart(levels, start, |levels|) == start
  {
  }

  /** Adds the level that was just written, at i. */
  lemma LevelsPush(c: seq<Byte>, c': seq<Byte>, es: seq<Entry>, start: nat, limit: nat, d: nat,
                   levels: seq<Level>, middles: seq<Byte>, lessThans: seq<nat>, i: nat, lessThan: nat, lt: seq<Edge>)
    requires IsSuffix(c, c') && LevelsReady(c, es, start, limit, d, levels, middles, lessThans)
    requires start < i < limit && LongSlice(es, start, limit, d) && limit <= |es|
    requires UnitAt(es, i - 1, d) != UnitAt(es, i, d)
    requires 1 <= lessThan <= |c'| && BranchAt(c', lessThan, lt) && EdgesFor(es, start, i, d, lt)
    requires Units(es, start, limit, d) > MAX_BRANCH_LINEAR_SUB_NODE_LENGTH
    requires |lt| == Units(es, start, limit, d) / 2
    ensures 0 <= UnitAt(es, i, d) < 0x100
    ensures LevelsReady(c', es, i, limit, d,
                        levels + [Level(start, i, lt)], middles + [UnitAt(es, i, d)], lessThans + [lessThan])
    ensures LevelStart(levels + [Level(start, i, lt)], i, 0) == LevelStart(levels, start, 0)
  {
    hide BranchAt, EdgesFor, LongSlice, Units, LevelReady;
    LongFacts(es, start, limit, d, i);
    LevelsKept(c, c', es, start, limit, d, levels, middles, lessThans);
    var lv := Level(start, i, lt);
    NewLevel(c', es, start, limit, d, i, lessThan, lt);
    forall j | 0 <= j < |levels| ensures levels[j].to == LevelStart(levels + [lv], i, j + 1) {
      assert levels[j].to == LevelStart(levels, start, j + 1);
    }
    PushOne(c', es, limit, d, levels, middles, lessThans, lv, UnitAt(es, i, d), lessThan);
  }

  lemma NewLevel(c: seq<Byte>, es: seq<Entry>, start: nat, limit: nat, d: nat, i: nat, lessThan: nat, lt: seq<Edge>)
    requires start < i < limit && LongSlice(es, start, limit, d) && limit <= |es|
    requires UnitAt(es, i - 1, d) != UnitAt(es, i, d)
    requires 1 <= lessThan <= |c| && BranchAt(c, lessThan, lt) && EdgesFor(es, start, i, d, lt)
    requires Units(es, start, limit, d) > MAX_BRANCH_LINEAR_SUB_NODE_LENGTH
    requires |lt| == Units(es, start, limit, d) / 2
    ensures 0 <= UnitAt(es, i, d) < 0x100
    ensures LevelReady(c, es, limit, d, Level(start, i, lt), UnitAt(es, i, d), lessThan)
  {
    hide BranchAt, EdgesFor, LongSlice, Units;
    LongFacts(es, start, limit, d, i);
  }

  lemma PushOne(c: seq<Byte>, es: seq<Entry>, limit: nat, d: nat, levels: seq<Level>, middles: seq<Byte>,
                lessThans: seq<nat>, lv: Level, middle: Byte, lessThan: nat)
    requires |levels| == |middles| == |lessThans|
    requires forall j :: 0 <= j < |levels| ==> LevelReady(c, es, limit, d, levels[j], middles[j], lessThans[j])
    requires LevelReady(c, es, limit, d, lv, middle, lessThan)
    ensures forall j :: 0 <= j < |levels| + 1 ==>
      LevelReady(c, es, limit, d, (levels + [lv])[j], (middles + [middle])[j], (lessThans + [lessThan])[j])
  {
    hide LevelReady;
  }

  /** Everything about level j that writing its split node over ge needs. */
  lemma LevelFacts(c: seq<Byte>, es: seq<Entry>, start: nat, limit: nat, d: nat,
                   levels: seq<Level>, middles: seq<Byte>, lessThans: seq<nat>, j: nat, ge: seq<Edge>)
    requires LevelsReady(c, es, start, limit, d, levels, middles, lessThans)
    requires j < |levels| && EdgesFor(es, LevelStart(levels, start, j + 1), limit, d, ge)
    ensures var lv := levels[j];
            && 1 <= lessThans[j] <= |c| && BranchAt(c, lessThans[j], lv.lt)
            && 2 <= |lv.lt| <= |ge| <= |lv.lt| + 1 && |lv.lt| + |ge| > MAX_BRANCH_LINEAR_SUB_NODE_LENGTH
            && middles[j] == ge[0].unit
            && EdgesFor(es, lv.from, limit, d, lv.lt + ge)
  {
    hide BranchAt, Units, LongSlice;
    var lv := levels[j];
    assert LevelReady(c, es, limit, d, lv, middles[j], lessThans[j]);
    UnitsSplit(es, lv.from, lv.to, limit, d);
    EdgesForConcat(es, lv.from, lv.to, limit, d, lv.lt, ge);
  }

  lemma LevelsKept(c: seq<Byte>, c': seq<Byte>, es: seq<Entry>, start: nat, limit: nat, d: nat,
                   levels: seq<Level>, middles: seq<Byte>, lessThans: seq<nat>)
    requires IsSuffix(c, c')
    requires LevelsReady(c, es, start, limit, d, levels, middles, lessThans)
    ensures LevelsReady(c', es, start, limit, d, levels, middles, lessThans)
  {
    hide EdgesFor, LongSlice, Units, BranchAt;
    forall j | 0 <= j < |levels| ensures LevelReady(c', es, limit, d, levels[j], middles[j], lessThans[j]) {
      assert LevelReady(c, es, limit, d, levels[j], middles[j], lessThans[j]);
      SuffixIsShorter(c, c');
      BranchKept(c, c', lessThans[j], levels[j].lt);
    }
  }

  // ---------- the writers ----------

  /** The first groups of the elements up to limit, all but the last one with its flag. */
  ghost predicate GroupsFound(es: seq<Entry>, starts: seq<nat>, limit: nat, d: nat, isFinal: seq<bool>) {
    && limit <= |es|
    && |starts| == |isFinal| + 1
    && (forall k :: 0 <= k < |starts| ==> starts[0] <= starts[k] < limit)
    && (forall k :: 0 <= k < |isFinal| ==>
      && starts[k + 1] == FirstGroupEnd(es, starts[k], limit, d)
      && isFinal[k] == (starts[k + 1] == starts[k] + 1 && |es[starts[k]].key| == d + 1))
  }

  lemma GroupsBegin(es: seq<Entry>, start: nat, limit: nat, d: nat)
    requires start < limit <= |es|
    ensures GroupsFound(es, [start], limit, d, [])
  {
  }

  lemma GroupsPush(es: seq<Entry>, starts: seq<nat>, limit: nat, d: nat, isFinal: seq<bool>, i: nat, final: bool)
    requires GroupsFound(es, starts, limit, d, isFinal)
    requires |starts| == |isFinal| + 1 && starts[|isFinal|] < limit <= |es|
    requires i == FirstGroupEnd(es, starts[|isFinal|], limit, d) < limit
    requires final == (i == starts[|isFinal|] + 1 && |es[starts[|isFinal|]].key| == d + 1)
    ensures GroupsFound(es, starts + [i], limit, d, isFinal + [final])
  {
    hide FirstGroupEnd;
  }

  lemma GroupsDone(es: seq<Entry>, starts: seq<nat>, limit: nat, d: nat, isFinal: seq<bool>)
    requires GroupsFound(es, starts, limit, d, isFinal) && |isFinal| >= 1
    requires |starts| == |isFinal| + 1 && starts[|isFinal|] < limit <= |es|
    requires LongSlice(es, starts[0], limit, d) && FirstGroupEnd(es, starts[|isFinal|], limit, d) == limit
    ensures Plan(es, starts, limit, d).Valid() && Plan(es, starts, limit, d).FlagsAre(isFinal)
  {
    hide FirstGroupEnd, LongSlice;
  }

  lemma NextGroup(es: seq<Entry>, start: nat, limit: nat, d: nat)
    requires start < limit <= |es|
    ensures FirstGroupEnd(es, start, limit, d) == GroupEnd(es, start + 1, limit, d, UnitAt(es, start, d))
    ensures Units(es, start, limit, d) >= 2 ==> FirstGroupEnd(es, start, limit, d) < limit
    ensures Units(es, start, limit, d) == 1 ==> FirstGroupEnd(es, start, limit, d) == limit
    ensures Units(es, start, limit, d) == 1 + Units(es, FirstGroupEnd(es, start, limit, d), limit, d)
  {
  }

  lemma ValueBefore(es: seq<Entry>, start: nat, limit: nat, d: nat, next: Next)
    requires Slice(es, start, limit, d) && start + 1 < limit && |es[start].key| == d
    requires Ordered(Trie(None, next)) && Entries(Trie(None, next)) == Suffixes(es, start + 1, limit, d)
    ensures Ordered(Trie(Some(es[start].value), next))
    ensures Entries(Trie(Some(es[start].value), next)) == Suffixes(es, start, limit, d)
  {
    hide Sorted, NextEntries;
    SuffixesSplit(es, start, start + 1, limit, d);
    assert es[start].key[d..] == [];
    assert Entries(Trie(None, next)) == NextEntries(next);
  }

  lemma OnlyValue(es: seq<Entry>, start: nat, d: nat)
    requires start < |es| && |es[start].key| == d
    ensures Ordered(Trie(Some(es[start].value), End))
    ensures Entries(Trie(Some(es[start].value), End)) == Suffixes(es, start, start + 1, d)
  {
    assert es[start].key[d..] == [];
  }

  lemma LinearEntries(es: seq<Entry>, lo: nat, hi: nat, d: nat, r: nat, child: Trie)
    requires d < r && Slice(es, lo, hi, r)
    requires Ordered(child) && Entries(child) == Suffixes(es, lo, hi, r)
    ensures Slice(es, lo, hi, d) && r <= |es[lo].key|
    ensures var t := Trie(None, Linear(es[lo].key[d..r], child));
            Ordered(t) && Entries(t) == Suffixes(es, lo, hi, d)
  {
    ShorterSlice(es, lo, hi, d, r);
    PrefixedSuffixes(es, lo, hi, d, r);
  }

  lemma BranchEntries(es: seq<Entry>, lo: nat, hi: nat, d: nat, edges: seq<Edge>)
    requires EdgesFor(es, lo, hi, d, edges) && |edges| >= 2
    ensures lo < hi <= |es|
    ensures var t := Trie(None, Branch(edges)); Ordered(t) && Entries(t) == Suffixes(es, lo, hi, d)
  {
  }

  lemma ListIsBranch(c: seq<Byte>, edges: seq<Edge>)
    requires 2 <= |edges| <= MAX_BRANCH_LINEAR_SUB_NODE_LENGTH && ListAt(c, |c|, edges)
    ensures BranchAt(c, |c|, edges)
  {
  }

  /** The size of the arrays that hold what is known of each level. */
  const MAX_SPLIT_BRANCH_LEVELS := 14

  /** How often a branch of this many units is split before a list is left. */
  function SplitLevels(length: nat): nat {
    if length <= MAX_BRANCH_LINEAR_SUB_NODE_LENGTH then 0 else 1 + SplitLevels(length - length / 2)
  }

  lemma SplitLevelsStep(length: nat)
    requires length > MAX_BRANCH_LINEAR_SUB_NODE_LENGTH
    ensures SplitLevels(length) == 1 + SplitLevels(length - length / 2)
  {
  }

  /** Twice as many units take at most one more level. */
  lemma SplitLevelsBound(length: nat, bound: nat, levels: nat)
    requires length <= 2 * bound && forall n: nat :: n <= bound ==> SplitLevels(n) <= levels
    ensures SplitLevels(length) <= levels + 1
  {
    if length > MAX_BRANCH_LINEAR_SUB_NODE_LENGTH {
      assert length - length / 2 <= bound;
    }
  }

  /** The levels of any branch fit into the arrays, since there are only 256 units. */
  lemma FewLevels(es: seq<Entry>, lo: nat, hi: nat, d: nat)
    requires LongSlice(es, lo, hi, d)
    ensures SplitLevels(Units(es, lo, hi, d)) <= 6 <= MAX_SPLIT_BRANCH_LEVELS
    ensures Units(es, lo, hi, d) <= MAX_BRANCH_LINEAR_SUB_NODE_LENGTH ==> SplitLevels(Units(es, lo, hi, d)) == 0
  {
    UnitsOfEnds(es, lo, hi, d);
    LongFacts(es, lo, hi, d, lo);
    forall n: nat | n <= 8 ensures SplitLevels(n) <= 1 { SplitLevelsBound(n, 4, 0); }
    forall n: nat | n <= 16 ensures SplitLevels(n) <= 2 { SplitLevelsBound(n, 8, 1); }
    forall n: nat | n <= 32 ensures SplitLevels(n) <= 3 { SplitLevelsBound(n, 16, 2); }
    forall n: nat | n <= 64 ensures SplitLevels(n) <= 4 { SplitLevelsBound(n, 32, 3); }
    forall n: nat | n <= 128 ensures SplitLevels(n) <= 5 { SplitLevelsBound(n, 64, 4); }
    SplitLevelsBound(Units(es, lo, hi, d), 128, 5);
  }

  lemma ChunkIsByte(es: seq<Entry>, start: nat, limit: nat, d: nat, r: nat)
    requires d < r <= d + MAX_LINEAR_MATCH_LENGTH && Slice(es, start, limit, r)
    ensures start < |es| && r <= |es[start].key| && 0 <= MIN_LINEAR_MATCH + (r - d) - 1 < 0x100
  {
  }

  lemma ChunkIsNode(c: seq<Byte>, c': seq<Byte>, units: seq<Byte>, child: Trie)
    requires 1 <= |units| <= MAX_LINEAR_MATCH_LENGTH && NodeAt(c, |c|, child)
    requires c' == [MIN_LINEAR_MATCH + |units| - 1] + (units + c)
    ensures IsSuffix(c, c') && |c'| > |c| && NodeAt(c', |c'|, Trie(None, Linear(units, child)))
  {
    hide NodeAt;
    assert c' == ([MIN_LINEAR_MATCH + |units| - 1] + units) + c;
    LinearMatchNode(c, c', units, child);
  }

  class TrieWriter {
    const buf: BackBuffer

    constructor (buffer: BackBuffer)
      ensures buf == buffer
    {
      buf := buffer;
    }

    /** Writes the node for the elements start0..limit-1, which share unitIndex bytes. */
    method WriteNode(es: seq<Entry>, start0: nat, limit: nat, unitIndex: nat) returns (offset: nat, ghost t: Trie)
      requires buf.Valid()
      requires Slice(es, start0, limit, unitIndex)
      modifies buf, buf.bytes
      ensures buf.Valid() && (buf.bytes == old(buf.bytes) || fresh(buf.bytes))
      ensures IsSuffix(old(buf.contents), buf.contents)
      ensures offset == |buf.contents| > |old(buf.contents)|
      ensures Ordered(t) && Entries(t) == Suffixes(es, start0, limit, unitIndex)
      ensures NodeAt(buf.contents, offset, t)
      decreases limit - start0, |es[start0].key| - unitIndex, 3
    {
      hide *;
      SliceBounds(es, start0, limit, unitIndex);
      SliceFacts(es, start0, limit, unitIndex, start0);
      RestIsLonger(es, start0, limit, unitIndex);
      var start := start0;
      var hasValue, value := false, 0;
      if unitIndex == |es[start].key| {
        value := es[start].value;
        start := start + 1;
        if start == limit {
          t := Trie(Some(value), End);
          ghost var c := buf.contents;
          offset := buf.WriteValueAndFinal(value, true);
          FinalValueNode(c, buf.contents, value);
          ValueIsLonger(c, buf.contents, value, true);
          OnlyValue(es, start0, unitIndex);
          return;
        }
        hasValue := true;
      }
      ghost var next;
      offset, next := WriteMatchNode(es, start, limit, unitIndex);
      t := Trie(None, next);
      if hasValue {
        ghost var c := buf.contents;
        offset := buf.WriteValueAndFinal(value, false);
        IntermediateValueNode(c, buf.contents, value, next);
        ValueIsLonger(c, buf.contents, value, false);
        SuffixTrans(old(buf.contents), c, buf.contents);
        t := Trie(Some(value), next);
        ValueBefore(es, start0, limit, unitIndex, next);
      }
    }

    /** The linear-match or branch node itself, without a value. */
    method WriteMatchNode(es: seq<Entry>, start: nat, limit: nat, unitIndex: nat) returns (offset: nat, ghost next: Next)
      requires buf.Valid()
      requires LongSlice(es, start, limit, unitIndex)
      modifies buf, buf.bytes
      ensures buf.Valid() && (buf.bytes == old(buf.bytes) || fresh(buf.bytes))
      ensures IsSuffix(old(buf.contents), buf.contents)
      ensures offset == |buf.contents| > |old(buf.contents)|
      ensures !next.End? && Ordered(Trie(None, next))
      ensures Entries(Trie(None, next)) == Suffixes(es, start, limit, unitIndex)
      ensures NodeAt(buf.contents, offset, Trie(None, next))
      decreases limit - start, |es[start].key| - unitIndex, 2
    {
      hide *;
      LongBounds(es, start, limit, unitIndex);
      LongFacts(es, start, limit, unitIndex, start);
      LongFacts(es, start, limit, unitIndex, limit - 1);
      UnitsOfEnds(es, start, limit, unitIndex);
      var minUnit := es[start].key[unitIndex];
      var maxUnit := es[limit - 1].key[unitIndex];
      UnitAtIs(es, start, unitIndex);
      UnitAtIs(es, limit - 1, unitIndex);
      if minUnit == maxUnit {
        var lastUnitIndex := GetLimitOfLinearMatch(es, start, limit - 1, unitIndex);
        ghost var child;
        offset, child := WriteNode(es, start, limit, lastUnitIndex);
        ghost var c := buf.contents;
        offset, next := WriteLinear(es, start, limit, unitIndex, lastUnitIndex, child);
        SuffixTrans(old(buf.contents), c, buf.contents);
      } else {
        var length := CountElementUnits(es, start, limit, unitIndex);
        ghost var edges;
        offset, edges := WriteBranchSubNode(es, start, limit, unitIndex, length);
        ghost var c := buf.contents;
        offset := WriteBranchHead(length, edges);
        next := Branch(edges);
        BranchEntries(es, start, limit, unitIndex, edges);
        SuffixTrans(old(buf.contents), c, buf.contents);
      }
    }

    method WriteBranchHead(length0: nat, ghost edges: seq<Edge>) returns (offset: nat)
      requires buf.Valid()
      requires 2 <= length0 == |edges| <= 0x100
      requires BranchAt(buf.contents, |buf.contents|, edges)
      modifies buf, buf.bytes
      ensures buf.Valid() && (buf.bytes == old(buf.bytes) || fresh(buf.bytes))
      ensures IsSuffix(old(buf.contents), buf.contents)
      ensures offset == |buf.contents| > |old(buf.contents)|
      ensures NodeAt(buf.contents, offset, Trie(None, Branch(edges)))
    {
      ghost var c := buf.contents;
      hide BranchAt, NodeAt;
      var length := length0 - 1;
      if length < MIN_LINEAR_MATCH {
        offset := buf.Write(length);
      } else {
        offset := buf.Write(length);
        offset := buf.Write(0);
        assert buf.contents == [0, length] + c;
      }
      BranchHeadNode(c, buf.contents, edges);
    }

    /** Linear-match nodes for the bytes unitIndex..last0-1, in chunks, the last one first. */
    method WriteLinear(es: seq<Entry>, start: nat, limit: nat, unitIndex: nat, last0: nat, ghost child0: Trie)
      returns (offset: nat, ghost next: Next)
      requires buf.Valid()
      requires unitIndex < last0 && Slice(es, start, limit, last0)
      requires Ordered(child0) && Entries(child0) == Suffixes(es, start, limit, last0)
      requires NodeAt(buf.contents, |buf.contents|, child0)
      modifies buf, buf.bytes
      ensures buf.Valid() && (buf.bytes == old(buf.bytes) || fresh(buf.bytes))
      ensures IsSuffix(old(buf.contents), buf.contents)
      ensures offset == |buf.contents| > |old(buf.contents)|
      ensures !next.End? && Ordered(Trie(None, next))
      ensures Entries(Trie(None, next)) == Suffixes(es, start, limit, unitIndex)
      ensures NodeAt(buf.contents, offset, Trie(None, next))
    {
      var last := last0;
      var length := last - unitIndex;
      ghost var child := child0;
      SuffixRefl(buf.contents);
      SliceFacts(es, start, limit, last0, start);
      hide IsSuffix, NodeAt, Slice, Ordered, Entries, Suffixes;
      while length > MAX_LINEAR_MATCH_LENGTH
        invariant buf.Valid() && (buf.bytes == old(buf.bytes) || fresh(buf.bytes))
        invariant IsSuffix(old(buf.contents), buf.contents)
        invariant |buf.contents| >= |old(buf.contents)|
        invariant unitIndex < last <= last0 && length == last - unitIndex
        invariant Slice(es, start, limit, last)
        invariant Ordered(child) && Entries(child) == Suffixes(es, start, limit, last)
        invariant NodeAt(buf.contents, |buf.contents|, child)
      {
        last := last - MAX_LINEAR_MATCH_LENGTH;
        length := length - MAX_LINEAR_MATCH_LENGTH;
        ghost var c := buf.contents;
        offset, child := WriteChunk(es, start, limit, last, last + MAX_LINEAR_MATCH_LENGTH, child);
        SuffixTrans(old(buf.contents), c, buf.contents);
      }
      ghost var c := buf.contents;
      offset, child := WriteChunk(es, start, limit, unitIndex, unitIndex + length, child);
      SuffixTrans(old(buf.contents), c, buf.contents);
      next := child.next;
    }

    method WriteChunk(es: seq<Entry>, start: nat, limit: nat, d: nat, r: nat, ghost child: Trie)
      returns (offset: nat, ghost t: Trie)
      requires buf.Valid()
      requires d < r <= d + MAX_LINEAR_MATCH_LENGTH && Slice(es, start, limit, r)
      requires Ordered(child) && Entries(child) == Suffixes(es, start, limit, r)
      requires NodeAt(buf.contents, |buf.contents|, child)
      modifies buf, buf.bytes
      ensures buf.Valid() && (buf.bytes == old(buf.bytes) || fresh(buf.bytes))
      ensures IsSuffix(old(buf.contents), buf.contents)
      ensures offset == |buf.contents| > |old(buf.contents)|
      ensures t == Trie(None, t.next) && !t.next.End? && Ordered(t)
      ensures Slice(es, start, limit, d) && Entries(t) == Suffixes(es, start, limit, d)
      ensures NodeAt(buf.contents, |buf.contents|, t)
    {
      hide *;
      ChunkIsByte(es, start, limit, d, r);
      LinearEntries(es, start, limit, d, r, child);
      ghost var c := buf.contents;
      var units := es[start].key[d..r];
      offset := buf.WriteUnits(units);
      offset := buf.Write(MIN_LINEAR_MATCH + |units| - 1);
      t := Trie(None, Linear(units, child));
      ChunkIsNode(c, buf.contents, units, child);
    }

    /** Splits a wide branch at middle units, then writes a list of at most five. */
    method WriteBranchSubNode(es: seq<Entry>, start0: nat, limit: nat, unitIndex: nat, length0: nat)
      returns (offset: nat, ghost edges: seq<Edge>)
      requires buf.Valid()
      requires LongSlice(es, start0, limit, unitIndex)
      requires length0 == Units(es, start0, limit, unitIndex) >= 2
      modifies buf, buf.bytes
      ensures buf.Valid() && (buf.bytes == old(buf.bytes) || fresh(buf.bytes))
      ensures IsSuffix(old(buf.contents), buf.contents)
      ensures offset == |buf.contents| > |old(buf.contents)|
      ensures EdgesFor(es, start0, limit, unitIndex, edges) && |edges| == length0
      ensures BranchAt(buf.contents, offset, edges)
      decreases limit - start0, |es[start0].key| - unitIndex, 1
    {
      hide *;
      LongFacts(es, start0, limit, unitIndex, start0);
      var start, length, middles, lessThans;
      ghost var levels;
      start, length, middles, lessThans, levels := WriteLevels(es, start0, limit, unitIndex, length0);
      ghost var c := buf.contents;
      offset, edges := WriteRest(es, start, limit, unitIndex, length, middles, lessThans, levels);
      SuffixTrans(old(buf.contents), c, buf.contents);
      EdgesForFacts(es, start0, limit, unitIndex, edges);
    }

    /** Writes the remaining list, then the split nodes. */
    method WriteRest(es: seq<Entry>, start: nat, limit: nat, unitIndex: nat, length: nat,
                     middles: seq<Byte>, lessThans: seq<nat>, ghost levels: seq<Level>)
      returns (offset: nat, ghost edges: seq<Edge>)
      requires buf.Valid()
      requires LongSlice(es, start, limit, unitIndex)
      requires 2 <= length == Units(es, start, limit, unitIndex) <= MAX_BRANCH_LINEAR_SUB_NODE_LENGTH
      requires LevelsReady(buf.contents, es, start, limit, unitIndex, levels, middles, lessThans)
      modifies buf, buf.bytes
      ensures buf.Valid() && (buf.bytes == old(buf.bytes) || fresh(buf.bytes))
      ensures IsSuffix(old(buf.contents), buf.contents)
      ensures offset == |buf.contents| > |old(buf.contents)|
      ensures EdgesFor(es, LevelStart(levels, start, 0), limit, unitIndex, edges)
      ensures BranchAt(buf.contents, offset, edges)
      decreases limit - start, |es[start].key| - unitIndex, 0, 2
    {
      hide *;
      LongFacts(es, start, limit, unitIndex, start);
      ghost var c := buf.contents;
      offset, edges := WriteListNode(es, start, limit, unitIndex, length);
      LevelsKept(c, buf.contents, es, start, limit, unitIndex, levels, middles, lessThans);
      EdgesForFacts(es, start, limit, unitIndex, edges);
      ghost var c1 := buf.contents;
      offset, edges := WriteSplitNodes(es, start, limit, unitIndex, middles, lessThans, levels, edges);
      SuffixTrans(c, c1, buf.contents);
    }

    /** Writes the less-than halves until at most five units are left. */
    method WriteLevels(es: seq<Entry>, start0: nat, limit: nat, unitIndex: nat, length0: nat)
      returns (start: nat, length: nat, middles: seq<Byte>, lessThans: seq<nat>, ghost levels: seq<Level>)
      requires buf.Valid()
      requires LongSlice(es, start0, limit, unitIndex)
      requires length0 == Units(es, start0, limit, unitIndex) >= 2
      modifies buf, buf.bytes
      ensures buf.Valid() && (buf.bytes == old(buf.bytes) || fresh(buf.bytes))
      ensures IsSuffix(old(buf.contents), buf.contents)
      ensures |buf.contents| >= |old(buf.contents)|
      ensures start0 <= start < limit && LongSlice(es, start, limit, unitIndex)
      ensures 2 <= length == Units(es, start, limit, unitIndex) <= MAX_BRANCH_LINEAR_SUB_NODE_LENGTH
      ensures LevelsReady(buf.contents, es, start, limit, unitIndex, levels, middles, lessThans)
      ensures LevelStart(levels, start, 0) == start0
      ensures |middles| == |lessThans| <= MAX_SPLIT_BRANCH_LEVELS
      decreases limit - start0, |es[start0].key| - unitIndex, 0, 3
    {
      hide *;
      start, length := start0, length0;
      middles, lessThans, levels := [], [], [];
      FewLevels(es, start0, limit, unitIndex);
      SuffixRefl(buf.contents);
      LevelsNone(buf.contents, es, start0, limit, unitIndex);
      LongFacts(es, start0, limit, unitIndex, start0);
      while length > MAX_BRANCH_LINEAR_SUB_NODE_LENGTH
        invariant buf.Valid() && (buf.bytes == old(buf.bytes) || fresh(buf.bytes))
        invariant IsSuffix(old(buf.contents), buf.contents)
        invariant |buf.contents| >= |old(buf.contents)|
        invariant start0 <= start < limit && LongSlice(es, start, limit, unitIndex)
        invariant length == Units(es, start, limit, unitIndex) >= 2
        invariant LevelsReady(buf.contents, es, start, limit, unitIndex, levels, middles, lessThans)
        invariant LevelStart(levels, start, 0) == start0
        invariant |middles| == |lessThans| && |middles| + SplitLevels(length) == SplitLevels(length0)
        decreases length
      {
        ghost var c := buf.contents;
        SplitLevelsStep(length);
        start, length, middles, lessThans, levels :=
          WriteLevel(es, start, limit, unitIndex, length, middles, lessThans, levels);
        SuffixTrans(old(buf.contents), c, buf.contents);
      }
    }

    /** One split: the less-than half is written, the other half is left to do. */
    method WriteLevel(es: seq<Entry>, start0: nat, limit: nat, unitIndex: nat, length0: nat,
                      middles0: seq<Byte>, lessThans0: seq<nat>, ghost levels0: seq<Level>)
      returns (start: nat, length: nat, middles: seq<Byte>, lessThans: seq<nat>, ghost levels: seq<Level>)
      requires buf.Valid()
      requires LongSlice(es, start0, limit, unitIndex)
      requires length0 == Units(es, start0, limit, unitIndex) > MAX_BRANCH_LINEAR_SUB_NODE_LENGTH
      requires LevelsReady(buf.contents, es, start0, limit, unitIndex, levels0, middles0, lessThans0)
      modifies buf, buf.bytes
      ensures buf.Valid() && (buf.bytes == old(buf.bytes) || fresh(buf.bytes))
      ensures IsSuffix(old(buf.contents), buf.contents)
      ensures |buf.contents| >= |old(buf.contents)|
      ensures start0 < start < limit && LongSlice(es, start, limit, unitIndex)
      ensures 2 <= length == Units(es, start, limit, unitIndex) < length0 && length == length0 - length0 / 2
      ensures LevelsReady(buf.contents, es, start, limit, unitIndex, levels, middles, lessThans)
      ensures LevelStart(levels, start, 0) == LevelStart(levels0, start0, 0)
      ensures |middles| == |middles0| + 1 && |lessThans| == |lessThans0| + 1
      decreases limit - start0, |es[start0].key| - unitIndex, 0, 2
    {
      hide *;
      ListIsShort();
      LongFacts(es, start0, limit, unitIndex, start0);
      ghost var c := buf.contents;
      var i := SkipElementsBySomeUnits(es, start0, limit, unitIndex, length0 / 2);
      HalfUnits(es, start0, i, limit, unitIndex, length0 / 2);
      var lessThan;
      ghost var lt;
      lessThan, lt := WriteBranchSubNode(es, start0, i, unitIndex, length0 / 2);
      LevelsPush(c, buf.contents, es, start0, limit, unitIndex, levels0, middles0, lessThans0, i, lessThan, lt);
      middles, lessThans := middles0 + [UnitAt(es, i, unitIndex)], lessThans0 + [lessThan];
      levels := levels0 + [Level(start0, i, lt)];
      start := i;
      length := length0 - length0 / 2;
    }

    static lemma HalfUnits(es: seq<Entry>, lo: nat, mid: nat, hi: nat, d: nat, half: nat)
      requires LongSlice(es, lo, hi, d) && lo < mid < hi <= |es|
      requires UnitAt(es, mid - 1, d) != UnitAt(es, mid, d)
      requires Units(es, mid, hi, d) == Units(es, lo, hi, d) - half
      ensures LongSlice(es, lo, mid, d) && LongSlice(es, mid, hi, d)
      ensures Units(es, lo, mid, d) == half && mid < |es|
    {
      SubSlice(es, lo, hi, d, lo, mid);
      SubSlice(es, lo, hi, d, mid, hi);
      UnitsSplit(es, lo, mid, hi, d);
    }

    /** The split nodes of all levels, the innermost first. */
    method WriteSplitNodes(ghost es: seq<Entry>, ghost start: nat, ghost limit: nat, ghost d: nat,
                           middles: seq<Byte>, lessThans: seq<nat>, ghost levels: seq<Level>, ghost edges0: seq<Edge>)
      returns (offset: nat, ghost edges: seq<Edge>)
      requires buf.Valid()
      requires LevelsReady(buf.contents, es, start, limit, d, levels, middles, lessThans)
      requires EdgesFor(es, start, limit, d, edges0) && |edges0| >= 2
      requires BranchAt(buf.contents, |buf.contents|, edges0)
      modifies buf, buf.bytes
      ensures buf.Valid() && (buf.bytes == old(buf.bytes) || fresh(buf.bytes))
      ensures IsSuffix(old(buf.contents), buf.contents)
      ensures offset == |buf.contents| >= |old(buf.contents)|
      ensures EdgesFor(es, LevelStart(levels, start, 0), limit, d, edges)
      ensures BranchAt(buf.contents, offset, edges)
    {
      hide *;
      var ltLength: nat := |middles|;
      edges := edges0;
      offset := buf.bytesLength;
      buf.ContentsLength();
      SuffixRefl(buf.contents);
      LevelsShape(buf.contents, es, start, limit, d, levels, middles, lessThans);
      while ltLength > 0
        invariant buf.Valid() && (buf.bytes == old(buf.bytes) || fresh(buf.bytes))
        invariant IsSuffix(old(buf.contents), buf.contents)
        invariant offset == |buf.contents| >= |old(buf.contents)|
        invariant ltLength <= |levels| == |middles| == |lessThans|
        invariant EdgesFor(es, LevelStart(levels, start, ltLength), limit, d, edges) && |edges| >= 2
        invariant BranchAt(buf.contents, |buf.contents|, edges)
        invariant LevelsReady(buf.contents, es, start, limit, d, levels, middles, lessThans)
      {
        ltLength := ltLength - 1;
        ghost var c := buf.contents;
        LevelFacts(c, es, start, limit, d, levels, middles, lessThans, ltLength, edges);
        offset, edges := WriteSplitNode(middles[ltLength], lessThans[ltLength], levels[ltLength].lt, edges);
        SuffixTrans(old(buf.contents), c, buf.contents);
        LevelsKept(c, buf.contents, es, start, limit, d, levels, middles, lessThans);
        LevelStartAt(levels, start, ltLength);
      }
    }

    static lemma LevelStartAt(levels: seq<Level>, start: nat, j: nat)
      requires j < |levels|
      ensures LevelStart(levels, start, j) == levels[j].from
    {
    }

    method WriteSplitNode(middle: Byte, lessThan: nat, ghost lt: seq<Edge>, ghost ge: seq<Edge>)
      returns (offset: nat, ghost edges: seq<Edge>)
      requires buf.Valid()
      requires 2 <= |lt| <= |ge| <= |lt| + 1 && |lt| + |ge| > MAX_BRANCH_LINEAR_SUB_NODE_LENGTH
      requires middle == ge[0].unit && BranchAt(buf.contents, |buf.contents|, ge)
      requires 1 <= lessThan <= |buf.contents| && BranchAt(buf.contents, lessThan, lt)
      modifies buf, buf.bytes
      ensures buf.Valid() && (buf.bytes == old(buf.bytes) || fresh(buf.bytes))
      ensures IsSuffix(old(buf.contents), buf.contents)
      ensures offset == |buf.contents| >= |old(buf.contents)|
      ensures edges == lt + ge && BranchAt(buf.contents, offset, edges)
    {
      hide *;
      buf.ContentsLength();
      ghost var c := buf.contents;
      offset := buf.WriteDeltaTo(lessThan);
      ghost var c1 := buf.contents;
      offset := buf.Write(middle);
      SuffixOfConcat(EncodeDelta(|c| - lessThan, buf.garbage2, buf.garbage3), c);
      SuffixOfConcat([middle], c1);
      SuffixTrans(c, c1, buf.contents);
      SplitNode(c, c1, buf.contents, lt, ge, lessThan);
      edges := lt + ge;
    }

    /** The start of each unit's elements, and whether they are just a final value. */
    method FindGroups(es: seq<Entry>, start0: nat, limit: nat, unitIndex: nat, length: nat)
      returns (starts: seq<nat>, isFinal: seq<bool>)
      requires LongSlice(es, start0, limit, unitIndex)
      requires length == Units(es, start0, limit, unitIndex) >= 2
      ensures |starts| == length && starts[0] == start0 && |isFinal| == length - 1
      ensures Plan(es, starts, limit, unitIndex).Valid()
      ensures Plan(es, starts, limit, unitIndex).FlagsAre(isFinal)
    {
      hide *;
      LongFacts(es, start0, limit, unitIndex, start0);
      starts, isFinal := [start0], [];
      var start := start0;
      GroupsBegin(es, start0, limit, unitIndex);
      while |isFinal| < length - 1
        invariant |starts| == |isFinal| + 1 <= length
        invariant starts[0] == start0 && start == starts[|isFinal|]
        invariant start0 <= start < limit
        invariant Units(es, start, limit, unitIndex) == length - |isFinal|
        invariant GroupsFound(es, starts, limit, unitIndex, isFinal)
      {
        NextGroup(es, start, limit, unitIndex);
        var i := IndexOfElementWithNextUnit(es, start + 1, limit, unitIndex, UnitAt(es, start, unitIndex));
        var final := start == i - 1 && unitIndex + 1 == |es[start].key|;
        GroupsPush(es, starts, limit, unitIndex, isFinal, i, final);
        isFinal := isFinal + [final];
        starts := starts + [i];
        start := i;
      }
      NextGroup(es, start, limit, unitIndex);
      GroupsDone(es, starts, limit, unitIndex, isFinal);
    }

    /** Writes the sub-nodes of all units but the last, in reverse order. */
    method WriteChildren(ghost plan: Plan, es: seq<Entry>, starts: seq<nat>, unitIndex: nat, isFinal: seq<bool>)
      returns (targets: seq<nat>, ghost children: seq<Trie>)
      requires buf.Valid()
      requires plan.Valid() && plan.es == es && plan.starts == starts && plan.d == unitIndex
      requires |isFinal| == |starts| - 1 >= 1 && plan.FlagsAre(isFinal)
      modifies buf, buf.bytes
      ensures buf.Valid() && (buf.bytes == old(buf.bytes) || fresh(buf.bytes))
      ensures IsSuffix(old(buf.contents), buf.contents)
      ensures |buf.contents| >= |old(buf.contents)|
      ensures ChildrenReady(buf.contents, plan, targets, children, 0)
      decreases plan.limit - starts[0], |es[starts[0]].key| - unitIndex, 0, 0
    {
      hide *;
      targets := seq(|isFinal|, _ => 0);
      children := seq(|isFinal|, _ => Trie(None, End));
      var unitNumber: nat := |isFinal|;
      SuffixRefl(buf.contents);
      ChildrenNone(buf.contents, plan, targets, children);
      while unitNumber > 0
        invariant buf.Valid() && (buf.bytes == old(buf.bytes) || fresh(buf.bytes))
        invariant IsSuffix(old(buf.contents), buf.contents)
        invariant |buf.contents| >= |old(buf.contents)|
        invariant unitNumber <= |isFinal| == |targets| == |children|
        invariant ChildrenReady(buf.contents, plan, targets, children, unitNumber)
      {
        unitNumber := unitNumber - 1;
        plan.Group(unitNumber);
        plan.Flag(isFinal, unitNumber);
        ghost var c := buf.contents;
        ghost var child;
        var target := 0;
        if !isFinal[unitNumber] {
          target, child := WriteNode(es, starts[unitNumber], starts[unitNumber + 1], unitIndex + 1);
          SuffixTrans(old(buf.contents), c, buf.contents);
          NodeChild(buf.contents, plan, unitNumber, target, child);
        } else {
          child := Trie(Some(es[starts[unitNumber]].value), End);
          FinalChild(c, plan, unitNumber, target);
          SuffixRefl(c);
        }
        ChildrenPush(c, buf.contents, plan, targets, children, unitNumber, target, child);
        targets := targets[unitNumber := target];
        children := children[unitNumber := child];
      }
    }

    static lemma NodeChild(c: seq<Byte>, plan: Plan, k: nat, target: nat, t: Trie)
      requires k < |plan.starts| - 1 && plan.starts[k] < plan.starts[k + 1] <= |plan.es| && !plan.IsFinal(k)
      requires Ordered(t) && Entries(t) == Suffixes(plan.es, plan.starts[k], plan.starts[k + 1], plan.d + 1)
      requires target <= |c| && NodeAt(c, target, t)
      ensures ChildReady(c, plan, k, target, t)
    {
    }

    /** The unit-value pairs of a list node, after the child of its last unit. */
    method WriteUnitPairs(ghost plan: Plan, es: seq<Entry>, starts: seq<nat>, unitIndex: nat,
                          isFinal: seq<bool>, targets: seq<nat>, ghost children: seq<Trie>, ghost last: Trie)
      returns (offset: nat, ghost edges: seq<Edge>)
      requires buf.Valid()
      requires plan.Valid() && plan.es == es && plan.starts == starts && plan.d == unitIndex
      requires |isFinal| == |starts| - 1 >= 1 && plan.FlagsAre(isFinal)
      requires ChildrenReady(buf.contents, plan, targets, children, 0)
      requires NodeAt(buf.contents, |buf.contents|, last)
      requires Ordered(last) && starts[|isFinal|] < plan.limit <= |es|
      requires Entries(last) == Suffixes(es, starts[|isFinal|], plan.limit, unitIndex + 1)
      modifies buf, buf.bytes
      ensures buf.Valid() && (buf.bytes == old(buf.bytes) || fresh(buf.bytes))
      ensures IsSuffix(old(buf.contents), buf.contents)
      ensures offset == |buf.contents| > |old(buf.contents)|
      ensures EdgesFor(es, starts[0], plan.limit, unitIndex, edges)
      ensures ListAt(buf.contents, offset, edges)
    {
      hide *;
      var unitNumber: nat := |isFinal|;
      ghost var c := buf.contents;
      plan.LastGroup();
      ChildrenShape(c, plan, targets, children, 0);
      EdgesForOne(es, starts[unitNumber], plan.limit, unitIndex, last);
      offset := buf.Write(UnitAt(es, starts[unitNumber], unitIndex));
      edges := [Edge(UnitAt(es, starts[unitNumber], unitIndex), last)];
      LastUnit(c, buf.contents, edges[0]);
      SuffixOfConcat([edges[0].unit], c);
      ChildrenKept(c, buf.contents, plan, targets, children, 0);
      while unitNumber > 0
        invariant buf.Valid() && (buf.bytes == old(buf.bytes) || fresh(buf.bytes))
        invariant IsSuffix(old(buf.contents), buf.contents)
        invariant offset == |buf.contents| > |old(buf.contents)|
        invariant unitNumber <= |isFinal| == |targets| == |children|
        invariant ChildrenReady(buf.contents, plan, targets, children, 0)
        invariant EdgesFor(es, starts[unitNumber], plan.limit, unitIndex, edges)
        invariant ListAt(buf.contents, |buf.contents|, edges)
      {
        unitNumber := unitNumber - 1;
        c := buf.contents;
        offset, edges := WritePair(plan, es, starts, unitIndex, isFinal, targets, children, unitNumber, edges);
        SuffixTrans(old(buf.contents), c, buf.contents);
        ChildrenKept(c, buf.contents, plan, targets, children, 0);
      }
    }

    /** One such pair, in front of those in rest. */
    method WritePair(ghost plan: Plan, es: seq<Entry>, starts: seq<nat>, unitIndex: nat,
                     isFinal: seq<bool>, targets: seq<nat>, ghost children: seq<Trie>, k: nat, ghost rest: seq<Edge>)
      returns (offset: nat, ghost edges: seq<Edge>)
      requires buf.Valid()
      requires plan.Valid() && plan.es == es && plan.starts == starts && plan.d == unitIndex
      requires k < |isFinal| == |starts| - 1 == |targets| == |children| && plan.FlagsAre(isFinal)
      requires ChildrenReady(buf.contents, plan, targets, children, 0)
      requires EdgesFor(es, starts[k + 1], plan.limit, unitIndex, rest)
      requires ListAt(buf.contents, |buf.contents|, rest)
      modifies buf, buf.bytes
      ensures buf.Valid() && (buf.bytes == old(buf.bytes) || fresh(buf.bytes))
      ensures IsSuffix(old(buf.contents), buf.contents)
      ensures offset == |buf.contents| > |old(buf.contents)|
      ensures EdgesFor(es, starts[k], plan.limit, unitIndex, edges)
      ensures ListAt(buf.contents, |buf.contents|, edges)
    {
      hide *;
      ghost var c := buf.contents;
      plan.Group(k);
      plan.Flag(isFinal, k);
      buf.ContentsLength();
      var value := if isFinal[k] then es[starts[k]].value else Wrap32(buf.bytesLength - targets[k]);
      offset := buf.WriteValueAndFinal(value, isFinal[k]);
      offset := buf.Write(UnitAt(es, starts[k], unitIndex));
      PairWritten(c, buf.contents, plan, targets, children, k, rest, value);
      edges := [Edge(UnitAt(es, starts[k], unitIndex), children[k])] + rest;
    }

    method WriteListNode(es: seq<Entry>, start: nat, limit: nat, unitIndex: nat, length: nat)
      returns (offset: nat, ghost edges: seq<Edge>)
      requires buf.Valid()
      requires LongSlice(es, start, limit, unitIndex)
      requires 2 <= length == Units(es, start, limit, unitIndex) <= MAX_BRANCH_LINEAR_SUB_NODE_LENGTH
      modifies buf, buf.bytes
      ensures buf.Valid() && (buf.bytes == old(buf.bytes) || fresh(buf.bytes))
      ensures IsSuffix(old(buf.contents), buf.contents)
      ensures offset == |buf.contents| > |old(buf.contents)|
      ensures EdgesFor(es, start, limit, unitIndex, edges)
      ensures BranchAt(buf.contents, offset, edges)
      decreases limit - start, |es[start].key| - unitIndex, 0, 1
    {
      hide *;
      LongFacts(es, start, limit, unitIndex, start);
      var starts, isFinal := FindGroups(es, start, limit, unitIndex, length);
      ghost var plan := Plan(es, starts, limit, unitIndex);
      plan.LastGroup();
      var targets;
      ghost var children;
      targets, children := WriteChildren(plan, es, starts, unitIndex, isFinal);
      ghost var c := buf.contents;
      var lastOffset;
      ghost var last;
      lastOffset, last := WriteNode(es, starts[length - 1], limit, unitIndex + 1);
      SuffixTrans(old(buf.contents), c, buf.contents);
      ChildrenKept(c, buf.contents, plan, targets, children, 0);
      c := buf.contents;
      offset, edges := WriteUnitPairs(plan, es, starts, unitIndex, isFinal, targets, children, last);
      SuffixTrans(old(buf.contents), c, buf.contents);
      EdgesForFacts(es, start, limit, unitIndex, edges);
      ListIsBranch(buf.contents, edges);
    }
  }
}
