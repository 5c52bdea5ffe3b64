/** What the compiled tables of a BMPSet mean, in terms of the inversion list alone. */
module BmpSetSpec {
  import opened Basics
  import opened InversionLists
  import opened VerticalTables

  const BLOCKS := 0x400   // 64-code-point blocks of the BMP
  const MIXED := 0x400    // distance from a block's value entry to its "mixed" entry

  /** One byte per ASCII character, then one per trail byte. */
  ghost predicate AsciiIs(ascii: seq<bool>, list: seq<int>, trailValue: bool) {
    && |ascii| == 0xC0
    && (forall c :: 0 <= c < 0x80 ==> ascii[c] == Member(list, c))
    && (forall c :: 0x80 <= c < 0xC0 ==> ascii[c] == trailValue)
  }

  /** One bit per code point below U+0800; low is the value of the overlong forms. */
  ghost predicate Table7FFIs(table: seq<nat>, list: seq<int>, low: bool) {
    && |table| == 64
    && (forall i :: 0 <= i < 0x80 ==> At(table, i) == low)
    && (forall i :: 0x80 <= i < 0x800 ==> At(table, i) == Member(list, i))
  }

  /** One of the first n boundaries lies strictly inside block b. */
  ghost predicate Inside(list: seq<int>, n: int, b: int) {
    exists j :: 0 <= j < n && j < |list| && 64 * b < list[j] < 64 * b + 64
  }

  ghost predicate Mixed(list: seq<int>, b: int) {
    Inside(list, |list|, b)
  }

  /** One of the first k ranges covers all of block b. */
  ghost predicate Covered(list: seq<int>, k: nat, b: int) {
    exists r: nat :: r < k && 2 * r < |list| && list[2 * r] <= 64 * b && 64 * b + 64 <= RangeLimit(list, r)
  }

  /** The "mixed" entry of block b. */
  predicate MixedAt(table: seq<nat>, b: int)
    requires |table| == 64 && 0 <= b < BLOCKS
  {
    At(table, b + MIXED)
  }

  /** The value entry of block b. */
  predicate ValueAt(table: seq<nat>, b: int)
    requires |table| == 64 && 0 <= b < BLOCKS
  {
    At(table, b)
  }

  /** Block b as initBits() leaves it. */
  ghost predicate BlockIs(table: seq<nat>, list: seq<int>, b: int)
    requires |table| == 64 && 0 <= b < BLOCKS
  {
    && MixedAt(table, b) == Mixed(list, b)
    && ValueAt(table, b) == (Mixed(list, b) || Member(list, 64 * b))
  }

  /** Block b with one forced value for all its code points. */
  ghost predicate BlockForced(table: seq<nat>, b: int, value: bool)
    requires |table| == 64 && 0 <= b < BLOCKS
  {
    !MixedAt(table, b) && ValueAt(table, b) == value
  }

  predicate IllegalBlock(b: int) {
    0 <= b < 0x20 || 0x360 <= b < 0x380
  }

  ghost predicate BlocksAreInit(table: seq<nat>, list: seq<int>) {
    && |table| == 64
    && (forall b :: 0 <= b < 0x20 ==> BlockForced(table, b, false))
    && (forall b :: 0x20 <= b < BLOCKS ==> BlockIs(table, list, b))
  }

  ghost predicate BlocksAre(table: seq<nat>, list: seq<int>, illegalValue: bool) {
    && |table| == 64
    && (forall b :: 0 <= b < BLOCKS && IllegalBlock(b) ==> BlockForced(table, b, illegalValue))
    && (forall b :: 0 <= b < BLOCKS && !IllegalBlock(b) ==> BlockIs(table, list, b))
  }

  /** list4kStarts[0] is for U+0800, list4kStarts[i] for i << 12. */
  function StartOf(i: nat): int {
    if i == 0 then 0x800 else i * 0x1000
  }

  ghost predicate StartsAre(starts: seq<int>, list: seq<int>) {
    && |starts| == 18
    && (forall i :: 0 <= i <= 0x10 ==> starts[i] == Rank(list, StartOf(i)))
    && starts[0x11] == |list| - 1
  }

  /** The bounds of consecutive starts are themselves in order and inside the list. */
  lemma StartRanks(list: seq<int>, i: nat)
    requires IsInversionList(list)
    requires 1 <= i <= 0x10
    ensures Rank(list, StartOf(i - 1)) <= Rank(list, StartOf(i)) < |list|
  {
    RankMonotone(list, StartOf(i - 1), StartOf(i));
    RankBelowHigh(list, StartOf(i));
  }

  /** A block without an inner boundary has one membership value. */
  lemma UnmixedIsUniform(list: seq<int>, b: int, c: int)
    requires IsInversionList(list)
    requires !Mixed(list, b)
    requires 64 * b <= c < 64 * b + 64
    ensures Member(list, c) == Member(list, 64 * b)
  {
    RankMonotone(list, 64 * b, c);
    var r := Rank(list, 64 * b);
    if r < |list| {
      RankIs(list, c, r);
    }
  }

  /** The blocks after the first k ranges have been entered. */
  ghost predicate BlocksSoFar(table: seq<nat>, list: seq<int>, k: nat) {
    && |table| == 64
    && (forall b :: 0 <= b < 0x20 ==> BlockForced(table, b, false))
    && (forall b :: 0x20 <= b < BLOCKS ==> MixedAt(table, b) == Inside(list, 2 * k, b))
    && (forall b :: 0x20 <= b < BLOCKS ==> ValueAt(table, b) == (Inside(list, 2 * k, b) || Covered(list, k, b)))
  }

  /** minStart ends the last mixed block seen among the first k ranges. */
  ghost predicate MinStartIs(minStart: int, list: seq<int>, k: nat) {
    && 0x800 <= minStart <= 0x10000
    && minStart % 64 == 0
    && (forall b :: 0x20 <= b < BLOCKS && Inside(list, 2 * k, b) ==> 64 * b + 64 <= minStart)
    && (minStart > 0x800 ==> Inside(list, 2 * k, minStart / 64 - 1))
  }

  /** Rounds up to a block edge. */
  function RoundUp(x: int): int {
    (x + 63) / 64 * 64
  }

  /** The block in which the range start..limit-1 begins off an edge, or -1. */
  function StartMark(start: int, limit: int): int {
    if start < limit && start % 64 != 0 then start / 64 else -1
  }

  /** The block in which that range ends off an edge, unless it is the same block, or -1. */
  function LimitMark(start: int, limit: int): int {
    if RoundUp(start) < limit && limit % 64 != 0 then limit / 64 else -1
  }

  /** limit as entering the range leaves it. */
  function RoundedLimit(start: int, limit: int): int {
    if LimitMark(start, limit) >= 0 then RoundUp(limit) else limit
  }

  function NewMinStart(start: int, limit: int, minStart: int): int {
    if LimitMark(start, limit) >= 0 then RoundUp(limit)
    else if StartMark(start, limit) >= 0 then RoundUp(start)
    else minStart
  }

  /** The table after entering one range, given the table before. */
  ghost predicate RangeEntered(before: seq<nat>, after: seq<nat>, start: int, limit: int) {
    && |before| == |after| == 64
    && (forall b :: 0 <= b < BLOCKS ==>
      MixedAt(after, b) ==
      (MixedAt(before, b) || b == StartMark(start, limit) || b == LimitMark(start, limit)))
    && (forall b :: 0 <= b < BLOCKS ==>
      ValueAt(after, b) ==
      (ValueAt(before, b) || b == StartMark(start, limit) || b == LimitMark(start, limit) ||
       (RoundUp(start) <= 64 * b && 64 * b + 64 <= limit)))
  }

  /** The same, entry by entry: two mixed blocks (none if negative) and a run of full blocks. */
  ghost predicate EntriesSet(before: seq<nat>, after: seq<nat>, first: int, from: int, to: int, last: int) {
    && |before| == |after| == 64
    && (forall i :: 0 <= i < 0x800 ==>
      At(after, i) ==
      (At(before, i) || (first >= 0 && (i == first || i == first + MIXED)) || from <= i < to ||
       (last >= 0 && (i == last || i == last + MIXED))))
  }

  lemma EntriesAreRange(before: seq<nat>, after: seq<nat>, start: int, limit: int, from: int, to: int)
    requires 0 <= start && 0 <= limit <= 0x10000
    requires EntriesSet(before, after, StartMark(start, limit), from, to, LimitMark(start, limit))
    requires if RoundUp(start) < limit then from == RoundUp(start) / 64 && to == limit / 64 else from == to
    ensures RangeEntered(before, after, start, limit)
  {
    forall b | 0 <= b < BLOCKS
      ensures from <= b < to <==> RoundUp(start) <= 64 * b && 64 * b + 64 <= limit
      ensures !(from <= b + MIXED < to)
    {
    }
  }

  /** The range that the third loop of initBits() enters on its k-th turn. */
  function EnteredStart(list: seq<int>, k: nat, minStart: int): int
    requires 2 * k < |list|
  {
    Max(Max(list[2 * k], 0x800), minStart)
  }

  function EnteredLimit(list: seq<int>, k: nat): int {
    Min(RangeLimit(list, k), 0x10000)
  }

  /** Entering range k marks exactly the blocks its two boundaries fall into. */
  lemma NewInside(list: seq<int>, k: nat, minStart: int, b: int)
    requires IsInversionList(list) && 2 * k < |list|
    requires MinStartIs(minStart, list, k)
    requires 0x20 <= b < BLOCKS
    ensures var start := EnteredStart(list, k, minStart);
            var limit := EnteredLimit(list, k);
            Inside(list, 2 * k + 2, b) <==>
            Inside(list, 2 * k, b) || b == StartMark(start, limit) || b == LimitMark(start, limit)
  {
    var start := EnteredStart(list, k, minStart);
    var limit := EnteredLimit(list, k);
    assert b == StartMark(start, limit) ==> start == list[2 * k];
    assert b == LimitMark(start, limit) ==> limit == list[2 * k + 1];
    if minStart > 0x800 {
      var j :| 0 <= j < 2 * k && j < |list| && minStart - 64 < list[j] < minStart;
      assert list[j] < list[2 * k];
    }
    assert Inside(list, 2 * k, b) ==> Inside(list, 2 * k + 2, b);
  }

  lemma NewCovered(list: seq<int>, k: nat, minStart: int, b: int)
    requires IsInversionList(list) && 2 * k < |list|
    requires MinStartIs(minStart, list, k)
    requires 0x20 <= b < BLOCKS
    ensures var start := EnteredStart(list, k, minStart);
            var limit := EnteredLimit(list, k);
            Covered(list, k + 1, b) <==>
            Covered(list, k, b) || (RoundUp(start) <= 64 * b && 64 * b + 64 <= limit)
  {
    hide IsInversionList, Covered, MinStartIs;
    CoveredNext(list, k, b);
    MinStartIsBefore(list, k, minStart);
  }

  /** The next range begins after the last mark did. */
  lemma MinStartIsBefore(list: seq<int>, k: nat, minStart: int)
    requires IsInversionList(list) && 2 * k < |list| && MinStartIs(minStart, list, k)
    ensures 0x800 <= minStart <= 0x10000 && minStart % 64 == 0
    ensures minStart > 0x800 ==> minStart - 64 < list[2 * k]
  {
    if minStart > 0x800 {
      var j :| 0 <= j < 2 * k && j < |list| && minStart - 64 < list[j] < minStart;
      assert list[j] < list[2 * k];
    }
  }

  /** One more range covers the blocks inside it. */
  lemma CoveredNext(list: seq<int>, k: nat, b: int)
    requires IsInversionList(list) && 2 * k < |list|
    ensures Covered(list, k + 1, b) <==>
            Covered(list, k, b) || (list[2 * k] <= 64 * b && 64 * b + 64 <= RangeLimit(list, k))
  {
    hide IsInversionList, RangeLimit;
    if Covered(list, k + 1, b) {
      var r: nat :| r < k + 1 && 2 * r < |list| && list[2 * r] <= 64 * b && 64 * b + 64 <= RangeLimit(list, r);
      assert r == k || Covered(list, k, b);
    }
    if list[2 * k] <= 64 * b && 64 * b + 64 <= RangeLimit(list, k) {
      assert k < k + 1;
      assert Covered(list, k + 1, b);
    }
  }

  /** One turn of that loop. */
  lemma BlocksStep(before: seq<nat>, after: seq<nat>, list: seq<int>, k: nat, minStart: int)
    requires IsInversionList(list) && 2 * k < |list|
    requires MinStartIs(minStart, list, k) && BlocksSoFar(before, list, k)
    requires RangeEntered(before, after, EnteredStart(list, k, minStart), EnteredLimit(list, k))
    ensures BlocksSoFar(after, list, k + 1)
  {
    forall b | 0x20 <= b < BLOCKS
      ensures MixedAt(after, b) == Inside(list, 2 * (k + 1), b)
      ensures ValueAt(after, b) == (Inside(list, 2 * (k + 1), b) || Covered(list, k + 1, b))
    {
      NewInside(list, k, minStart, b);
      NewCovered(list, k, minStart, b);
    }
    forall b | 0 <= b < 0x20 ensures BlockForced(after, b, false) {
      assert BlockForced(before, b, false);
    }
  }

  lemma MinStartStep(list: seq<int>, k: nat, minStart: int)
    requires IsInversionList(list) && 2 * k < |list|
    requires MinStartIs(minStart, list, k)
    ensures MinStartIs(NewMinStart(EnteredStart(list, k, minStart), EnteredLimit(list, k), minStart), list, k + 1)
  {
    hide Inside, NewMinStart, StartMark, LimitMark, EnteredStart, EnteredLimit, IsInversionList;
    var start := EnteredStart(list, k, minStart);
    var limit := EnteredLimit(list, k);
    var minStart' := NewMinStart(start, limit, minStart);
    EnteredFacts(list, k, minStart);
    NewMinStartFacts(start, limit, minStart);
    forall b | 0x20 <= b < BLOCKS && Inside(list, 2 * (k + 1), b) ensures 64 * b + 64 <= minStart' {
      NewInside(list, k, minStart, b);
    }
    if minStart' > 0x800 {
      NewInside(list, k, minStart, minStart' / 64 - 1);
    }
  }

  lemma EnteredFacts(list: seq<int>, k: nat, minStart: int)
    requires IsInversionList(list) && 2 * k < |list| && 0x800 <= minStart
    ensures EnteredStart(list, k, minStart) >= minStart && EnteredLimit(list, k) <= 0x10000
  {
  }

  /** minStart ends the last block marked, and nothing marked lies after it. */
  lemma NewMinStartFacts(start: int, limit: int, minStart: int)
    requires 0x800 <= minStart <= start && minStart % 64 == 0 && minStart <= 0x10000 && limit <= 0x10000
    ensures var m := NewMinStart(start, limit, minStart);
            && minStart <= m <= 0x10000 && m % 64 == 0
            && (StartMark(start, limit) >= 0 ==> 64 * StartMark(start, limit) + 64 <= m)
            && (LimitMark(start, limit) >= 0 ==> 64 * LimitMark(start, limit) + 64 <= m)
            && (m == minStart || m / 64 - 1 == StartMark(start, limit) || m / 64 - 1 == LimitMark(start, limit))
  {
  }

  /** The ranges below U+0800 leave no trace in the block table. */
  lemma BlocksStart(table: seq<nat>, list: seq<int>, k: nat)
    requires IsInversionList(list)
    requires |table| == 64 && forall i :: 0 <= i < 0x800 ==> !At(table, i)
    requires 2 * k <= |list|
    requires k > 0 ==> RangeLimit(list, k - 1) <= 0x800
    ensures BlocksSoFar(table, list, k) && MinStartIs(0x800, list, k)
  {
    forall b | 0x20 <= b < BLOCKS ensures !Inside(list, 2 * k, b) && !Covered(list, k, b) {
      assert forall j :: 0 <= j < 2 * k ==> list[j] <= 0x800;
    }
  }

  /** No boundary from 2 * k on can change a block any more. */
  ghost predicate Finished(list: seq<int>, k: nat) {
    forall j :: 2 * k <= j < |list| ==>
      list[j] >= 0x10000 || (list[j] > 0xFFC0 && Inside(list, 2 * k, BLOCKS - 1))
  }

  lemma FinishedBeyondBmp(list: seq<int>, k: nat)
    requires IsInversionList(list) && 2 * k < |list|
    requires list[2 * k] >= 0x10000
    ensures Finished(list, k)
  {
  }

  /** Entering a range up to the last block edge finishes the table. */
  lemma FinishedAtLastEdge(list: seq<int>, k: nat, minStart: int)
    requires IsInversionList(list) && 2 * k < |list|
    requires MinStartIs(minStart, list, k)
    requires RoundedLimit(EnteredStart(list, k, minStart), EnteredLimit(list, k)) == 0x10000
    ensures Finished(list, k + 1)
  {
    if RangeLimit(list, k) < 0x10000 {
      NewInside(list, k, minStart, BLOCKS - 1);
    }
  }

  /** Once no later boundary can change a block, the table is complete. */
  lemma BlocksDone(table: seq<nat>, list: seq<int>, k: nat)
    requires IsInversionList(list)
    requires BlocksSoFar(table, list, k)
    requires Finished(list, k)
    ensures BlocksAreInit(table, list)
  {
    assert |table| == 64;
    forall b | 0x20 <= b < BLOCKS ensures BlockIs(table, list, b) {
      if Mixed(list, b) {
        var j :| 0 <= j < |list| && 64 * b < list[j] < 64 * b + 64;
        assert Inside(list, 2 * k, b);
      } else {
        UnmixedBlock(list, k, b);
        assert !Inside(list, 2 * k, b);
      }
    }
  }

  lemma UnmixedBlock(list: seq<int>, k: nat, b: int)
    requires IsInversionList(list)
    requires 0x20 <= b < BLOCKS && !Mixed(list, b)
    requires forall j :: 2 * k <= j < |list| ==> list[j] > 64 * b
    ensures Covered(list, k, b) == Member(list, 64 * b)
  {
    MemberIffInSomeRange(list, 64 * b);
    if Covered(list, k, b) {
      var r: nat :| r < k && 2 * r < |list| && list[2 * r] <= 64 * b && 64 * b + 64 <= RangeLimit(list, r);
      assert InRange(list, r, 64 * b);
    }
    if Member(list, 64 * b) {
      var r: nat :| InRange(list, r, 64 * b);
      assert r < k && 64 * b + 64 <= RangeLimit(list, r);
    }
  }

  /** The surrogate blocks are the words 32..63 at the bits 13 and 29. */
  lemma SurrogateIndex(i: nat)
    requires i < 0x800
    ensures (i % 64 >= 32 && (i / 64 == 13 || i / 64 == 29)) <==> 0x360 <= i % BLOCKS < 0x380
  {
    assert i % BLOCKS == if i < BLOCKS then i else i - BLOCKS;
  }

  /** Forcing the illegal blocks leaves the others as they were. */
  lemma BlocksOverridden(after: seq<nat>, before: seq<nat>, list: seq<int>, value: bool)
    requires |after| == 64 && BlocksAreInit(before, list)
    requires forall b :: 0 <= b < BLOCKS ==> MixedAt(after, b) == (!IllegalBlock(b) && MixedAt(before, b))
    requires forall b :: 0 <= b < BLOCKS ==> ValueAt(after, b) == if IllegalBlock(b) then value else ValueAt(before, b)
    ensures BlocksAre(after, list, value)
  {
    forall b | 0 <= b < BLOCKS && !IllegalBlock(b) ensures BlockIs(after, list, b) {
      assert BlockIs(before, list, b);
    }
  }

  /** What one 3-byte lookup answers: forced values for overlong forms and surrogates. */
  predicate ThreeByteValue(list: seq<int>, c: int) {
    if c < 0x800 || 0xD800 <= c < 0xE000 then Member(list, 0xFFFD) else Member(list, c)
  }

  /** Reading a block's two entries decides all its code points unless it is mixed. */
  lemma BlockLookup(table: seq<nat>, list: seq<int>, c: int)
    requires IsInversionList(list)
    requires BlocksAre(table, list, Member(list, 0xFFFD))
    requires 0 <= c < 0x10000
    ensures !MixedAt(table, c / 64) ==> ValueAt(table, c / 64) == ThreeByteValue(list, c)
    ensures MixedAt(table, c / 64) ==> 0x800 <= c && !(0xD800 <= c < 0xE000)
  {
    var b := c / 64;
    if IllegalBlock(b) {
      assert BlockForced(table, b, Member(list, 0xFFFD));
    } else {
      assert BlockIs(table, list, b);
      if !Mixed(list, b) {
        UnmixedIsUniform(list, b, c);
      }
    }
  }

  /** The narrowed search bounds enclose the rank of every code point they are used for. */
  lemma BoundsEnclose(starts: seq<int>, list: seq<int>, i: nat, c: int)
    requires IsInversionList(list) && StartsAre(starts, list)
    requires i <= 0x10 && StartOf(i) <= c < HIGH
    ensures 0 <= starts[i] <= Rank(list, c) <= starts[0x11] < |list|
    ensures i < 0x10 && c < StartOf(i + 1) ==> Rank(list, c) <= starts[i + 1] < |list|
  {
    RankMonotone(list, StartOf(i), c);
    RankBelowHigh(list, c);
    if i < 0x10 && c < StartOf(i + 1) {
      RankMonotone(list, c, StartOf(i + 1));
      RankBelowHigh(list, StartOf(i + 1));
    }
  }
}
