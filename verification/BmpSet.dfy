/**
  * BMPSet: a frozen-set accelerator. An inversion list is compiled into byte and
  * bit tables plus narrowed binary-search bounds, from which contains() and the
  * span functions are answered.
  */
module BmpSets {
  import opened Basics
  import opened InversionLists
  import opened Bits
  import opened VerticalTables
  import opened BmpSetSpec
  import Utf16
  import Utf8

  /** The bits of a code unit, as the tables are indexed by them. */
  lemma UnitSplits(list: seq<int>, c: int)
    requires 0 <= c < 0x10000
    ensures c < 0x800 ==> 0 <= c / 64 < 32 && 0 <= c % 64 < 64 && c / 64 * 64 + c % 64 == c
    ensures 0 <= c / 0x1000 < 16 && 0 <= c / 64 % 64 < 64 && 0 <= c % 64 < 64
    ensures c / 0x1000 * 0x1000 + c / 64 % 64 * 0x40 + c % 64 == c
    ensures c >= 0x800 && !Utf16.IsSurrogate(c) ==> ThreeByteValue(list, c) == Member(list, c)
  {
    hide Member;
  }

  class BmpSet {
    const list: seq<int>
    const asciiBytes: array<bool>
    const table7FF: array<nat>
    const bmpBlockBits: array<nat>
    const list4kStarts: array<int>

    ghost predicate Shape()
      reads this
    {
      && IsInversionList(list)
      && asciiBytes.Length == 0xC0
      && table7FF.Length == bmpBlockBits.Length == 64
      && table7FF != bmpBlockBits
      && list4kStarts.Length == 18
    }

    /** The tables agree with plain membership, except for the overridden illegal entries. */
    ghost predicate Valid()
      reads this, asciiBytes, table7FF, bmpBlockBits, list4kStarts
    {
      && Shape()
      && StartsAre(list4kStarts[..], list)
      && AsciiIs(asciiBytes[..], list, Member(list, Utf8.REPLACEMENT))
      && Table7FFIs(table7FF[..], list, Member(list, Utf8.REPLACEMENT))
      && BlocksAre(bmpBlockBits[..], list, Member(list, Utf8.REPLACEMENT))
    }

    constructor (parentList: seq<int>)
      requires IsInversionList(parentList)
      ensures Valid() && list == parentList
      ensures fresh(asciiBytes) && fresh(table7FF) && fresh(bmpBlockBits) && fresh(list4kStarts)
    {
      list := parentList;
      asciiBytes := new bool[0xC0](_ => false);
      table7FF := new nat[64](_ => 0);
      bmpBlockBits := new nat[64](_ => 0);
      list4kStarts := new int[18](_ => 0);
      new;
      InitStarts();
      InitBits();
      OverrideIllegal();
    }

    /** Shares nothing with other but its contents. */
    constructor CopyOf(other: BmpSet, newParentList: seq<int>)
      requires other.Valid() && newParentList == other.list
      ensures Valid() && list == newParentList
    {
      list := newParentList;
      var ascii := new bool[0xC0](i requires 0 <= i < 0xC0 && other.asciiBytes.Length == 0xC0
                                    reads other.asciiBytes => other.asciiBytes[i]);
      var table := new nat[64](i requires 0 <= i < 64 && other.table7FF.Length == 64
                                 reads other.table7FF => other.table7FF[i]);
      var blocks := new nat[64](i requires 0 <= i < 64 && other.bmpBlockBits.Length == 64
                                  reads other.bmpBlockBits => other.bmpBlockBits[i]);
      var starts := new int[18](i requires 0 <= i < 18 && other.list4kStarts.Length == 18
                                  reads other.list4kStarts => other.list4kStarts[i]);
      asciiBytes, table7FF, bmpBlockBits, list4kStarts := ascii, table, blocks, starts;
      new;
      assert asciiBytes[..] == other.asciiBytes[..];
      assert table7FF[..] == other.table7FF[..];
      assert bmpBlockBits[..] == other.bmpBlockBits[..];
      assert list4kStarts[..] == other.list4kStarts[..];
    }

    /** The smallest i in lo..hi such that c < list[i], or hi. */
    method FindCodePoint(c: int, lo: nat, hi: nat) returns (r: nat)
      requires IsInversionList(list)
      requires lo <= hi < |list|
      ensures r == Max(lo, Min(Rank(list, c), hi))
    {
      if c < list[lo] {
        return lo;
      }
      if lo >= hi || c >= list[hi - 1] {
        return hi;
      }
      var l, h := lo, hi;
      while true
        invariant lo <= l < h <= hi
        invariant list[l] <= c < list[h]
        decreases h - l
      {
        var i := (l + h) / 2;
        if i == l {
          break;
        } else if c < list[i] {
          h := i;
        } else {
          l := i;
        }
      }
      RankIs(list, c, h);
      return h;
    }

    method ContainsSlow(c: int, lo: nat, hi: nat) returns (r: bool)
      requires IsInversionList(list)
      requires lo <= hi < |list|
      requires lo <= Rank(list, c) <= hi
      ensures r == Member(list, c)
    {
      var i := FindCodePoint(c, lo, hi);
      r := i % 2 == 1;
    }

    method InitStarts()
      requires Shape()
      modifies list4kStarts
      ensures StartsAre(list4kStarts[..], list)
    {
      hide Rank;
      var first := FindCodePoint(0x800, 0, |list| - 1);
      list4kStarts[0] := first;
      for i := 1 to 0x11
        invariant forall j :: 0 <= j < i ==> list4kStarts[j] == Rank(list, StartOf(j))
      {
        StartRanks(list, i);
        var next := FindCodePoint(i * 0x1000, list4kStarts[i - 1], |list| - 1);
        list4kStarts[i] := next;
      }
      list4kStarts[0x11] := |list| - 1;
    }

    /** listIndex is past the pair whose start is list[2 * k]. */
    ghost predicate PastPair(listIndex: int, k: nat)
      reads this
    {
      2 * k < |list| && listIndex == Min(2 * k + 2, |list|)
    }

    /** Reads the next range limit, which the end of the list may leave open. */
    method ReadLimit(listIndex: int, ghost k: nat) returns (limit: int, nextIndex: int)
      requires listIndex == 2 * k + 1 && 2 * k < |list|
      ensures limit == RangeLimit(list, k)
      ensures PastPair(nextIndex, k)
    {
      nextIndex := listIndex;
      if listIndex < |list| {
        limit := list[listIndex];
        nextIndex := listIndex + 1;
      } else {
        limit := HIGH;
      }
    }

    method InitBits()
      requires Shape()
      requires forall c :: 0 <= c < 0xC0 ==> !asciiBytes[c]
      requires forall t :: 0 <= t < 64 ==> table7FF[t] == 0 && bmpBlockBits[t] == 0
      modifies asciiBytes, table7FF, bmpBlockBits
      ensures AsciiIs(asciiBytes[..], list, false)
      ensures Table7FFIs(table7FF[..], list, false)
      ensures BlocksAreInit(bmpBlockBits[..], list)
    {
      var start, limit, listIndex;
      ghost var k;
      start, limit, listIndex, k := InitAscii();
      start, limit, listIndex, k := InitTable7FF(start, limit, listIndex, k);
      InitBlocks(start, limit, listIndex, k);
    }

    /** Members of range k have rank 2 * k + 1; up to the next range the rank is 2 * k + 2. */
    lemma RanksAround(k: nat)
      requires IsInversionList(list) && 2 * k < |list|
      ensures forall c :: list[2 * k] <= c < RangeLimit(list, k) && c < HIGH ==> Member(list, c)
      ensures forall c :: 2 * k + 2 < |list| && RangeLimit(list, k) <= c < list[2 * k + 2] ==> !Member(list, c)
    {
      forall c | list[2 * k] <= c < RangeLimit(list, k) && c < HIGH ensures Member(list, c) {
        RankIs(list, c, 2 * k + 1);
      }
      forall c | 2 * k + 2 < |list| && RangeLimit(list, k) <= c < list[2 * k + 2] ensures !Member(list, c) {
        RankIs(list, c, 2 * k + 2);
      }
    }

    method InitAscii() returns (start: int, limit: int, listIndex: int, ghost k: nat)
      requires Shape()
      requires forall c :: 0 <= c < 0xC0 ==> !asciiBytes[c]
      modifies asciiBytes
      ensures AsciiIs(asciiBytes[..], list, false)
      ensures PastPair(listIndex, k)
      ensures start == Max(list[2 * k], 0x80) && limit == RangeLimit(list, k) && limit > 0x80
      ensures k > 0 ==> RangeLimit(list, k - 1) <= 0x80
    {
      hide Rank;
      listIndex, k := 0, 0;
      forall c | 0 <= c < list[0] ensures !Member(list, c) { RankIs(list, c, 0); }
      while true
        invariant listIndex == 2 * k < |list|
        invariant k > 0 ==> RangeLimit(list, k - 1) <= 0x80
        invariant forall c :: 0 <= c < 0x80 ==> asciiBytes[c] == (c < list[2 * k] && Member(list, c))
        invariant forall c :: 0x80 <= c < 0xC0 ==> !asciiBytes[c]
        decreases |list| - listIndex
      {
        start := list[listIndex];
        listIndex := listIndex + 1;
        limit, listIndex := ReadLimit(listIndex, k);
        RanksAround(k);
        if start >= 0x80 {
          break;
        }
        while true
          invariant list[2 * k] <= start < limit && start < 0x80
          invariant forall c :: 0 <= c < 0x80 ==> asciiBytes[c] == (c < start && Member(list, c))
          invariant forall c :: 0x80 <= c < 0xC0 ==> !asciiBytes[c]
          decreases 0x80 - start
        {
          asciiBytes[start] := true;
          start := start + 1;
          if !(start < limit && start < 0x80) {
            break;
          }
        }
        if !(limit <= 0x80) {
          break;
        }
        k := k + 1;
      }
    }

    method InitTable7FF(start0: int, limit0: int, listIndex0: int, ghost k0: nat)
      returns (start: int, limit: int, listIndex: int, ghost k: nat)
      requires Shape()
      requires PastPair(listIndex0, k0)
      requires start0 == Max(list[2 * k0], 0x80) && limit0 == RangeLimit(list, k0) && limit0 > 0x80
      requires k0 > 0 ==> RangeLimit(list, k0 - 1) <= 0x80
      requires forall t :: 0 <= t < 64 ==> table7FF[t] == 0
      modifies table7FF
      ensures Table7FFIs(table7FF[..], list, false)
      ensures PastPair(listIndex, k)
      ensures start == Max(list[2 * k], 0x800) && limit == RangeLimit(list, k) && limit > 0x800
      ensures k > 0 ==> RangeLimit(list, k - 1) <= 0x800
    {
      hide Rank, At;
      start, limit, listIndex, k := start0, limit0, listIndex0, k0;
      if k0 > 0 {
        RanksAround(k0 - 1);
      } else {
        forall c | 0 <= c < list[0] ensures !Member(list, c) { RankIs(list, c, 0); }
      }
      forall i | 0 <= i < 0x800 ensures !At(table7FF[..], i) { ZeroAt(table7FF[..], i); }
      while start < 0x800
        invariant PastPair(listIndex, k)
        invariant start == Max(list[2 * k], 0x80) && limit == RangeLimit(list, k) && limit > 0x80
        invariant k > 0 ==> RangeLimit(list, k - 1) <= 0x800
        invariant forall i :: 0 <= i < 0x800 ==>
          At(table7FF[..], i) == (0x80 <= i < list[2 * k] && Member(list, i))
        decreases |list| - listIndex
      {
        RanksAround(k);
        Set32x64Bits(table7FF, start, if limit <= 0x800 then limit else 0x800);
        if limit > 0x800 {
          start := 0x800;
          break;
        }
        start := list[listIndex];
        listIndex := listIndex + 1;
        k := k + 1;
        limit, listIndex := ReadLimit(listIndex, k);
      }
    }

    /** bmpBlockBits[b & 0x3F] |= 0x10001 << (b >> 6) */
    method MarkMixed(b: nat)
      requires Shape()
      requires b < BLOCKS
      modifies bmpBlockBits
      ensures forall i :: 0 <= i < 0x800 ==>
        At(bmpBlockBits[..], i) == (old(At(bmpBlockBits[..], i)) || i == b || i == b + MIXED)
    {
      var bits := 0x10001 * Pow2(b / 64);
      forall k | 0 <= k < 32 ensures Bit(bits, k) == (k == b / 64 || k == b / 64 + 16) { BitTwin(b / 64, k); }
      OrWords(bmpBlockBits, b % 64, b % 64 + 1, bits);
    }

    /** Enters one range; rounds limit up and advances minStart past a mixed last block. */
    method EnterRange(start0: int, limit0: int, minStart0: int) returns (limit: int, minStart: int)
      requires Shape()
      requires 0x800 <= start0 && 0x800 < limit0 <= 0x10000
      modifies bmpBlockBits
      ensures RangeEntered(old(bmpBlockBits[..]), bmpBlockBits[..], start0, limit0)
      ensures limit == RoundedLimit(start0, limit0)
      ensures minStart == NewMinStart(start0, limit0, minStart0)
    {
      hide At, IsInversionList, RangeEntered;
      var start := start0;
      limit, minStart := limit0, minStart0;
      ghost var from, to := 0, 0;
      if start < limit {
        if start % 64 != 0 {
          MarkMixed(start / 64);
          start := (start / 64 + 1) * 64;
          minStart := start;
        }
        if start < limit {
          from, to := start / 64, limit / 64;
          if start < limit / 64 * 64 {
            Set32x64Bits(bmpBlockBits, start / 64, limit / 64);
          }
          if limit % 64 != 0 {
            MarkMixed(limit / 64);
            limit := (limit / 64 + 1) * 64;
            minStart := limit;
          }
        }
      }
      EntriesAreRange(old(bmpBlockBits[..]), bmpBlockBits[..], start0, limit0, from, to);
    }

    /** One turn of the third loop of initBits(). */
    method BlockTurn(start0: int, limit0: int, minStart0: int, ghost k: nat) returns (limit: int, minStart: int)
      requires Shape()
      requires 2 * k < |list| && start0 < 0x10000
      requires start0 == Max(list[2 * k], 0x800) && limit0 == RangeLimit(list, k) && limit0 > 0x800
      requires BlocksSoFar(bmpBlockBits[..], list, k) && MinStartIs(minStart0, list, k)
      modifies bmpBlockBits
      ensures BlocksSoFar(bmpBlockBits[..], list, k + 1) && MinStartIs(minStart, list, k + 1)
      ensures limit == 0x10000 ==> Finished(list, k + 1)
      ensures limit != 0x10000 ==> limit0 < 0x10000
    {
      limit, minStart := limit0, minStart0;
      var start := start0;
      if limit > 0x10000 {
        limit := 0x10000;
      }
      if start < minStart {
        start := minStart;
      }
      limit, minStart := EnterRange(start, limit, minStart);
      BlocksStep(old(bmpBlockBits[..]), bmpBlockBits[..], list, k, minStart0);
      MinStartStep(list, k, minStart0);
      if limit == 0x10000 {
        FinishedAtLastEdge(list, k, minStart0);
      }
    }

    method InitBlocks(start0: int, limit0: int, listIndex0: int, ghost k0: nat)
      requires Shape()
      requires PastPair(listIndex0, k0)
      requires start0 == Max(list[2 * k0], 0x800) && limit0 == RangeLimit(list, k0) && limit0 > 0x800
      requires k0 > 0 ==> RangeLimit(list, k0 - 1) <= 0x800
      requires forall t :: 0 <= t < 64 ==> bmpBlockBits[t] == 0
      modifies bmpBlockBits
      ensures BlocksAreInit(bmpBlockBits[..], list)
    {
      hide MinStartIs, BlocksAreInit, At;
      var start, limit, listIndex := start0, limit0, listIndex0;
      ghost var k := k0;
      forall i | 0 <= i < 0x800 ensures !At(bmpBlockBits[..], i) { ZeroAt(bmpBlockBits[..], i); }
      var minStart := 0x800;
      BlocksStart(bmpBlockBits[..], list, k);
      while start < 0x10000
        invariant PastPair(listIndex, k)
        invariant start == Max(list[2 * k], 0x800) && limit == RangeLimit(list, k) && limit > 0x800
        invariant BlocksSoFar(bmpBlockBits[..], list, k)
        invariant MinStartIs(minStart, list, k)
        decreases |list| - listIndex
      {
        limit, minStart := BlockTurn(start, limit, minStart, k);
        k := k + 1;
        if limit == 0x10000 {
          BlocksDone(bmpBlockBits[..], list, k);
          return;
        }
        start := list[listIndex];
        listIndex := listIndex + 1;
        limit, listIndex := ReadLimit(listIndex, k);
      }
      FinishedBeyondBmp(list, k);
      BlocksDone(bmpBlockBits[..], list, k);
    }

    /** ~(0x10001 << 0xD): all bits but the two for lead byte 0xED. */
    static function SurrogateMask(): nat {
      assert 0x10001 * Pow2(13) < Pow2(32) by {
        assert Pow2(13) == 0x2000 by { assert Pow2(6) == 64; }
        assert Pow2(18) == 32 * Pow2(13);
        assert Pow2(23) == 32 * Pow2(18);
        assert Pow2(28) == 32 * Pow2(23);
        assert Pow2(32) == 16 * Pow2(28);
      }
      Not(0x10001 * Pow2(13))
    }

    static lemma SurrogateMaskBits(k: nat)
      requires k < 32
      ensures Bit(SurrogateMask(), k) == (k != 13 && k != 29)
    {
      var mask := SurrogateMask();
      BitNot(0x10001 * Pow2(13), 32, k);
      BitTwin(13, k);
    }

    /** Clears both bits of the surrogate blocks. */
    method ClearSurrogateBlocks()
      requires Shape()
      modifies bmpBlockBits
      ensures forall i :: 0 <= i < 0x800 ==>
        At(bmpBlockBits[..], i) == (old(At(bmpBlockBits[..], i)) && !(0x360 <= i % BLOCKS < 0x380))
    {
      var mask := SurrogateMask();
      AndWords(bmpBlockBits, 32, 64, mask);
      forall i | 0 <= i < 0x800
        ensures At(bmpBlockBits[..], i) == (old(At(bmpBlockBits[..], i)) && !(0x360 <= i % BLOCKS < 0x380))
      {
        SurrogateIndex(i);
        SurrogateMaskBits(i / 64);
      }
    }

    /** table7FF[i] |= 3: the columns of the lead bytes 0xC0 and 0xC1. */
    method SetLeadColumns()
      requires table7FF.Length == 64
      modifies table7FF
      ensures forall i :: 0 <= i < 0x800 ==> At(table7FF[..], i) == (old(At(table7FF[..], i)) || i < 0x80)
    {
      assert Pow2(2) - 1 == 3;
      forall k | 0 <= k < 32 ensures Bit(3, k) == (k < 2) { BitBelow(2, k); }
      OrWords(table7FF, 0, 64, 3);
    }

    method OverrideBlocks(value: bool)
      requires Shape()
      requires BlocksAreInit(bmpBlockBits[..], list)
      modifies bmpBlockBits
      ensures BlocksAre(bmpBlockBits[..], list, value)
    {
      ghost var before := bmpBlockBits[..];
      if value {
        OrColumn(bmpBlockBits, 0, 32, 0);
        ClearSurrogateBlocks();
        OrColumn(bmpBlockBits, 32, 64, 0xD);
      } else {
        ClearSurrogateBlocks();
      }
      ghost var after := bmpBlockBits[..];
      forall b | 0 <= b < BLOCKS
        ensures MixedAt(after, b) == (!IllegalBlock(b) && MixedAt(before, b))
        ensures ValueAt(after, b) == if IllegalBlock(b) then value else ValueAt(before, b)
      {
        assert b < 0x20 ==> BlockForced(before, b, false);
        SurrogateIndex(b);
        SurrogateIndex(b + MIXED);
      }
      BlocksOverridden(after, before, list, value);
    }

    method OverrideAscii()
      requires asciiBytes.Length == 0xC0
      modifies asciiBytes
      ensures forall c :: 0 <= c < 0xC0 ==> asciiBytes[c] == (c >= 0x80 || old(asciiBytes[c]))
    {
      for i := 0x80 to 0xC0
        invariant forall c :: 0 <= c < 0x80 ==> asciiBytes[c] == old(asciiBytes[c])
        invariant forall c :: 0x80 <= c < i ==> asciiBytes[c]
      {
        asciiBytes[i] := true;
      }
    }

    /** Gives the entries of ill-formed UTF-8 sequences the value of U+FFFD. */
    method OverrideIllegal()
      requires Shape()
      requires StartsAre(list4kStarts[..], list)
      requires AsciiIs(asciiBytes[..], list, false)
      requires Table7FFIs(table7FF[..], list, false)
      requires BlocksAreInit(bmpBlockBits[..], list)
      modifies asciiBytes, table7FF, bmpBlockBits
      ensures Valid()
    {
      RankMonotone(list, StartOf(0xF), 0xFFFD);
      RankMonotone(list, 0xFFFD, StartOf(0x10));
      RankBelowHigh(list, StartOf(0x10));
      var replaced := ContainsSlow(0xFFFD, list4kStarts[0xF], list4kStarts[0x10]);
      OverrideBlocks(replaced);
      assert table7FF[..] == old(table7FF[..]) && asciiBytes[..] == old(asciiBytes[..]);
      if replaced {
        OverrideAscii();
        SetLeadColumns();
      }
    }

    /** Two-byte lookup: bit lead of word trail. */
    method LookupTable7FF(lead: nat, trail: nat) returns (r: bool)
      requires Valid()
      requires lead < 32 && trail < 64
      ensures var c := lead * 64 + trail;
              r == Member(list, if c < 0x80 then Utf8.REPLACEMENT else c)
    {
      r := And(table7FF[trail], Pow2(lead)) != 0;
      AndPow2(table7FF[trail], lead);
      assert At(table7FF[..], lead * 64 + trail) == Bit(table7FF[trail], lead);
    }

    /** Three-byte lookup: the block's two bits, and the inversion list if it is mixed. */
    method LookupBlock(lead: nat, t1: nat, t2: nat) returns (r: bool)
      requires Valid()
      requires lead < 16 && t1 < 64 && t2 < 64
      ensures r == ThreeByteValue(list, lead * 0x1000 + t1 * 0x40 + t2)
    {
      ghost var c := lead * 0x1000 + t1 * 0x40 + t2;
      var twoBits := And(Shr(bmpBlockBits[t1], lead), 0x10001);
      TwinRead(bmpBlockBits[t1], lead);
      BlockLookup(bmpBlockBits[..], list, c);
      assert c / 64 == lead * 64 + t1;
      assert ValueAt(bmpBlockBits[..], c / 64) == Bit(bmpBlockBits[t1], lead);
      assert MixedAt(bmpBlockBits[..], c / 64) == Bit(bmpBlockBits[t1], lead + 16);
      if twoBits <= 1 {
        r := twoBits == 1;
      } else {
        BoundsEnclose(list4kStarts[..], list, lead, c);
        r := ContainsSlow(lead * 0x1000 + t1 * 0x40 + t2, list4kStarts[lead], list4kStarts[lead + 1]);
      }
    }

    /** A code unit that is not a surrogate. */
    method LookupUnit(c: int) returns (r: bool)
      requires Valid()
      requires 0 <= c < 0x10000 && !Utf16.IsSurrogate(c)
      ensures r == Member(list, c)
    {
      hide Table7FFIs, BlocksAre, StartsAre, Member;
      UnitSplits(list, c);
      if c <= 0x7F {
        r := asciiBytes[c];
      } else if c <= 0x7FF {
        r := LookupTable7FF(c / 64, c % 64);
      } else {
        r := LookupBlock(c / 0x1000, c / 64 % 64, c % 64);
      }
    }

    /** c is any 32-bit integer; the ones that are no code points are not in the set. */
    method Contains(c: int) returns (r: bool)
      requires Valid()
      requires -0x8000_0000 <= c < 0x8000_0000
      ensures r == (0 <= c < HIGH && Member(list, c))
    {
      var u := if c < 0 then c + 0x1_0000_0000 else c;
      if u < 0xD800 || (c >= 0xE000 && c <= 0xFFFF) {
        r := LookupUnit(c);
      } else if u <= 0x10FFFF {
        BoundsEnclose(list4kStarts[..], list, 0xD, c);
        r := ContainsSlow(c, list4kStarts[0xD], list4kStarts[0x11]);
      } else {
        r := false;
      }
    }

    method LookupSurrogate(c: int) returns (r: bool)
      requires Valid()
      requires Utf16.IsSurrogate(c)
      ensures r == Member(list, c)
    {
      BoundsEnclose(list4kStarts[..], list, 0xD, c);
      r := ContainsSlow(c, list4kStarts[0xD], list4kStarts[0xE]);
    }

    method LookupSupplementary(c: int) returns (r: bool)
      requires Valid()
      requires 0x10000 <= c < HIGH
      ensures r == Member(list, c)
    {
      BoundsEnclose(list4kStarts[..], list, 0x10, c);
      r := ContainsSlow(c, list4kStarts[0x10], list4kStarts[0x11]);
    }

    /** The code point that starts at i, and where the next one starts. */
    method LookupForward(s: seq<Utf16.CodeUnit>, i: nat) returns (r: bool, next: nat)
      requires Valid()
      requires i < |s|
      ensures r == Member(list, Utf16.CodePointAt(s, i))
      ensures next == Utf16.Next(s, i)
    {
      var c := s[i];
      next := i + 1;
      if c < 0xD800 || c >= 0xE000 {
        r := LookupUnit(c);
      } else if c >= 0xDC00 || i + 1 == |s| || s[i + 1] < 0xDC00 || s[i + 1] >= 0xE000 {
        r := LookupSurrogate(c);
      } else {
        Utf16.SupplementaryRange(c, s[i + 1]);
        r := LookupSupplementary(Utf16.Supplementary(c, s[i + 1]));
        next := i + 2;
      }
    }

    /** The code point that ends at j, and where it starts. */
    method LookupBackward(s: seq<Utf16.CodeUnit>, j: nat) returns (r: bool, prev: nat)
      requires Valid()
      requires 0 < j <= |s| && Utf16.Boundary(s, j)
      ensures prev == Utf16.Prev(s, j)
      ensures r == Member(list, Utf16.CodePointAt(s, prev))
    {
      prev := j - 1;
      var c := s[prev];
      if c < 0xD800 || c >= 0xE000 {
        r := LookupUnit(c);
      } else if c < 0xDC00 || prev == 0 || s[prev - 1] < 0xD800 || s[prev - 1] >= 0xDC00 {
        r := LookupSurrogate(c);
      } else {
        Utf16.SupplementaryRange(s[prev - 1], c);
        r := LookupSupplementary(Utf16.Supplementary(s[prev - 1], c));
        prev := prev - 1;
      }
    }

    method Span(s: seq<Utf16.CodeUnit>, cond: bool) returns (r: nat)
      requires Valid()
      requires |s| > 0
      ensures Utf16.IsSpan(s, list, cond, r)
    {
      r := 0;
      while true
        invariant r < |s| && Utf16.Boundary(s, r)
        invariant Utf16.AllMatch(s, 0, r, list, cond)
        decreases |s| - r
      {
        var found, next := LookupForward(s, r);
        if found != cond {
          break;
        }
        Utf16.ExtendMatch(s, list, cond, r);
        r := next;
        if !(r < |s|) {
          break;
        }
      }
    }

    method SpanBack(s: seq<Utf16.CodeUnit>, cond: bool) returns (r: nat)
      requires Valid()
      requires |s| > 0
      ensures Utf16.IsSpanBack(s, list, cond, r)
    {
      r := |s|;
      while true
        invariant 0 < r <= |s| && Utf16.Boundary(s, r)
        invariant Utf16.AllMatch(s, r, |s|, list, cond)
        decreases r
      {
        var found, prev := LookupBackward(s, r);
        if found != cond {
          break;
        }
        Utf16.ExtendMatchBack(s, list, cond, r);
        r := prev;
        if r == 0 {
          break;
        }
      }
    }

    /** The initial all-ASCII span, up to limit or the first byte above 0x7F. */
    method SpanAscii(s: seq<Utf8.Byte>, cond: bool) returns (i: nat, done: bool)
      requires Valid()
      requires |s| > 0
      ensures i <= |s| && (forall j :: 0 <= j < i ==> s[j] < 0x80)
      ensures Utf8.UnitStart(s, i) && Utf8.AllMatch(s, 0, i, list, cond)
      ensures done ==> Utf8.IsSpan(s, list, cond, i)
      ensures !done ==> i < |s| && s[i] >= 0x80
    {
      i, done := 0, false;
      while s[i] < 0x80
        invariant i < |s| && (forall j :: 0 <= j < i ==> s[j] < 0x80)
        invariant Utf8.UnitStart(s, i) && Utf8.AllMatch(s, 0, i, list, cond)
        decreases |s| - i
      {
        if asciiBytes[s[i]] != cond {
          return i, true;
        }
        Utf8.ExtendMatch(s, list, cond, i);
        i := i + 1;
        if i == |s| {
          return i, true;
        }
      }
    }

    /** Cuts an incomplete last sequence off, so that the span loop need not check for it. */
    method CutTail(s: seq<Utf8.Byte>, from: nat, cond: bool) returns (limit: nat, limit0: nat)
      requires Valid()
      requires from < |s| && s[from] >= 0x80
      requires forall j :: 0 <= j < from ==> s[j] < 0x80
      ensures from <= limit && Utf8.TailCut(s, limit)
      ensures limit0 == if Member(list, Utf8.REPLACEMENT) == cond then |s| else limit
    {
      var length := |s| - from;
      limit, limit0 := |s|, |s|;
      var b := s[limit - 1];
      if b >= 0x80 {
        if b < 0xC0 {
          // A single trail byte: is there a 3- or 4-byte lead byte before it?
          if length >= 2 { b := s[limit - 2]; }
          if length >= 2 && b >= 0xE0 {
            limit := limit - 2;
            if asciiBytes[0x80] != cond { limit0 := limit; }
          } else {
            var b3 := b;
            if b < 0xC0 && b >= 0x80 && length >= 3 { b3 := s[limit - 3]; }
            if b < 0xC0 && b >= 0x80 && length >= 3 && b3 >= 0xF0 {
              limit := limit - 3;
              if asciiBytes[0x80] != cond { limit0 := limit; }
            }
          }
        } else {
          // A lead byte with no trail bytes.
          limit := limit - 1;
          if asciiBytes[0x80] != cond { limit0 := limit; }
        }
      }
    }

    /** (uint8_t)(b - 0x80): at most 0x3F exactly for trail bytes. */
    static function TrailOf(b: Utf8.Byte): (t: int)
      ensures 0 <= t < 0x100
      ensures t <= 0x3F <==> 0x80 <= b < 0xC0
      ensures t <= 0x3F ==> t == b - 0x80
    {
      (b + 0x80) % 0x100
    }

    /**
      * What is passed over at i: one well-formed unit, or n bytes that all start
      * nothing. Either way value is the membership that the unit at i stands for.
      */
    lemma PassBytes(s: seq<Utf8.Byte>, i: nat, n: nat, cond: bool, value: bool)
      requires 1 <= n && i + n <= |s|
      requires forall j :: i < j < i + n ==> Utf8.IsTail(s, j)
      requires Utf8.UnitStart(s, i) && Utf8.AllMatch(s, 0, i, list, cond)
      requires Utf8.WellFormedLength(s, i) == n || Utf8.WellFormedLength(s, i) == 0
      requires value == Member(list, Utf8.CodePointAt(s, i))
      ensures value == cond ==> Utf8.UnitStart(s, i + n) && Utf8.AllMatch(s, 0, i + n, list, cond)
    {
      if value == cond {
        if Utf8.WellFormedLength(s, i) == n {
          Utf8.ExtendMatch(s, list, cond, i);
        } else {
          forall j | i < j < i + n ensures Utf8.WellFormedLength(s, j) == 0 { Utf8.TailStartsNothing(s, j); }
          Utf8.ExtendIllFormed(s, list, cond, i, n);
        }
      }
    }

    method TwoByteUnit(s: seq<Utf8.Byte>, i: nat) returns (value: bool)
      requires Valid()
      requires i + 1 < |s| && 0xC0 <= s[i] < 0xE0 && Utf8.IsTail(s, i + 1)
      ensures Utf8.WellFormedLength(s, i) == 2 || Utf8.WellFormedLength(s, i) == 0
      ensures value == Member(list, Utf8.CodePointAt(s, i))
    {
      value := LookupTable7FF(s[i] % 0x20, TrailOf(s[i + 1]));
    }

    method ThreeByteUnit(s: seq<Utf8.Byte>, i: nat) returns (value: bool)
      requires Valid()
      requires i + 2 < |s| && 0xE0 <= s[i] < 0xF0 && Utf8.IsTail(s, i + 1) && Utf8.IsTail(s, i + 2)
      ensures Utf8.WellFormedLength(s, i) == 3 || Utf8.WellFormedLength(s, i) == 0
      ensures value == Member(list, Utf8.CodePointAt(s, i))
    {
      value := LookupBlock(s[i] % 0x10, TrailOf(s[i + 1]), TrailOf(s[i + 2]));
    }

    method FourByteUnit(s: seq<Utf8.Byte>, i: nat) returns (value: bool)
      requires Valid()
      requires i + 3 < |s| && 0xF0 <= s[i]
      requires Utf8.IsTail(s, i + 1) && Utf8.IsTail(s, i + 2) && Utf8.IsTail(s, i + 3)
      ensures Utf8.WellFormedLength(s, i) == 4 || Utf8.WellFormedLength(s, i) == 0
      ensures value == Member(list, Utf8.CodePointAt(s, i))
    {
      var b: int := s[i];
      var t1, t2, t3 := TrailOf(s[i + 1]), TrailOf(s[i + 2]), TrailOf(s[i + 3]);
      var c := (b - 0xF0) * 0x40000 + t1 * 0x1000 + t2 * 0x40 + t3;
      if 0x10000 <= c <= 0x10FFFF {
        value := LookupSupplementary(c);
      } else {
        value := asciiBytes[0x80];
      }
    }

    /** The unit at lead byte s[i], and how many bytes to pass over if it matches. */
    method LeadByteUnit(s: seq<Utf8.Byte>, i: nat) returns (value: bool, n: nat)
      requires Valid()
      requires i < |s| && s[i] >= 0xC0 && Utf8.Enough(s, i)
      ensures 1 <= n && i + n <= |s|
      ensures forall j :: i < j < i + n ==> Utf8.IsTail(s, j)
      ensures Utf8.WellFormedLength(s, i) == n || Utf8.WellFormedLength(s, i) == 0
      ensures value == Member(list, Utf8.CodePointAt(s, i))
    {
      var b := s[i];
      if b >= 0xE0 {
        if b < 0xF0 {
          if TrailOf(s[i + 1]) <= 0x3F && TrailOf(s[i + 2]) <= 0x3F {
            value := ThreeByteUnit(s, i);
            n := 3;
            return;
          }
        } else if TrailOf(s[i + 1]) <= 0x3F && TrailOf(s[i + 2]) <= 0x3F && TrailOf(s[i + 3]) <= 0x3F {
          value := FourByteUnit(s, i);
          n := 4;
          return;
        }
      } else if TrailOf(s[i + 1]) <= 0x3F {
        value := TwoByteUnit(s, i);
        n := 2;
        return;
      }
      // An illegal sequence is handled byte by byte.
      value, n := asciiBytes[0x80], 1;
    }

    method SpanUTF8(s: seq<Utf8.Byte>, cond: bool) returns (r: nat)
      requires Valid()
      requires |s| > 0
      ensures Utf8.IsSpan(s, list, cond, r)
    {
      hide Utf8.UnitStart, Utf8.AllMatch, Utf8.IsSpan, Valid;
      var done;
      r, done := SpanAscii(s, cond);
      if done {
        return;
      }
      var limit, limit0 := CutTail(s, r, cond);
      while r < limit
        invariant r <= limit && Utf8.TailCut(s, limit)
        invariant Utf8.UnitStart(s, r) && Utf8.AllMatch(s, 0, r, list, cond)
      {
        var go;
        // ASCII, or trail bytes with the result of contains(FFFD).
        while s[r] < 0xC0
          invariant r < limit <= |s|
          invariant Utf8.UnitStart(s, r) && Utf8.AllMatch(s, 0, r, list, cond)
          decreases limit - r
        {
          go := PassAscii(s, r, cond);
          if !go {
            return;
          }
          r := r + 1;
          if r == limit {
            Utf8.SpanToCut(s, list, cond, limit);
            return limit0;
          }
        }
        var n;
        go, n := PassLead(s, r, limit, cond);
        if !go {
          return;
        }
        r := r + n;
      }
      Utf8.SpanToCut(s, list, cond, limit);
      return limit0;
    }

    /** Passes over one ASCII or trail byte, if its value is right. */
    method PassAscii(s: seq<Utf8.Byte>, r: nat, cond: bool) returns (go: bool)
      requires Valid() && r < |s| && s[r] < 0xC0
      requires Utf8.UnitStart(s, r) && Utf8.AllMatch(s, 0, r, list, cond)
      ensures if go then Utf8.UnitStart(s, r + 1) && Utf8.AllMatch(s, 0, r + 1, list, cond) else Utf8.IsSpan(s, list, cond, r)
    {
      go := asciiBytes[s[r]] == cond;
      if go {
        Utf8.ExtendMatch(s, list, cond, r);
      }
    }

    /** Passes over the sequence that a lead byte starts, or over that byte alone. */
    method PassLead(s: seq<Utf8.Byte>, r: nat, limit: nat, cond: bool) returns (go: bool, n: nat)
      requires Valid() && r < limit && Utf8.TailCut(s, limit) && limit <= |s| && s[r] >= 0xC0
      requires Utf8.UnitStart(s, r) && Utf8.AllMatch(s, 0, r, list, cond)
      ensures if go then 1 <= n && r + n <= limit && Utf8.UnitStart(s, r + n) && Utf8.AllMatch(s, 0, r + n, list, cond)
              else Utf8.IsSpan(s, list, cond, r)
    {
      assert Utf8.Enough(s, r);
      hide Utf8.TailCut, Utf8.UnitStart, Utf8.AllMatch, Utf8.Enough;
      var value;
      value, n := LeadByteUnit(s, r);
      go := value == cond;
      if go {
        PassBytes(s, r, n, cond, value);
        Utf8.TailsStayBeforeCut(s, limit, r, n);
      }
    }
  }
}
