/**
  * Inversion lists: the sorted boundary list behind a frozen UnicodeSet.
  * Even-indexed entries open a range, odd-indexed entries close it, and the
  * last entry is always HIGH, one past the largest code point.
  */
module InversionLists {

  const HIGH := 0x110000

  ghost predicate IsInversionList(list: seq<int>) {
    && |list| > 0
    && 0 <= list[0]
    && list[|list| - 1] == HIGH
    && forall i, j :: 0 <= i < j < |list| ==> list[i] < list[j]
  }

  /** The smallest r in from..|list| such that r == |list| or c < list[r]. */
  function RankFrom(list: seq<int>, c: int, from: nat): (r: nat)
    requires from <= |list|
    ensures from <= r <= |list|
    ensures forall j :: from <= j < r ==> list[j] <= c
    ensures r < |list| ==> c < list[r]
    decreases |list| - from
  {
    if from == |list| || c < list[from] then from else RankFrom(list, c, from + 1)
  }

  /** Linear-search form of findCodePoint over the whole list. */
  function Rank(list: seq<int>, c: int): (r: nat)
    ensures r <= |list|
    ensures forall j :: 0 <= j < r ==> list[j] <= c
    ensures r < |list| ==> c < list[r]
  {
    RankFrom(list, c, 0)
  }

  /** Set membership: an odd number of boundaries lies at or below c. */
  predicate Member(list: seq<int>, c: int) {
    Rank(list, c) % 2 == 1
  }

  /** The exclusive end of the range that list[2 * k] opens. */
  function RangeLimit(list: seq<int>, k: nat): int {
    if 2 * k + 1 < |list| then list[2 * k + 1] else HIGH
  }

  lemma RankIs(list: seq<int>, c: int, i: nat)
    requires IsInversionList(list)
    requires i <= |list|
    requires i > 0 ==> list[i - 1] <= c
    requires i < |list| ==> c < list[i]
    ensures Rank(list, c) == i
  {
  }

  lemma RankMonotone(list: seq<int>, c: int, d: int)
    requires IsInversionList(list)
    requires c <= d
    ensures Rank(list, c) <= Rank(list, d)
  {
  }

  lemma RankBelowHigh(list: seq<int>, c: int)
    requires IsInversionList(list)
    requires c < HIGH
    ensures Rank(list, c) < |list|
  {
  }

  ghost predicate InRange(list: seq<int>, k: nat, c: int) {
    2 * k < |list| && list[2 * k] <= c < RangeLimit(list, k)
  }

  /** Rank parity is the same thing as lying in one of the listed ranges. */
  lemma MemberIffInSomeRange(list: seq<int>, c: int)
    requires IsInversionList(list)
    requires 0 <= c < HIGH
    ensures Member(list, c) <==> exists k: nat :: InRange(list, k, c)
  {
    var r := Rank(list, c);
    if r % 2 == 1 {
      assert 2 * (r / 2) == r - 1;
      assert InRange(list, r / 2, c);
    }
    forall k: nat | InRange(list, k, c) ensures r == 2 * k + 1 {
      RankIs(list, c, 2 * k + 1);
    }
  }
}
