/**
  * Code points of an arbitrary sequence of 16-bit code units. Section 2.2 of
  * RFC 2781 for surrogate pairs; an unpaired surrogate stands for itself.
  */
module Utf16 {
  import opened InversionLists

  type CodeUnit = u: int | 0 <= u < 0x10000

  predicate IsLead(u: int) { 0xD800 <= u < 0xDC00 }
  predicate IsTrail(u: int) { 0xDC00 <= u < 0xE000 }
  predicate IsSurrogate(u: int) { 0xD800 <= u < 0xE000 }

  predicate PairAt(s: seq<CodeUnit>, i: int) {
    0 <= i < |s| - 1 && IsLead(s[i]) && IsTrail(s[i + 1])
  }

  /** Not between the two halves of a surrogate pair. */
  predicate Boundary(s: seq<CodeUnit>, i: int) {
    0 <= i <= |s| && !PairAt(s, i - 1)
  }

  function Supplementary(lead: int, trail: int): int {
    lead * 0x400 + trail - (0xD800 * 0x400 + 0xDC00 - 0x10000)
  }

  lemma SupplementaryRange(lead: int, trail: int)
    requires IsLead(lead) && IsTrail(trail)
    ensures 0x10000 <= Supplementary(lead, trail) < 0x110000
    ensures Supplementary(lead, trail) / 0x400 == 0x40 + (lead - 0xD800)
    ensures Supplementary(lead, trail) % 0x400 == trail - 0xDC00
  {
  }

  /** The code point that starts at i. */
  function CodePointAt(s: seq<CodeUnit>, i: nat): (c: int)
    requires i < |s|
    ensures 0 <= c < 0x110000
  {
    if PairAt(s, i) then Supplementary(s[i], s[i + 1]) else s[i]
  }

  /** The boundary after the code point that starts at i. */
  function Next(s: seq<CodeUnit>, i: nat): (j: nat)
    requires i < |s|
    ensures i < j <= |s|
  {
    if PairAt(s, i) then i + 2 else i + 1
  }

  /** The boundary before the code point that ends at j. */
  function Prev(s: seq<CodeUnit>, j: nat): (i: nat)
    requires 0 < j <= |s|
    ensures i < j
  {
    if PairAt(s, j - 2) then j - 2 else j - 1
  }

  lemma NextAndPrevAreInverse(s: seq<CodeUnit>, i: nat)
    ensures i < |s| && Boundary(s, i) ==> Boundary(s, Next(s, i)) && Prev(s, Next(s, i)) == i
    ensures 0 < i <= |s| && Boundary(s, i) ==> Boundary(s, Prev(s, i)) && Next(s, Prev(s, i)) == i
  {
  }

  /** All code points from i on, read left to right. */
  function Forward(s: seq<CodeUnit>, i: nat): seq<int>
    requires i <= |s|
    decreases |s| - i
  {
    if i == |s| then [] else [CodePointAt(s, i)] + Forward(s, Next(s, i))
  }

  /** All code points before j, read right to left. */
  function Backward(s: seq<CodeUnit>, j: nat): seq<int>
    requires j <= |s|
  {
    if j == 0 then [] else Backward(s, Prev(s, j)) + [CodePointAt(s, Prev(s, j))]
  }

  lemma {:induction false} SplitAtBoundary(s: seq<CodeUnit>, i: nat)
    requires Boundary(s, i)
    ensures Backward(s, i) + Forward(s, i) == Forward(s, 0)
  {
    if i > 0 {
      var h := Prev(s, i);
      NextAndPrevAreInverse(s, i);
      SplitAtBoundary(s, h);
      assert Backward(s, i) + Forward(s, i) == Backward(s, h) + ([CodePointAt(s, h)] + Forward(s, i));
    }
  }

  /** Reading a string from either end gives the same code points. */
  lemma SegmentationIsDirectionless(s: seq<CodeUnit>)
    ensures Backward(s, |s|) == Forward(s, 0)
  {
    SplitAtBoundary(s, |s|);
    assert Backward(s, |s|) + [] == Backward(s, |s|);
  }

  /** Every code point that starts in lo..hi-1 has the given set membership. */
  ghost predicate AllMatch(s: seq<CodeUnit>, lo: int, hi: int, list: seq<int>, cond: bool) {
    forall i :: 0 <= lo <= i < hi <= |s| && Boundary(s, i) ==> Member(list, CodePointAt(s, i)) == cond
  }

  /** r ends the longest prefix of matching code points. */
  ghost predicate IsSpan(s: seq<CodeUnit>, list: seq<int>, cond: bool, r: int) {
    && Boundary(s, r)
    && AllMatch(s, 0, r, list, cond)
    && (r < |s| ==> Member(list, CodePointAt(s, r)) != cond)
  }

  /** r starts the longest suffix of matching code points. */
  ghost predicate IsSpanBack(s: seq<CodeUnit>, list: seq<int>, cond: bool, r: int) {
    && Boundary(s, r)
    && AllMatch(s, r, |s|, list, cond)
    && (r > 0 ==> Member(list, CodePointAt(s, Prev(s, r))) != cond)
  }

  lemma ExtendMatch(s: seq<CodeUnit>, list: seq<int>, cond: bool, r: nat)
    requires r < |s| && Boundary(s, r)
    requires AllMatch(s, 0, r, list, cond) && Member(list, CodePointAt(s, r)) == cond
    ensures Boundary(s, Next(s, r)) && AllMatch(s, 0, Next(s, r), list, cond)
  {
    assert forall i :: 0 <= i < Next(s, r) && Boundary(s, i) ==> i <= r;
  }

  lemma ExtendMatchBack(s: seq<CodeUnit>, list: seq<int>, cond: bool, r: nat)
    requires 0 < r && Boundary(s, r)
    requires AllMatch(s, r, |s|, list, cond) && Member(list, CodePointAt(s, Prev(s, r))) == cond
    ensures Boundary(s, Prev(s, r)) && AllMatch(s, Prev(s, r), |s|, list, cond)
  {
    assert forall i :: Prev(s, r) <= i < |s| && Boundary(s, i) ==> i == Prev(s, r) || r <= i;
  }

  /** No longer prefix matches, so the span is determined by the string. */
  lemma SpanIsLongest(s: seq<CodeUnit>, list: seq<int>, cond: bool, r: int, other: int)
    requires IsSpan(s, list, cond, r)
    requires Boundary(s, other) && AllMatch(s, 0, other, list, cond)
    ensures other <= r
  {
  }

  lemma SpanBackIsLongest(s: seq<CodeUnit>, list: seq<int>, cond: bool, r: int, other: int)
    requires IsSpanBack(s, list, cond, r)
    requires Boundary(s, other) && AllMatch(s, other, |s|, list, cond)
    ensures r <= other
  {
    NextAndPrevAreInverse(s, r);
  }

  /** A span covers the whole string exactly when the backward span does. */
  lemma SpansMeet(s: seq<CodeUnit>, list: seq<int>, cond: bool, r: int, b: int)
    requires IsSpan(s, list, cond, r) && IsSpanBack(s, list, cond, b)
    ensures r == |s| <==> b == 0
  {
    NextAndPrevAreInverse(s, b);
    NextAndPrevAreInverse(s, r);
  }
}
