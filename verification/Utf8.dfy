/**
  * Units of an arbitrary byte sequence: the well-formed sequences of section 4
  * of RFC 3629, and every other byte on its own, which stands for U+FFFD.
  */
module Utf8 {
  import opened InversionLists

  type Byte = b: int | 0 <= b < 0x100

  const REPLACEMENT := 0xFFFD

  predicate IsTail(s: seq<Byte>, i: int) {
    0 <= i < |s| && 0x80 <= s[i] < 0xC0
  }

  predicate TailIn(s: seq<Byte>, i: int, lo: int, hi: int) {
    0 <= i < |s| && lo <= s[i] <= hi
  }

  /** The length of the well-formed sequence at i, or 0 if there is none. */
  function WellFormedLength(s: seq<Byte>, i: nat): (n: nat)
    requires i < |s|
    ensures i + n <= |s|
  {
    var b := s[i];
    if b < 0x80 then 1
    else if 0xC2 <= b <= 0xDF && IsTail(s, i + 1) then 2
    else if ThreeByteHead(s, i) && IsTail(s, i + 2) then 3
    else if FourByteHead(s, i) && IsTail(s, i + 2) && IsTail(s, i + 3) then 4
    else 0
  }

  predicate ThreeByteHead(s: seq<Byte>, i: nat)
    requires i < |s|
  {
    var b := s[i];
    || (b == 0xE0 && TailIn(s, i + 1, 0xA0, 0xBF))
    || (0xE1 <= b <= 0xEC && IsTail(s, i + 1))
    || (b == 0xED && TailIn(s, i + 1, 0x80, 0x9F))
    || (0xEE <= b <= 0xEF && IsTail(s, i + 1))
  }

  predicate FourByteHead(s: seq<Byte>, i: nat)
    requires i < |s|
  {
    var b := s[i];
    || (b == 0xF0 && TailIn(s, i + 1, 0x90, 0xBF))
    || (0xF1 <= b <= 0xF3 && IsTail(s, i + 1))
    || (b == 0xF4 && TailIn(s, i + 1, 0x80, 0x8F))
  }

  function Compose2(b: int, t1: int): int {
    (b - 0xC0) * 0x40 + (t1 - 0x80)
  }

  function Compose3(b: int, t1: int, t2: int): int {
    (b - 0xE0) * 0x1000 + (t1 - 0x80) * 0x40 + (t2 - 0x80)
  }

  function Compose4(b: int, t1: int, t2: int, t3: int): int {
    (b - 0xF0) * 0x40000 + (t1 - 0x80) * 0x1000 + (t2 - 0x80) * 0x40 + (t3 - 0x80)
  }

  /** The code point of the well-formed sequence at i, or the replacement character. */
  function CodePointAt(s: seq<Byte>, i: nat): int
    requires i < |s|
  {
    match WellFormedLength(s, i)
    case 1 => s[i]
    case 2 => Compose2(s[i], s[i + 1])
    case 3 => Compose3(s[i], s[i + 1], s[i + 2])
    case 4 => Compose4(s[i], s[i + 1], s[i + 2], s[i + 3])
    case _ => REPLACEMENT
  }

  function UnitLength(s: seq<Byte>, i: nat): (n: nat)
    requires i < |s|
    ensures 1 <= n && i + n <= |s|
  {
    if WellFormedLength(s, i) == 0 then 1 else WellFormedLength(s, i)
  }

  /** No well-formed sequence straddles i. */
  ghost predicate UnitStart(s: seq<Byte>, i: int) {
    0 <= i <= |s| && forall j :: 0 <= j < i ==> j + WellFormedLength(s, j) <= i
  }

  /** Exactly the scalar values are decoded: no surrogates and nothing above U+10FFFF. */
  lemma DecodesScalarValues(s: seq<Byte>, i: nat)
    requires i < |s|
    ensures var c := CodePointAt(s, i); 0 <= c < 0xD800 || 0xE000 <= c < 0x110000
    ensures WellFormedLength(s, i) == 2 ==> 0x80 <= CodePointAt(s, i) < 0x800
    ensures WellFormedLength(s, i) == 3 ==> 0x800 <= CodePointAt(s, i) < 0x10000
    ensures WellFormedLength(s, i) == 4 ==> 0x10000 <= CodePointAt(s, i)
  {
  }

  // ---------- what the sequences stand for ----------

  predicate IsScalarValue(c: int) {
    0 <= c <= 0x10FFFF && !(0xD800 <= c <= 0xDFFF)
  }

  /** The bytes of a scalar value (section 3 of RFC 3629). */
  function Encode(c: int): (s: seq<Byte>)
    requires IsScalarValue(c)
    ensures 1 <= |s| <= 4
  {
    if c <= 0x7F then [c]
    else if c <= 0x7FF then [0xC0 + c / 0x40, 0x80 + c % 0x40]
    else if c <= 0xFFFF then [0xE0 + c / 0x1000, 0x80 + c / 0x40 % 0x40, 0x80 + c % 0x40]
    else [0xF0 + c / 0x40000, 0x80 + c / 0x1000 % 0x40, 0x80 + c / 0x40 % 0x40, 0x80 + c % 0x40]
  }

  /** A well-formed sequence is the encoding of its code point. */
  lemma WellFormedIsEncoded(s: seq<Byte>, i: nat)
    requires i < |s| && WellFormedLength(s, i) > 0
    ensures var c := CodePointAt(s, i); IsScalarValue(c) && Encode(c) == s[i..i + WellFormedLength(s, i)]
  {
    DecodesScalarValues(s, i);
    var n := WellFormedLength(s, i);
    if n == 2 {
      Encode2(s[i], s[i + 1]);
    } else if n == 3 {
      Encode3(s[i], s[i + 1], s[i + 2]);
    } else if n == 4 {
      Encode4(s[i], s[i + 1], s[i + 2], s[i + 3]);
    }
  }

  lemma Encode2(b: Byte, t1: Byte)
    requires 0x80 <= t1 < 0xC0 && 0x80 <= Compose2(b, t1) < 0x800
    ensures Encode(Compose2(b, t1)) == [b, t1]
  {
    Digits64(b as int - 0xC0, t1 as int - 0x80);
  }

  lemma Encode3(b: Byte, t1: Byte, t2: Byte)
    requires 0x80 <= t1 < 0xC0 && 0x80 <= t2 < 0xC0
    requires var c := Compose3(b, t1, t2); 0x800 <= c < 0x10000 && IsScalarValue(c)
    ensures Encode(Compose3(b, t1, t2)) == [b, t1, t2]
  {
    var high := (b as int - 0xE0) * 0x40 + (t1 as int - 0x80);
    Digits64(b as int - 0xE0, t1 as int - 0x80);
    Digits64(high, t2 as int - 0x80);
    assert Compose3(b, t1, t2) == high * 0x40 + (t2 as int - 0x80);
  }

  lemma Encode4(b: Byte, t1: Byte, t2: Byte, t3: Byte)
    requires 0x80 <= t1 < 0xC0 && 0x80 <= t2 < 0xC0 && 0x80 <= t3 < 0xC0
    requires var c := Compose4(b, t1, t2, t3); 0x10000 <= c < 0x110000
    ensures Encode(Compose4(b, t1, t2, t3)) == [b, t1, t2, t3]
  {
    var high := (b as int - 0xF0) * 0x40 + (t1 as int - 0x80);
    var middle := high * 0x40 + (t2 as int - 0x80);
    Digits64(b as int - 0xF0, t1 as int - 0x80);
    Digits64(high, t2 as int - 0x80);
    Digits64(middle, t3 as int - 0x80);
    assert Compose4(b, t1, t2, t3) == middle * 0x40 + (t3 as int - 0x80);
  }

  lemma Digits64(high: int, low: int)
    requires 0 <= low < 0x40
    ensures (high * 0x40 + low) / 0x40 == high && (high * 0x40 + low) % 0x40 == low
    ensures (high * 0x40 + low) / 0x1000 == high / 0x40 && (high * 0x40 + low) / 0x40000 == high / 0x1000
  {
  }

  /** Every encoding is well-formed and is decoded to its scalar value. */
  lemma EncodedIsWellFormed(s: seq<Byte>, i: nat, c: int)
    requires IsScalarValue(c) && i + |Encode(c)| <= |s| && s[i..i + |Encode(c)|] == Encode(c)
    ensures WellFormedLength(s, i) == |Encode(c)| && CodePointAt(s, i) == c
  {
    var e := Encode(c);
    assert s[i] == e[0];
    if |e| > 1 {
      assert s[i + 1] == e[1];
      assert c / 0x40 / 0x40 == c / 0x1000;
      if |e| > 2 {
        assert s[i + 2] == e[2];
        assert c / 0x1000 / 0x40 == c / 0x40000;
        if |e| > 3 {
          assert s[i + 3] == e[3];
        }
      }
    }
  }

  /** There is a unit of a code point at i exactly if its encoding is there; all else stands for U+FFFD. */
  lemma UnitIsEncoding(s: seq<Byte>, i: nat, c: int)
    requires i < |s| && IsScalarValue(c)
    ensures Encode(c) <= s[i..] <==> WellFormedLength(s, i) > 0 && CodePointAt(s, i) == c
    ensures (forall d :: IsScalarValue(d) ==> !(Encode(d) <= s[i..])) ==> CodePointAt(s, i) == 0xFFFD && UnitLength(s, i) == 1
  {
    hide WellFormedLength, CodePointAt, Encode;
    forall d | IsScalarValue(d) && Encode(d) <= s[i..] ensures WellFormedLength(s, i) > 0 && CodePointAt(s, i) == d {
      var n := |Encode(d)|;
      assert s[i..i + n] == s[i..][..n];
      EncodedIsWellFormed(s, i, d);
    }
    if WellFormedLength(s, i) > 0 {
      WellFormedIsEncoded(s, i);
      assert s[i..i + WellFormedLength(s, i)] <= s[i..];
    } else {
      IllFormedIsReplaced(s, i);
    }
  }

  lemma IllFormedIsReplaced(s: seq<Byte>, i: nat)
    requires i < |s| && WellFormedLength(s, i) == 0
    ensures CodePointAt(s, i) == 0xFFFD
  {
  }

  /** The following bytes of a unit start nothing of their own. */
  lemma UnitsDoNotOverlap(s: seq<Byte>, i: nat)
    requires i < |s|
    ensures forall j :: i < j < i + UnitLength(s, i) ==> WellFormedLength(s, j) == 0 && IsTail(s, j)
    ensures UnitStart(s, i) ==> UnitStart(s, i + UnitLength(s, i))
    ensures forall j :: i < j < i + UnitLength(s, i) ==> !UnitStart(s, j)
  {
  }

  /** Unit starts are exactly the positions a left-to-right decoder visits. */
  lemma UnitStartHasPredecessor(s: seq<Byte>, i: nat)
    requires 0 < i && UnitStart(s, i)
    ensures exists h: nat :: h < i && UnitStart(s, h) && h + UnitLength(s, h) == i
  {
    var h: nat := i - 1;
    while !UnitStart(s, h)
      invariant h < i
      invariant h + UnitLength(s, h) <= i
      invariant forall j :: h < j < i ==> IsTail(s, j)
      invariant h < i - 1 ==> h + UnitLength(s, h) == i
      decreases h
    {
      assert h > 0;
      var j: nat :| j < h && j + WellFormedLength(s, j) > h;
      UnitsDoNotOverlap(s, j);
      h := j;
    }
  }

  ghost predicate AllMatch(s: seq<Byte>, lo: int, hi: int, list: seq<int>, cond: bool) {
    forall i :: 0 <= lo <= i < hi <= |s| && UnitStart(s, i) ==> Member(list, CodePointAt(s, i)) == cond
  }

  /** r ends the longest prefix of matching units. */
  ghost predicate IsSpan(s: seq<Byte>, list: seq<int>, cond: bool, r: int) {
    && UnitStart(s, r)
    && AllMatch(s, 0, r, list, cond)
    && (r < |s| ==> Member(list, CodePointAt(s, r)) != cond)
  }

  lemma SpanIsLongest(s: seq<Byte>, list: seq<int>, cond: bool, r: int, other: int)
    requires IsSpan(s, list, cond, r)
    requires UnitStart(s, other) && AllMatch(s, 0, other, list, cond)
    ensures other <= r
  {
  }

  /** A tail byte starts nothing, so it stands for the replacement character. */
  lemma TailStartsNothing(s: seq<Byte>, i: nat)
    requires IsTail(s, i)
    ensures WellFormedLength(s, i) == 0 && CodePointAt(s, i) == REPLACEMENT
  {
  }

  /** Passing over one matching unit. */
  lemma ExtendMatch(s: seq<Byte>, list: seq<int>, cond: bool, i: nat)
    requires i < |s| && UnitStart(s, i) && AllMatch(s, 0, i, list, cond)
    requires Member(list, CodePointAt(s, i)) == cond
    ensures var n := UnitLength(s, i); UnitStart(s, i + n) && AllMatch(s, 0, i + n, list, cond)
  {
    UnitsDoNotOverlap(s, i);
    assert forall j :: 0 <= j < i + UnitLength(s, i) && UnitStart(s, j) ==> j <= i;
  }

  /** Passing over n bytes that start nothing well-formed. */
  lemma {:induction false} ExtendIllFormed(s: seq<Byte>, list: seq<int>, cond: bool, i: nat, n: nat)
    requires i + n <= |s| && UnitStart(s, i) && AllMatch(s, 0, i, list, cond)
    requires forall j :: i <= j < i + n ==> WellFormedLength(s, j) == 0
    requires Member(list, REPLACEMENT) == cond
    ensures UnitStart(s, i + n) && AllMatch(s, 0, i + n, list, cond)
    decreases n
  {
    if n > 0 {
      ExtendMatch(s, list, cond, i);
      ExtendIllFormed(s, list, cond, i + 1, n - 1);
    }
  }

  /** The look-ahead reads of a decoder at p stay inside the string. */
  predicate Enough(s: seq<Byte>, p: nat)
    requires p < |s|
  {
    && (s[p] >= 0xC0 ==> p + 1 < |s|)
    && (s[p] >= 0xE0 && IsTail(s, p + 1) ==> p + 2 < |s|)
    && (s[p] >= 0xF0 && IsTail(s, p + 1) && IsTail(s, p + 2) ==> p + 3 < |s|)
  }

  /** limit cuts off an incomplete last sequence, if there is one. */
  ghost predicate TailCut(s: seq<Byte>, limit: int) {
    && 0 <= limit <= |s|
    && (limit < |s| ==> s[limit] >= 0xC0)
    && (forall i :: limit <= i < |s| ==> WellFormedLength(s, i) == 0)
    && (forall p :: 0 <= p < limit ==> Enough(s, p))
  }

  /** A lead byte and its trail bytes stay on one side of the cut. */
  lemma TailsStayBeforeCut(s: seq<Byte>, limit: int, i: nat, n: nat)
    requires TailCut(s, limit) && i < limit && n >= 1
    requires forall j :: i < j < i + n ==> IsTail(s, j)
    ensures i + n <= limit
  {
    assert limit < i + n ==> !IsTail(s, limit);
    assert i + n <= |s| || IsTail(s, i + n - 1);
  }

  /** Where the span ends once every unit before the cut has matched. */
  lemma SpanToCut(s: seq<Byte>, list: seq<int>, cond: bool, limit: int)
    requires TailCut(s, limit)
    requires UnitStart(s, limit) && AllMatch(s, 0, limit, list, cond)
    ensures IsSpan(s, list, cond, if Member(list, REPLACEMENT) == cond then |s| else limit)
  {
    if Member(list, REPLACEMENT) == cond {
      ExtendIllFormed(s, list, cond, limit, |s| - limit);
    }
  }
}
