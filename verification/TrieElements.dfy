/** Sorted (key, value) elements, and the runs of them that share bytes. */
module TrieElements {
  import opened TrieFormat
  import opened Tries

  /** Byte d of key i, or -1 if the key ends before. */
  function UnitAt(es: seq<Entry>, i: nat, d: nat): int
    requires i < |es|
  {
    if d < |es[i].key| then es[i].key[d] else -1
  }

  function Suffix(e: Entry, d: nat): Entry {
    if d <= |e.key| then Entry(e.key[d..], e.value) else e
  }

  /** The elements lo..hi-1 without their first d key bytes. */
  function Suffixes(es: seq<Entry>, lo: nat, hi: nat, d: nat): (r: seq<Entry>)
    requires lo <= hi <= |es|
    ensures |r| == hi - lo
    ensures forall i :: 0 <= i < hi - lo ==> r[i] == Suffix(es[lo + i], d)
  {
    seq(hi - lo, i requires 0 <= i < hi - lo => Suffix(es[lo + i], d))
  }

  lemma SuffixesSplit(es: seq<Entry>, lo: nat, mid: nat, hi: nat, d: nat)
    requires lo <= mid <= hi <= |es|
    ensures Suffixes(es, lo, hi, d) == Suffixes(es, lo, mid, d) + Suffixes(es, mid, hi, d)
  {
  }

  /** The elements lo..hi-1 share their first d key bytes. */
  ghost predicate Slice(es: seq<Entry>, lo: nat, hi: nat, d: nat) {
    && lo < hi <= |es|
    && Sorted(es)
    && (forall i :: lo <= i < hi ==> d <= |es[i].key| && IsInt32(es[i].value))
    && (forall i :: lo <= i < hi ==> es[i].key[..d] == es[lo].key[..d])
  }

  /** They also all have a byte at d. */
  ghost predicate LongSlice(es: seq<Entry>, lo: nat, hi: nat, d: nat) {
    Slice(es, lo, hi, d) && forall i :: lo <= i < hi ==> d < |es[i].key|
  }

  lemma SliceBounds(es: seq<Entry>, lo: nat, hi: nat, d: nat)
    requires Slice(es, lo, hi, d)
    ensures lo < hi <= |es|
  {
  }

  lemma SliceFacts(es: seq<Entry>, lo: nat, hi: nat, d: nat, i: nat)
    requires Slice(es, lo, hi, d) && lo <= i < hi
    ensures hi <= |es| && d <= |es[i].key| && IsInt32(es[i].value)
  {
  }

  lemma UnitAtIs(es: seq<Entry>, i: nat, d: nat)
    requires i < |es| && d < |es[i].key|
    ensures UnitAt(es, i, d) == es[i].key[d]
  {
  }

  lemma LongBounds(es: seq<Entry>, lo: nat, hi: nat, d: nat)
    requires LongSlice(es, lo, hi, d)
    ensures lo < hi <= |es|
  {
  }

  lemma LongFacts(es: seq<Entry>, lo: nat, hi: nat, d: nat, i: nat)
    requires LongSlice(es, lo, hi, d) && lo <= i < hi
    ensures hi <= |es| && d < |es[i].key| && 0 <= UnitAt(es, i, d) < 0x100
  {
  }

  lemma LessDropCommon(a: seq<Byte>, b: seq<Byte>, d: nat)
    requires d <= |a| && d <= |b| && a[..d] == b[..d]
    ensures Less(a, b) == Less(a[d..], b[d..])
  {
    assert a == a[..d] + a[d..] && b == a[..d] + b[d..];
    LessPrefixed(a[..d], a[d..], b[d..]);
  }

  /** In a long slice the bytes at d ascend. */
  lemma UnitsAscend(es: seq<Entry>, lo: nat, hi: nat, d: nat, i: nat, j: nat)
    requires LongSlice(es, lo, hi, d)
    requires lo <= i <= j < hi
    ensures UnitAt(es, i, d) <= UnitAt(es, j, d)
  {
    if i < j {
      LessDropCommon(es[i].key, es[j].key, d);
    }
  }

  /** Only the first element of a slice can end at d. */
  lemma RestIsLonger(es: seq<Entry>, lo: nat, hi: nat, d: nat)
    requires Slice(es, lo, hi, d)
    ensures d < |es[lo].key| ==> LongSlice(es, lo, hi, d)
    ensures lo + 1 < hi ==> LongSlice(es, lo + 1, hi, d)
  {
    forall i | lo < i < hi ensures d < |es[i].key| {
      LessDropCommon(es[lo].key, es[i].key, d);
    }
  }

  /** The first index from lo on with another byte than unit at d, or hi. */
  function GroupEnd(es: seq<Entry>, lo: nat, hi: nat, d: nat, unit: int): (r: nat)
    requires lo <= hi <= |es|
    ensures lo <= r <= hi
    ensures forall i :: lo <= i < r ==> UnitAt(es, i, d) == unit
    ensures r < hi ==> UnitAt(es, r, d) != unit
    decreases hi - lo
  {
    if lo == hi || UnitAt(es, lo, d) != unit then lo else GroupEnd(es, lo + 1, hi, d, unit)
  }

  function FirstGroupEnd(es: seq<Entry>, lo: nat, hi: nat, d: nat): (r: nat)
    requires lo < hi <= |es|
    ensures lo < r <= hi
    ensures forall i :: lo <= i < r ==> UnitAt(es, i, d) == UnitAt(es, lo, d)
    ensures r < hi ==> UnitAt(es, r, d) != UnitAt(es, lo, d)
  {
    GroupEnd(es, lo + 1, hi, d, UnitAt(es, lo, d))
  }

  /** How many different bytes there are at d. */
  function Units(es: seq<Entry>, lo: nat, hi: nat, d: nat): (n: nat)
    requires lo <= hi <= |es|
    ensures n <= hi - lo
    ensures n > 0 <==> lo < hi
    decreases hi - lo
  {
    if lo == hi then 0 else 1 + Units(es, FirstGroupEnd(es, lo, hi, d), hi, d)
  }

  /** A group's elements share one more byte. */
  lemma GroupIsSlice(es: seq<Entry>, lo: nat, hi: nat, d: nat, g: nat, h: nat)
    requires LongSlice(es, lo, hi, d)
    requires lo <= g < h <= hi
    requires forall i :: g <= i < h ==> UnitAt(es, i, d) == UnitAt(es, g, d)
    ensures Slice(es, g, h, d + 1)
  {
    forall i | g <= i < h ensures es[i].key[..d + 1] == es[g].key[..d + 1] {
      assert UnitAt(es, i, d) == UnitAt(es, g, d);
      assert es[i].key[..d + 1] == es[i].key[..d] + [es[i].key[d]];
      assert es[g].key[..d + 1] == es[g].key[..d] + [es[g].key[d]];
    }
  }

  lemma SubSlice(es: seq<Entry>, lo: nat, hi: nat, d: nat, g: nat, h: nat)
    requires LongSlice(es, lo, hi, d)
    requires lo <= g < h <= hi
    ensures LongSlice(es, g, h, d)
  {
  }

  lemma ShorterSlice(es: seq<Entry>, lo: nat, hi: nat, d: nat, r: nat)
    requires Slice(es, lo, hi, r) && d <= r
    ensures Slice(es, lo, hi, d)
  {
    forall i | lo <= i < hi ensures es[i].key[..d] == es[lo].key[..d] {
      assert es[i].key[..d] == es[i].key[..r][..d];
      assert es[lo].key[..d] == es[lo].key[..r][..d];
    }
  }

  /** Splitting at a group boundary splits the count. */
  lemma {:induction false} UnitsSplit(es: seq<Entry>, lo: nat, mid: nat, hi: nat, d: nat)
    requires lo <= mid <= hi <= |es|
    requires lo < mid < hi ==> UnitAt(es, mid - 1, d) != UnitAt(es, mid, d)
    ensures Units(es, lo, hi, d) == Units(es, lo, mid, d) + Units(es, mid, hi, d)
    decreases hi - lo
  {
    if lo < mid {
      var g := FirstGroupEnd(es, lo, hi, d);
      GroupEndUnique(es, lo, mid, d, g);
      UnitsSplit(es, g, mid, hi, d);
    }
  }

  lemma GroupEndUnique(es: seq<Entry>, lo: nat, hi: nat, d: nat, g: nat)
    requires lo < g <= hi <= |es|
    requires forall i :: lo <= i < g ==> UnitAt(es, i, d) == UnitAt(es, lo, d)
    requires g < hi ==> UnitAt(es, g, d) != UnitAt(es, lo, d)
    ensures FirstGroupEnd(es, lo, hi, d) == g
  {
  }

  /** Different first and last bytes make at least two groups; bytes make at most 256. */
  lemma UnitsOfEnds(es: seq<Entry>, lo: nat, hi: nat, d: nat)
    requires LongSlice(es, lo, hi, d)
    ensures UnitAt(es, lo, d) != UnitAt(es, hi - 1, d) ==> Units(es, lo, hi, d) >= 2
    ensures Units(es, lo, hi, d) <= 0x100 - UnitAt(es, lo, d)
    decreases hi - lo
  {
    var g := FirstGroupEnd(es, lo, hi, d);
    if g < hi {
      SubSlice(es, lo, hi, d, g, hi);
      UnitsAscend(es, lo, hi, d, lo, g);
      UnitsOfEnds(es, g, hi, d);
    }
  }

  /** Between two keys that share r bytes every key shares them. */
  lemma {:induction false} Sandwich(a: seq<Byte>, m: seq<Byte>, z: seq<Byte>, r: nat)
    requires a == m || Less(a, m)
    requires m == z || Less(m, z)
    requires r <= |a| && r <= |z| && a[..r] == z[..r]
    ensures r <= |m| && m[..r] == a[..r]
  {
    if r > 0 {
      assert a[0] == a[..r][0] == z[..r][0] == z[0];
      assert m != [] && m[0] == a[0];
      assert a[1..][..r - 1] == a[..r][1..] == z[..r][1..] == z[1..][..r - 1];
      Sandwich(a[1..], m[1..], z[1..], r - 1);
      assert m[..r] == [m[0]] + m[1..][..r - 1];
      assert a[..r] == [a[0]] + a[1..][..r - 1];
    }
  }

  /** A common prefix of the first and the last key is common to the whole slice. */
  lemma SliceOfEnds(es: seq<Entry>, lo: nat, hi: nat, d: nat, r: nat)
    requires Slice(es, lo, hi, d)
    requires r <= |es[lo].key| && r <= |es[hi - 1].key|
    requires es[lo].key[..r] == es[hi - 1].key[..r]
    ensures Slice(es, lo, hi, r)
  {
    forall i | lo <= i < hi ensures r <= |es[i].key| && es[i].key[..r] == es[lo].key[..r] {
      Sandwich(es[lo].key, es[i].key, es[hi - 1].key, r);
    }
  }

  // ---------- scans over the elements ----------

  /** The end of the common bytes of the first and the last key, from unitIndex on. */
  method GetLimitOfLinearMatch(es: seq<Entry>, first: nat, last: nat, unitIndex: nat) returns (r: nat)
    requires first <= last && LongSlice(es, first, last + 1, unitIndex)
    requires UnitAt(es, first, unitIndex) == UnitAt(es, last, unitIndex)
    ensures unitIndex < r <= |es[first].key|
    ensures Slice(es, first, last + 1, r)
    ensures r < |es[first].key| ==> r < |es[last].key| && es[first].key[r] != es[last].key[r]
  {
    var a, z := es[first].key, es[last].key;
    r := unitIndex + 1;
    assert a[..r] == a[..unitIndex] + [a[unitIndex]] == z[..unitIndex] + [z[unitIndex]] == z[..r];
    while r < |a| && (LongerThan(es, first, last, r); a[r] == z[r])
      invariant unitIndex < r <= |a| && r <= |z|
      invariant a[..r] == z[..r]
    {
      LongerThan(es, first, last, r);
      assert a[..r + 1] == a[..r] + [a[r]] == z[..r] + [z[r]] == z[..r + 1];
      r := r + 1;
    }
    if r < |a| { LongerThan(es, first, last, r); }
    SliceOfEnds(es, first, last + 1, unitIndex, r);
  }

  /** The later of two keys cannot end inside their common part. */
  lemma LongerThan(es: seq<Entry>, first: nat, last: nat, r: nat)
    requires first <= last < |es| && Sorted(es)
    requires r < |es[first].key| && r <= |es[last].key|
    requires es[first].key[..r] == es[last].key[..r]
    ensures r < |es[last].key|
  {
    if first < last {
      LessDropCommon(es[first].key, es[last].key, r);
    }
  }

  method CountElementUnits(es: seq<Entry>, start: nat, limit: nat, unitIndex: nat) returns (length: nat)
    requires start < limit <= |es|
    ensures length == Units(es, start, limit, unitIndex)
  {
    length := 0;
    var i := start;
    while true
      invariant start <= i < limit
      invariant length + Units(es, i, limit, unitIndex) == Units(es, start, limit, unitIndex)
      decreases limit - i
    {
      ghost var g := i;
      var unit := UnitAt(es, i, unitIndex);
      i := i + 1;
      while i < limit && unit == UnitAt(es, i, unitIndex)
        invariant g < i <= limit
        invariant forall k :: g <= k < i ==> UnitAt(es, k, unitIndex) == unit
      {
        i := i + 1;
      }
      GroupEndUnique(es, g, limit, unitIndex, i);
      length := length + 1;
      if !(i < limit) {
        break;
      }
    }
  }

  /** Skips the elements of count different bytes; more elements must follow. */
  method SkipElementsBySomeUnits(es: seq<Entry>, start: nat, ghost limit: nat, unitIndex: nat, count: nat) returns (i: nat)
    requires start < limit <= |es|
    requires 1 <= count < Units(es, start, limit, unitIndex)
    ensures start < i < limit
    ensures UnitAt(es, i - 1, unitIndex) != UnitAt(es, i, unitIndex)
    ensures Units(es, i, limit, unitIndex) == Units(es, start, limit, unitIndex) - count
  {
    hide GroupEnd;
    i := start;
    var left := count;
    while true
      invariant start <= i < limit && 1 <= left <= count
      invariant Units(es, i, limit, unitIndex) == Units(es, start, limit, unitIndex) - count + left
      decreases left
    {
      ghost var end := FirstGroupEnd(es, i, limit, unitIndex);
      var unit := UnitAt(es, i, unitIndex);
      i := i + 1;
      while unit == UnitAt(es, i, unitIndex)
        invariant i <= end < limit
        invariant UnitAt(es, i - 1, unitIndex) == unit
        decreases end - i
      {
        i := i + 1;
      }
      left := left - 1;
      if !(left > 0) {
        break;
      }
    }
  }

  /** The first element from start on with another byte; one must follow. */
  method IndexOfElementWithNextUnit(es: seq<Entry>, start: nat, ghost limit: nat, unitIndex: nat, unit: int) returns (i: nat)
    requires start <= limit <= |es|
    requires GroupEnd(es, start, limit, unitIndex, unit) < limit
    ensures i == GroupEnd(es, start, limit, unitIndex, unit)
  {
    i := start;
    ghost var end := GroupEnd(es, start, limit, unitIndex, unit);
    while unit == UnitAt(es, i, unitIndex)
      invariant start <= i <= end
      decreases end - i
    {
      i := i + 1;
    }
  }
}
