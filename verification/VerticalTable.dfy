/**
  * Tables of 64 words whose bits are organized "vertically": entry i of the
  * table is bit i / 64 of word i % 64.
  */
module VerticalTables {
  import opened Bits

  predicate At(table: seq<nat>, i: int)
    requires |table| == 64
    requires 0 <= i < 0x800
  {
    Bit(table[i % 64], i / 64)
  }

  lemma ZeroAt(table: seq<nat>, i: int)
    requires |table| == 64 && 0 <= i < 0x800 && table[i % 64] == 0
    ensures !At(table, i)
  {
    BitOfZero(i / 64);
  }

  lemma {:induction false} Pow2Below32(k: nat)
    requires k <= 32
    ensures Pow2(k) <= Pow2(32)
    decreases 32 - k
  {
    if k < 32 { Pow2Below32(k + 1); }
  }

  /** The mask ~((1 << lo) - 1), cut at hi unless hi reaches the word size. */
  function RectangleMask(lo: nat, hi: nat): nat
    requires lo < 32 && hi <= 32
  {
    Pow2Below32(lo);
    var from := Not(Pow2(lo) - 1);
    if hi < 32 then And(from, Pow2(hi) - 1) else from
  }

  lemma {:induction false} RectangleMaskBits(lo: nat, hi: nat, k: nat)
    requires lo < 32 && hi <= 32 && k < 32
    ensures Bit(RectangleMask(lo, hi), k) == (lo <= k < hi)
  {
    Pow2Below32(lo);
    BitNot(Pow2(lo) - 1, 32, k);
    BitBelow(lo, k);
    BitAnd(Not(Pow2(lo) - 1), Pow2(hi) - 1, k);
    BitBelow(hi, k);
  }

  /** table[t] |= bits, for t in from..to-1 */
  method OrWords(table: array<nat>, from: nat, to: nat, bits: nat)
    requires table.Length == 64
    requires from <= to <= 64
    modifies table
    ensures forall i :: 0 <= i < 0x800 ==>
      At(table[..], i) == (old(At(table[..], i)) || (from <= i % 64 < to && Bit(bits, i / 64)))
  {
    for t := from to to
      invariant forall u :: t <= u < 64 || 0 <= u < from ==> table[u] == old(table[u])
      invariant forall u :: from <= u < t ==> table[u] == Or(old(table[u]), bits)
    {
      table[t] := Or(table[t], bits);
    }
    forall i | 0 <= i < 0x800
      ensures At(table[..], i) == (old(At(table[..], i)) || (from <= i % 64 < to && Bit(bits, i / 64)))
    {
      BitOr(old(table[i % 64]), bits, i / 64);
    }
  }

  /** table[t] &= mask, for t in from..to-1 */
  method AndWords(table: array<nat>, from: nat, to: nat, mask: nat)
    requires table.Length == 64
    requires from <= to <= 64
    modifies table
    ensures forall i :: 0 <= i < 0x800 ==>
      At(table[..], i) == (old(At(table[..], i)) && (from <= i % 64 < to ==> Bit(mask, i / 64)))
  {
    for t := from to to
      invariant forall u :: t <= u < 64 || 0 <= u < from ==> table[u] == old(table[u])
      invariant forall u :: from <= u < t ==> table[u] == And(old(table[u]), mask)
    {
      table[t] := And(table[t], mask);
    }
    forall i | 0 <= i < 0x800
      ensures At(table[..], i) == (old(At(table[..], i)) && (from <= i % 64 < to ==> Bit(mask, i / 64)))
    {
      BitAnd(old(table[i % 64]), mask, i / 64);
    }
  }

  /** table[t] |= 1 << lead, for t in from..to-1: part of one column. */
  method OrColumn(table: array<nat>, from: nat, to: nat, lead: nat)
    requires table.Length == 64
    requires from <= to <= 64
    modifies table
    ensures forall i :: 0 <= i < 0x800 ==>
      At(table[..], i) == (old(At(table[..], i)) || (from <= i % 64 < to && i / 64 == lead))
  {
    forall k | 0 <= k < 32 ensures Bit(Pow2(lead), k) == (k == lead) { BitPow2(lead, k); }
    OrWords(table, from, to, Pow2(lead));
  }

  /** The columns lo..hi-1 in full. */
  method OrRectangle(table: array<nat>, lo: nat, hi: nat)
    requires table.Length == 64
    requires lo < hi <= 32
    modifies table
    ensures forall i :: 0 <= i < 0x800 ==>
      At(table[..], i) == (old(At(table[..], i)) || lo <= i / 64 < hi)
  {
    forall k | 0 <= k < 32 ensures Bit(RectangleMask(lo, hi), k) == (lo <= k < hi) {
      RectangleMaskBits(lo, hi, k);
    }
    OrWords(table, 0, 64, RectangleMask(lo, hi));
  }

  /** Sets the entries start..limit-1: a partial column, a rectangle, a partial column. */
  method Set32x64Bits(table: array<nat>, start: int, limit: int)
    requires table.Length == 64
    requires 0 <= start < limit <= 0x800
    modifies table
    ensures forall i :: 0 <= i < 0x800 ==>
      At(table[..], i) == (old(At(table[..], i)) || start <= i < limit)
  {
    var lead := start / 64;
    var trail := start % 64;
    if start + 1 == limit {
      OrColumn(table, trail, trail + 1, lead);
      return;
    }
    var limitLead := limit / 64;
    var limitTrail := limit % 64;
    if lead == limitLead {
      OrColumn(table, trail, limitTrail, lead);
    } else {
      if trail > 0 {
        OrColumn(table, trail, 64, lead);
        lead := lead + 1;
      }
      if lead < limitLead {
        OrRectangle(table, lead, limitLead);
      }
      // limitLead == 32 names no bit, but then limitTrail == 0 and no word is changed.
      OrColumn(table, 0, limitTrail, if limitLead == 0x20 then limitLead - 1 else limitLead);
    }
  }
}
