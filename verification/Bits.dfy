/**
  * Unsigned machine words as natural numbers, with the C bit operators defined
  * digit by digit and characterized by their effect on each single bit.
  */
module Bits {

  const WORD_BITS: nat := 32

  /** 1 << k */
  function Pow2(k: nat): (r: nat)
    ensures r > 0
  {
    if k == 0 then 1 else 2 * Pow2(k - 1)
  }

  /** Bit k of w. */
  predicate Bit(w: nat, k: nat) {
    if k == 0 then w % 2 == 1 else Bit(w / 2, k - 1)
  }

  /** w | v */
  function Or(w: nat, v: nat): nat
    decreases w + v
  {
    if w == 0 then v
    else if v == 0 then w
    else 2 * Or(w / 2, v / 2) + (if w % 2 == 1 || v % 2 == 1 then 1 else 0)
  }

  /** w & v */
  function And(w: nat, v: nat): nat
    decreases w
  {
    if w == 0 || v == 0 then 0
    else 2 * And(w / 2, v / 2) + (if w % 2 == 1 && v % 2 == 1 then 1 else 0)
  }

  /** ~w on words of n bits. */
  function Not(w: nat, n: nat := WORD_BITS): nat
    requires w < Pow2(n)
  {
    Pow2(n) - 1 - w
  }

  /** w >> k */
  function Shr(w: nat, k: nat): nat {
    if k == 0 then w else Shr(w / 2, k - 1)
  }

  lemma {:induction false} BitOfZero(k: nat)
    ensures !Bit(0, k)
  {
    if k > 0 { BitOfZero(k - 1); }
  }

  lemma {:induction false} BitOr(w: nat, v: nat, k: nat)
    ensures Bit(Or(w, v), k) == (Bit(w, k) || Bit(v, k))
  {
    if w == 0 || v == 0 {
      BitOfZero(k);
    } else if k > 0 {
      BitOr(w / 2, v / 2, k - 1);
    }
  }

  lemma {:induction false} BitAnd(w: nat, v: nat, k: nat)
    ensures Bit(And(w, v), k) == (Bit(w, k) && Bit(v, k))
  {
    if w == 0 || v == 0 {
      BitOfZero(k);
    } else if k > 0 {
      BitAnd(w / 2, v / 2, k - 1);
    }
  }

  lemma {:induction false} BitNot(w: nat, n: nat, k: nat)
    requires w < Pow2(n) && k < n
    ensures Bit(Not(w, n), k) == !Bit(w, k)
  {
    if k > 0 {
      assert Not(w, n) / 2 == Not(w / 2, n - 1);
      BitNot(w / 2, n - 1, k - 1);
    }
  }

  lemma {:induction false} BitPow2(j: nat, k: nat)
    ensures Bit(Pow2(j), k) == (j == k)
  {
    if k > 0 {
      if j > 0 { BitPow2(j - 1, k - 1); } else { BitOfZero(k - 1); }
    }
  }

  /** (1 << j) - 1 has exactly the bits below j. */
  lemma {:induction false} BitBelow(j: nat, k: nat)
    ensures Bit(Pow2(j) - 1, k) == (k < j)
  {
    if j == 0 {
      BitOfZero(k);
    } else if k > 0 {
      BitBelow(j - 1, k - 1);
    }
  }

  /** 0x10001 << j has exactly the bits j and j + 16. */
  lemma {:induction false} BitTwin(j: nat, k: nat)
    ensures Bit(0x10001 * Pow2(j), k) == (k == j || k == j + 16)
  {
    if k == 0 {
    } else if j > 0 {
      BitTwin(j - 1, k - 1);
    } else {
      Pow2Of15();
      BitPow2(15, k - 1);
    }
  }

  lemma Pow2Of15()
    ensures Pow2(15) == 0x8000
  {
    assert Pow2(5) == 32;
    assert Pow2(10) == 1024;
  }

  lemma {:induction false} BitShr(w: nat, j: nat, k: nat)
    ensures Bit(Shr(w, j), k) == Bit(w, j + k)
  {
    if j > 0 { BitShr(w / 2, j - 1, k); }
  }

  lemma {:induction false} AndPow2(w: nat, j: nat)
    ensures And(w, Pow2(j)) == if Bit(w, j) then Pow2(j) else 0
  {
    BitOfZero(j);
    if j > 0 {
      AndPow2(w / 2, j - 1);
    } else {
      assert And(w / 2, 0) == 0;
    }
  }

  /** (w >> j) & 0x10001 reads the bits j and j + 16 of w together. */
  lemma {:induction false} TwinRead(w: nat, j: nat)
    ensures And(Shr(w, j), 0x10001) == (if Bit(w, j) then 1 else 0) + (if Bit(w, j + 16) then 0x10000 else 0)
  {
    var r := Shr(w, j);
    BitShr(w, j, 0);
    BitShr(w, j, 16);
    Pow2Of15();
    AndPow2(r / 2, 15);
    if r == 0 { BitOfZero(16); }
  }
}
