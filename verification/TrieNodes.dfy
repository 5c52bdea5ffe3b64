/**
  * What each kind of node written in front of the output adds to it. Nodes are
  * named by their offset, the distance from the end of the output.
  */
module TrieNodes {
  import opened Basics
  import opened TrieFormat
  import opened Tries
  import opened TrieEncoding
  import opened TrieElements

  /** Up to this size no jump delta exceeds MAX_THREE_BYTE_DELTA. */
  const MAX_SIZE := 0xE0000

  // ---------- encodings at a distance from the end ----------

  ghost predicate IsSuffix(c: seq<Byte>, c': seq<Byte>) {
    |c| <= |c'| && c'[|c'| - |c|..] == c
  }

  /** The node at this offset is t, if all the output stays small enough. */
  ghost predicate NodeAt(c: seq<Byte>, offset: int, t: Trie) {
    |c| <= MAX_SIZE ==> EncodesNode(c, |c| - offset, t)
  }

  ghost predicate BranchAt(c: seq<Byte>, offset: int, edges: seq<Edge>) {
    |c| <= MAX_SIZE ==> EncodesBranch(c, |c| - offset, edges)
  }

  ghost predicate ListAt(c: seq<Byte>, offset: int, edges: seq<Edge>) {
    |c| <= MAX_SIZE ==> EncodesList(c, |c| - offset, edges)
  }

  lemma SuffixRefl(c: seq<Byte>)
    ensures IsSuffix(c, c)
  {
  }

  lemma SuffixIsShorter(c: seq<Byte>, c': seq<Byte>)
    requires IsSuffix(c, c')
    ensures |c| <= |c'|
  {
  }

  lemma SuffixTrans(a: seq<Byte>, b: seq<Byte>, c: seq<Byte>)
    requires IsSuffix(a, b) && IsSuffix(b, c)
    ensures IsSuffix(a, c)
  {
    assert c[|c| - |a|..] == c[|c| - |b|..][|b| - |a|..];
  }

  lemma SuffixOfConcat(x: seq<Byte>, c: seq<Byte>)
    ensures IsSuffix(c, x + c)
  {
  }

  lemma ValueIsLonger(c: seq<Byte>, c': seq<Byte>, v: int, isFinal: bool)
    requires IsInt32(v) && c' == EncodeValue(v, isFinal) + c
    ensures IsSuffix(c, c') && |c| < |c'|
  {
  }

  lemma NodeKept(c: seq<Byte>, c': seq<Byte>, offset: int, t: Trie)
    requires IsSuffix(c, c') && NodeAt(c, offset, t)
    ensures NodeAt(c', offset, t)
  {
    if |c'| <= MAX_SIZE {
      var x := c'[..|c'| - |c|];
      assert c' == x + c;
      ShiftNode(x, c, |c| - offset, t);
      assert |x| + (|c| - offset) == |c'| - offset;
    }
  }

  lemma BranchKept(c: seq<Byte>, c': seq<Byte>, offset: int, edges: seq<Edge>)
    requires IsSuffix(c, c') && BranchAt(c, offset, edges)
    ensures BranchAt(c', offset, edges)
  {
    if |c'| <= MAX_SIZE {
      var x := c'[..|c'| - |c|];
      assert c' == x + c;
      ShiftBranch(x, c, |c| - offset, edges);
      assert |x| + (|c| - offset) == |c'| - offset;
    }
  }

  lemma ListKept(c: seq<Byte>, c': seq<Byte>, offset: int, edges: seq<Edge>)
    requires IsSuffix(c, c') && ListAt(c, offset, edges)
    ensures ListAt(c', offset, edges)
  {
    if |c'| <= MAX_SIZE {
      var x := c'[..|c'| - |c|];
      assert c' == x + c;
      ShiftList(x, c, |c| - offset, edges);
      assert |x| + (|c| - offset) == |c'| - offset;
    }
  }

  // ---------- one lemma per kind of node written ----------

  lemma FinalValueNode(c: seq<Byte>, c': seq<Byte>, v: int)
    requires IsInt32(v) && c' == EncodeValue(v, true) + c
    ensures NodeAt(c', |c'|, Trie(Some(v), End))
  {
    ValueRoundTrip(v, true, c);
  }

  lemma IntermediateValueNode(c: seq<Byte>, c': seq<Byte>, v: int, next: Next)
    requires IsInt32(v) && c' == EncodeValue(v, false) + c
    requires !next.End? && NodeAt(c, |c|, Trie(None, next))
    ensures NodeAt(c', |c'|, Trie(Some(v), next))
  {
    ValueRoundTrip(v, false, c);
    if |c'| <= MAX_SIZE {
      ShiftNext(EncodeValue(v, false), c, 0, next);
    }
  }

  lemma LinearMatchNode(c: seq<Byte>, c': seq<Byte>, units: seq<Byte>, t: Trie)
    requires 1 <= |units| <= MAX_LINEAR_MATCH_LENGTH
    requires c' == [MIN_LINEAR_MATCH + |units| - 1] + (units + c)
    requires NodeAt(c, |c|, t)
    ensures NodeAt(c', |c'|, Trie(None, Linear(units, t)))
  {
    if |c'| <= MAX_SIZE {
      var x := [MIN_LINEAR_MATCH + |units| - 1] + units;
      assert c' == x + c;
      ShiftNode(x, c, 0, t);
      assert forall i :: 0 <= i < |units| ==> c'[1 + i] == units[i];
    }
  }

  lemma BranchHeadNode(c: seq<Byte>, c': seq<Byte>, edges: seq<Edge>)
    requires 2 <= |edges| <= 0x100 && BranchAt(c, |c|, edges)
    requires if |edges| - 1 < MIN_LINEAR_MATCH then c' == [|edges| - 1] + c else c' == [0] + ([|edges| - 1] + c)
    ensures NodeAt(c', |c'|, Trie(None, Branch(edges)))
  {
    if |c'| <= MAX_SIZE {
      if |edges| - 1 < MIN_LINEAR_MATCH {
        ShiftBranch([|edges| - 1], c, 0, edges);
      } else {
        assert c' == [0, |edges| - 1] + c;
        ShiftBranch([0, |edges| - 1], c, 0, edges);
      }
    }
  }

  lemma LastUnit(c: seq<Byte>, c': seq<Byte>, e: Edge)
    requires c' == [e.unit] + c && NodeAt(c, |c|, e.child)
    ensures ListAt(c', |c'|, [e])
  {
    if |c'| <= MAX_SIZE {
      ShiftNode([e.unit], c, 0, e.child);
      assert EncodesChild(c', 1, e);
    }
  }

  lemma PairRead(c: seq<Byte>, c': seq<Byte>, unit: Byte, v: int, isFinal: bool)
    requires IsInt32(v) && c' == [unit] + (EncodeValue(v, isFinal) + c)
    ensures IsValueLead(c', 1) && ValueOf(c', 1) == v && IsFinal(c', 1) == isFinal
    ensures AfterValue(c', 1) == |c'| - |c| && IsSuffix(c, c')
  {
    ValueRoundTrip(v, isFinal, c);
    ShiftValue([unit], EncodeValue(v, isFinal) + c, 0);
    assert c' == ([unit] + EncodeValue(v, isFinal)) + c;
  }

  /** One more (unit, value) pair before the rest of a list node. */
  lemma UnitBefore(c: seq<Byte>, c': seq<Byte>, e: Edge, rest: seq<Edge>, v: int, isFinal: bool, target: int)
    requires IsInt32(v) && c' == [e.unit] + (EncodeValue(v, isFinal) + c)
    requires |rest| >= 1 && ListAt(c, |c|, rest)
    requires isFinal ==> e.child == Trie(Some(v), End)
    requires !isFinal ==> 0 <= target <= |c| && NodeAt(c, target, e.child) && v == Wrap32(|c| - target)
    ensures ListAt(c', |c'|, [e] + rest)
  {
    PairRead(c, c', e.unit, v, isFinal);
    if |c'| <= MAX_SIZE {
      var edges := [e] + rest;
      assert edges[0] == e && edges[1..] == rest;
      ListKept(c, c', |c|, rest);
      if !isFinal {
        NodeKept(c, c', target, e.child);
        assert EncodesChild(c', AfterValue(c', 1) + v, e);
      }
      assert EncodesEdge(c', 1, e);
      assert EncodesList(c', 0, edges);
    }
  }

  /** A split node over two halves. */
  lemma SplitNode(c: seq<Byte>, c1: seq<Byte>, c': seq<Byte>, lt: seq<Edge>, ge: seq<Edge>, target: int)
    requires 2 <= |lt| <= |ge| <= |lt| + 1 && |lt| + |ge| > MAX_BRANCH_LINEAR_SUB_NODE_LENGTH
    requires c' == [ge[0].unit] + c1 && IsSuffix(c, c1)
    requires BranchAt(c, |c|, ge)
    requires 0 <= target <= |c| && BranchAt(c, target, lt)
    requires |c| - target <= MAX_THREE_BYTE_DELTA ==>
      IsDelta(c1, 0) && JumpTarget(c1, 0) == |c1| - target && AfterDelta(c1, 0) == |c1| - |c|
    requires target >= 1
    ensures BranchAt(c', |c'|, lt + ge)
  {
    hide EncodesBranch, IsDelta, JumpTarget, AfterDelta, IsSuffix;
    SuffixOfConcat([ge[0].unit], c1);
    SuffixTrans(c, c1, c');
    if |c'| <= MAX_SIZE {
      var edges := lt + ge;
      assert edges[..|edges| / 2] == lt && edges[|edges| / 2..] == ge;
      ShiftDelta([ge[0].unit], c1, 0);
      BranchKept(c, c', |c|, ge);
      BranchKept(c, c', target, lt);
      SplitEncodes(c', edges);
    }
  }

  lemma SplitEncodes(b: seq<Byte>, edges: seq<Edge>)
    requires |edges| > MAX_BRANCH_LINEAR_SUB_NODE_LENGTH
    requires b != [] && b[0] == edges[|edges| / 2].unit && IsDelta(b, 1)
    requires EncodesBranch(b, JumpTarget(b, 1), edges[..|edges| / 2])
    requires EncodesBranch(b, AfterDelta(b, 1), edges[|edges| / 2..])
    ensures EncodesBranch(b, 0, edges)
  {
  }

  // ---------- entries ----------

  lemma {:induction false} EdgeEntriesConcat(a: seq<Edge>, b: seq<Edge>)
    ensures EdgeEntries(a + b) == EdgeEntries(a) + EdgeEntries(b)
  {
    if a == [] {
      assert a + b == b;
    } else {
      assert (a + b)[1..] == a[1..] + b;
      EdgeEntriesConcat(a[1..], b);
    }
  }

  /** Putting the shared bytes back in front. */
  lemma PrefixedSuffixes(es: seq<Entry>, lo: nat, hi: nat, d: nat, r: nat)
    requires Slice(es, lo, hi, r) && d <= r
    ensures Prefixed(es[lo].key[d..r], Suffixes(es, lo, hi, r)) == Suffixes(es, lo, hi, d)
  {
    var p, inner := es[lo].key[d..r], Suffixes(es, lo, hi, r);
    forall i | 0 <= i < hi - lo ensures Prefixed(p, inner)[i] == Suffixes(es, lo, hi, d)[i] {
      var k := es[lo + i].key;
      assert k[d..] == k[d..r] + k[r..];
      assert k[d..r] == k[..r][d..] == es[lo].key[..r][d..] == p;
    }
  }

  /** The edge of one group, entry by entry. */
  lemma GroupEdge(es: seq<Entry>, lo: nat, hi: nat, d: nat, t: Trie)
    requires Slice(es, lo, hi, d + 1)
    requires Entries(t) == Suffixes(es, lo, hi, d + 1)
    ensures EntriesOf(Edge(UnitAt(es, lo, d), t)) == Suffixes(es, lo, hi, d)
  {
    PrefixedSuffixes(es, lo, hi, d, d + 1);
    assert es[lo].key[d..d + 1] == [es[lo].key[d]];
  }
}
