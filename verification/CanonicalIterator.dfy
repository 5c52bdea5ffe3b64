/** The permutation generator and the odometer of CanonicalIterator. */
module CanonicalIterators {
  import opened Basics

  type CodePoint = int
  type Text = seq<CodePoint>

  // ---------- permute ----------

  function Removed<T>(s: seq<T>, i: nat): seq<T>
    requires i < |s|
  {
    s[..i] + s[i + 1..]
  }

  /** A character of combining class zero is taken only when nothing is left before it. */
  predicate MayTake(cc: CodePoint -> nat, skipZeros: bool, source: Text, i: nat)
    requires i < |source|
  {
    !(skipZeros && i != 0 && cc(source[i]) == 0)
  }

  /** Taking one allowed character at a time gives t. */
  ghost predicate IsDrawn(cc: CodePoint -> nat, skipZeros: bool, source: Text, t: Text)
    decreases |source|
  {
    if |source| <= 1 then t == source
    else StartsBelow(cc, skipZeros, source, |source|, t)
  }

  /** A character before position n comes first. */
  ghost predicate StartsBelow(cc: CodePoint -> nat, skipZeros: bool, source: Text, n: nat, t: Text)
    requires n <= |source|
    decreases |source|, 1
  {
    exists i :: 0 <= i < n && StartsWith(cc, skipZeros, source, i, t)
  }

  lemma StartsBelowNext(cc: CodePoint -> nat, skipZeros: bool, source: Text, n: nat, t: Text)
    requires n < |source|
    ensures StartsBelow(cc, skipZeros, source, n + 1, t) <==>
            StartsBelow(cc, skipZeros, source, n, t) || StartsWith(cc, skipZeros, source, n, t)
  {
  }

  /** The character at position i comes first. */
  ghost predicate StartsWith(cc: CodePoint -> nat, skipZeros: bool, source: Text, i: nat, t: Text)
    requires i < |source|
    decreases |source|, 0
  {
    t != [] && MayTake(cc, skipZeros, source, i) && t[0] == source[i] && IsDrawn(cc, skipZeros, Removed(source, i), t[1..])
  }

  /** Adds the permutations of source to result. */
  method Permute(cc: CodePoint -> nat, source: Text, skipZeros: bool, result: set<Text>) returns (r: set<Text>)
    ensures forall t :: t in r <==> t in result || IsDrawn(cc, skipZeros, source, t)
    decreases |source|
  {
    r := result;
    if |source| <= 1 {
      r := r + {source};
      return;
    }
    var i := 0;
    while i < |source|
      invariant 0 <= i <= |source|
      invariant forall t :: t in r <==> t in result || StartsBelow(cc, skipZeros, source, i, t)
    {
      forall t {
        StartsBelowNext(cc, skipZeros, source, i, t);
      }
      var cp := source[i];
      if skipZeros && i != 0 && cc(cp) == 0 {
        i := i + 1;
        continue;
      }
      var subpermute := Permute(cc, Removed(source, i), skipZeros, {});
      r := PutPrefixed(cp, subpermute, r);
      i := i + 1;
    }
  }

  method PutPrefixed(cp: CodePoint, subpermute: set<Text>, result: set<Text>) returns (r: set<Text>)
    ensures forall t :: t in r <==> t in result || (t != [] && t[0] == cp && t[1..] in subpermute)
  {
    r := result;
    var rest := subpermute;
    while rest != {}
      invariant rest <= subpermute
      invariant forall t :: t in r <==> t in result || (t != [] && t[0] == cp && t[1..] in subpermute - rest)
      decreases |rest|
    {
      var permRes :| permRes in rest;
      assert ([cp] + permRes)[1..] == permRes;
      r := r + {[cp] + permRes};
      rest := rest - {permRes};
      forall t | t != [] && t[0] == cp && t[1..] == permRes ensures t == [cp] + permRes {
      }
    }
  }

  /** p lists each position below n once. */
  ghost predicate IsOrder(p: seq<nat>, n: nat) {
    && |p| == n
    && (forall i :: 0 <= i < n ==> p[i] < n)
    && (forall i, j :: 0 <= i < j < n ==> p[i] != p[j])
    && (forall x :: 0 <= x < n ==> x in p)
  }

  /** Every character of class zero still follows all that preceded it. */
  ghost predicate KeepsZeros(cc: CodePoint -> nat, source: Text, p: seq<nat>)
    requires IsOrder(p, |source|)
  {
    forall i, j :: 0 <= i < j < |p| && cc(source[p[i]]) == 0 ==> p[i] < p[j]
  }

  function Arranged(source: Text, p: seq<nat>): Text
    requires forall i :: 0 <= i < |p| ==> p[i] < |source|
  {
    seq(|p|, i requires 0 <= i < |p| => source[p[i]])
  }

  ghost predicate IsArrangement(cc: CodePoint -> nat, skipZeros: bool, source: Text, t: Text, p: seq<nat>) {
    IsOrder(p, |source|) && (skipZeros ==> KeepsZeros(cc, source, p)) && t == Arranged(source, p)
  }

  // Positions in source and in source without position i.
  function Up(i: nat, x: nat): nat {
    if x < i then x else x + 1
  }

  function Down(i: nat, x: nat): nat {
    if x <= i then x else x - 1
  }

  function AllUp(i: nat, p: seq<nat>): (r: seq<nat>)
    ensures |r| == |p| && forall k :: 0 <= k < |p| ==> r[k] == Up(i, p[k])
  {
    seq(|p|, k requires 0 <= k < |p| => Up(i, p[k]))
  }

  function AllDown(i: nat, p: seq<nat>): (r: seq<nat>)
    ensures |r| == |p| && forall k :: 0 <= k < |p| ==> r[k] == Down(i, p[k])
  {
    seq(|p|, k requires 0 <= k < |p| => Down(i, p[k]))
  }

  lemma OrderExtends(i: nat, q: seq<nat>, n: nat)
    requires IsOrder(q, n) && i <= n
    ensures IsOrder([i] + AllUp(i, q), n + 1)
  {
    var p := [i] + AllUp(i, q);
    forall x | 0 <= x < n + 1 ensures x in p {
      if x != i {
        assert Down(i, x) in q;
        var k :| 0 <= k < n && q[k] == Down(i, x);
        assert p[k + 1] == x;
      } else {
        assert p[0] == x;
      }
    }
  }

  lemma OrderShrinks(p: seq<nat>, n: nat)
    requires IsOrder(p, n + 1)
    ensures IsOrder(AllDown(p[0], p[1..]), n)
  {
    var i := p[0];
    var q := AllDown(i, p[1..]);
    forall x | 0 <= x < n ensures x in q {
      assert Up(i, x) in p;
      var k :| 0 <= k < n + 1 && p[k] == Up(i, x);
      assert q[k - 1] == x;
    }
  }

  lemma ArrangementExtends(cc: CodePoint -> nat, skipZeros: bool, source: Text, i: nat, t: Text, q: seq<nat>)
    requires i < |source| && t != [] && MayTake(cc, skipZeros, source, i) && t[0] == source[i]
    requires IsArrangement(cc, skipZeros, Removed(source, i), t[1..], q)
    ensures IsArrangement(cc, skipZeros, source, t, [i] + AllUp(i, q))
  {
    hide IsOrder, KeepsZeros;
    var rest := Removed(source, i);
    var p := [i] + AllUp(i, q);
    OrderExtends(i, q, |rest|);
    OrderFacts(q, |rest|);
    OrderFacts(p, |source|);
    ArrangedExtends(source, i, t, q);
    if skipZeros {
      ZerosStayExtended(cc, source, i, q);
    }
  }

  lemma ArrangedExtends(source: Text, i: nat, t: Text, q: seq<nat>)
    requires i < |source| && t != [] && t[0] == source[i]
    requires |q| == |source| - 1 && (forall k :: 0 <= k < |q| ==> q[k] < |source| - 1)
    requires t[1..] == Arranged(Removed(source, i), q)
    requires forall k :: 0 <= k < |[i] + AllUp(i, q)| ==> ([i] + AllUp(i, q))[k] < |source|
    ensures t == Arranged(source, [i] + AllUp(i, q))
  {
    forall k | 0 <= k < |t| ensures t[k] == Arranged(source, [i] + AllUp(i, q))[k] {
      if k > 0 {
        assert t[k] == t[1..][k - 1] == Removed(source, i)[q[k - 1]] == source[Up(i, q[k - 1])];
      }
    }
  }

  lemma ZerosStayExtended(cc: CodePoint -> nat, source: Text, i: nat, q: seq<nat>)
    requires i < |source| && MayTake(cc, true, source, i)
    requires IsOrder(q, |source| - 1) && KeepsZeros(cc, Removed(source, i), q)
    requires IsOrder([i] + AllUp(i, q), |source|)
    ensures KeepsZeros(cc, source, [i] + AllUp(i, q))
  {
    hide IsOrder;
    assert |q| == |source| - 1 && (forall k :: 0 <= k < |q| ==> q[k] < |source| - 1) by {
      OrderFacts(q, |source| - 1);
    }
    var p, rest := [i] + AllUp(i, q), Removed(source, i);
    OrderFacts(p, |source|);
    forall a, b | 0 <= a < b < |p| && cc(source[p[a]]) == 0 ensures p[a] < p[b] {
      if a > 0 {
        assert rest[q[a - 1]] == source[p[a]];
        assert q[a - 1] < q[b - 1];
      }
    }
  }

  lemma OrderFacts(p: seq<nat>, n: nat)
    requires IsOrder(p, n)
    ensures |p| == n && (forall k :: 0 <= k < n ==> p[k] < n)
  {
  }

  lemma ArrangementShrinks(cc: CodePoint -> nat, skipZeros: bool, source: Text, t: Text, p: seq<nat>)
    requires IsArrangement(cc, skipZeros, source, t, p) && source != []
    ensures p[0] < |source| && MayTake(cc, skipZeros, source, p[0]) && t != [] && t[0] == source[p[0]]
    ensures IsArrangement(cc, skipZeros, Removed(source, p[0]), t[1..], AllDown(p[0], p[1..]))
  {
    var i := p[0];
    var rest := Removed(source, i);
    var q := AllDown(i, p[1..]);
    OrderShrinks(p, |rest|);
    assert forall k :: 0 <= k < |rest| ==> rest[q[k]] == source[p[k + 1]];
    assert t[1..] == Arranged(rest, q);
    if skipZeros {
      forall a, b | 0 <= a < b < |q| && cc(rest[q[a]]) == 0 ensures q[a] < q[b] {
        assert cc(source[p[a + 1]]) == 0 && p[a + 1] < p[b + 1];
      }
    }
    assert 0 in p;
  }

  lemma {:induction false} DrawnIsArranged(cc: CodePoint -> nat, skipZeros: bool, source: Text, t: Text) returns (p: seq<nat>)
    requires IsDrawn(cc, skipZeros, source, t)
    ensures IsArrangement(cc, skipZeros, source, t, p)
    decreases |source|
  {
    hide IsArrangement;
    if |source| <= 1 {
      p := seq(|source|, i => i);
      ShortArrangement(cc, skipZeros, source, p);
    } else {
      assert StartsBelow(cc, skipZeros, source, |source|, t);
      var i :| 0 <= i < |source| && StartsWith(cc, skipZeros, source, i, t);
      var q := DrawnIsArranged(cc, skipZeros, Removed(source, i), t[1..]);
      ArrangementExtends(cc, skipZeros, source, i, t, q);
      p := [i] + AllUp(i, q);
    }
  }

  lemma ShortArrangement(cc: CodePoint -> nat, skipZeros: bool, source: Text, p: seq<nat>)
    requires |source| <= 1 && p == seq(|source|, i => i)
    ensures IsArrangement(cc, skipZeros, source, source, p)
  {
    assert |source| == 1 ==> p[0] == 0;
  }

  lemma {:induction false} ArrangedIsDrawn(cc: CodePoint -> nat, skipZeros: bool, source: Text, t: Text, p: seq<nat>)
    requires IsArrangement(cc, skipZeros, source, t, p)
    ensures IsDrawn(cc, skipZeros, source, t)
    decreases |source|
  {
    if source != [] {
      ArrangementShrinks(cc, skipZeros, source, t, p);
      hide IsArrangement;
      ArrangedIsDrawn(cc, skipZeros, Removed(source, p[0]), t[1..], AllDown(p[0], p[1..]));
      StartIsDrawn(cc, skipZeros, source, p[0], t);
    }
  }

  /** Skipping zeros leaves exactly the rearrangements that keep class-zero characters behind what preceded them. */
  lemma PermuteIsArrangements(cc: CodePoint -> nat, skipZeros: bool, source: Text, t: Text)
    ensures IsDrawn(cc, skipZeros, source, t) <==> exists p :: IsArrangement(cc, skipZeros, source, t, p)
  {
    if IsDrawn(cc, skipZeros, source, t) {
      var p := DrawnIsArranged(cc, skipZeros, source, t);
    }
    if p :| IsArrangement(cc, skipZeros, source, t, p) {
      ArrangedIsDrawn(cc, skipZeros, source, t, p);
    }
  }

  /** Of two characters the second may go first, unless it has class zero and these are skipped. */
  lemma TwoCharacters(cc: CodePoint -> nat, skipZeros: bool, a: CodePoint, b: CodePoint, t: Text)
    ensures IsDrawn(cc, skipZeros, [a, b], t) <==> t == [a, b] || (t == [b, a] && !(skipZeros && cc(b) == 0))
  {
    var s := [a, b];
    assert Removed(s, 0) == [b] && Removed(s, 1) == [a];
    assert StartsWith(cc, skipZeros, s, 0, t) <==> t == [a] + [b];
    assert StartsWith(cc, skipZeros, s, 1, t) <==> t == [b] + [a] && MayTake(cc, skipZeros, s, 1);
  }

  lemma RemovedMultiset(source: Text, i: nat)
    requires i < |source|
    ensures multiset(source) == multiset(Removed(source, i)) + multiset{source[i]}
    ensures multiset(Removed(source, i)) == multiset(source) - multiset{source[i]}
  {
    assert source == source[..i] + [source[i]] + source[i + 1..];
  }

  lemma {:induction false} DrawnIsPermutation(cc: CodePoint -> nat, source: Text, t: Text)
    requires IsDrawn(cc, false, source, t)
    ensures multiset(t) == multiset(source)
    decreases |source|
  {
    if |source| > 1 {
      assert StartsBelow(cc, false, source, |source|, t);
      var i :| 0 <= i < |source| && StartsWith(cc, false, source, i, t);
      DrawnIsPermutation(cc, Removed(source, i), t[1..]);
      RemovedMultiset(source, i);
      assert t == [t[0]] + t[1..];
    }
  }

  lemma {:induction false} PermutationIsDrawn(cc: CodePoint -> nat, source: Text, t: Text)
    requires multiset(t) == multiset(source)
    ensures IsDrawn(cc, false, source, t)
    decreases |source|
  {
    if source == [] {
      assert |t| == |multiset(t)| == 0;
    } else {
      var i := FirstOfPermutation(source, t);
      hide IsDrawn;
      PermutationIsDrawn(cc, Removed(source, i), t[1..]);
      StartIsDrawn(cc, false, source, i, t);
    }
  }

  lemma FirstOfPermutation(source: Text, t: Text) returns (i: nat)
    requires multiset(t) == multiset(source) && source != []
    ensures t != [] && i < |source| && source[i] == t[0] && multiset(Removed(source, i)) == multiset(t[1..])
  {
    assert |t| == |multiset(t)| == |source|;
    assert t[0] in multiset(t);
    i :| 0 <= i < |source| && source[i] == t[0];
    RemovedMultiset(source, i);
    RemovedMultiset(t, 0);
    assert Removed(t, 0) == t[1..];
  }

  lemma StartIsDrawn(cc: CodePoint -> nat, skipZeros: bool, source: Text, i: nat, t: Text)
    requires i < |source| && t != [] && MayTake(cc, skipZeros, source, i) && t[0] == source[i]
    requires IsDrawn(cc, skipZeros, Removed(source, i), t[1..])
    ensures IsDrawn(cc, skipZeros, source, t)
  {
    assert StartsWith(cc, skipZeros, source, i, t);
    if |source| == 1 {
      assert t == [t[0]] + t[1..];
    }
  }

  /** Without skipping, the results are exactly the permutations. */
  lemma PermuteIsPermutations(cc: CodePoint -> nat, source: Text, t: Text)
    ensures IsDrawn(cc, false, source, t) <==> multiset(t) == multiset(source)
  {
    if IsDrawn(cc, false, source, t) {
      DrawnIsPermutation(cc, source, t);
    }
    if multiset(t) == multiset(source) {
      PermutationIsDrawn(cc, source, t);
    }
  }

  // ---------- the odometer ----------

  /** How many index tuples there are. */
  function Size(lengths: seq<nat>): nat {
    if lengths == [] then 1 else lengths[0] * Size(lengths[1..])
  }

  ghost predicate InBounds(lengths: seq<nat>, c: seq<nat>) {
    |c| == |lengths| && forall i :: 0 <= i < |c| ==> c[i] < lengths[i]
  }

  /** How many tuples come before c in lexicographic order. */
  function Rank(lengths: seq<nat>, c: seq<nat>): nat
    requires |c| == |lengths|
  {
    if c == [] then 0 else c[0] * Size(lengths[1..]) + Rank(lengths[1..], c[1..])
  }

  predicate LexLess(a: seq<nat>, b: seq<nat>)
    requires |a| == |b|
  {
    a != [] && (a[0] < b[0] || (a[0] == b[0] && LexLess(a[1..], b[1..])))
  }

  lemma {:induction false} RankIsBelowSize(lengths: seq<nat>, c: seq<nat>)
    requires InBounds(lengths, c)
    ensures Rank(lengths, c) < Size(lengths)
  {
    if c != [] {
      var m := Size(lengths[1..]);
      RankIsBelowSize(lengths[1..], c[1..]);
      MulMonotone(c[0] + 1, lengths[0], m);
      OneMore(c[0], m);
    }
  }

  lemma OneMore(a: nat, m: nat)
    ensures (a + 1) * m == a * m + m
  {
  }

  /** Ranks follow lexicographic order, so different tuples have different ranks. */
  lemma {:induction false} RankFollowsOrder(lengths: seq<nat>, a: seq<nat>, b: seq<nat>)
    requires InBounds(lengths, a) && InBounds(lengths, b)
    ensures Rank(lengths, a) < Rank(lengths, b) <==> LexLess(a, b)
    ensures Rank(lengths, a) == Rank(lengths, b) <==> a == b
  {
    if a != [] {
      var rest, m := lengths[1..], Size(lengths[1..]);
      RankIsBelowSize(rest, a[1..]);
      RankIsBelowSize(rest, b[1..]);
      RankFollowsOrder(rest, a[1..], b[1..]);
      FirstDigitDecides(a[0], b[0], m, Rank(rest, a[1..]), Rank(rest, b[1..]));
      FirstDigitDecides(b[0], a[0], m, Rank(rest, b[1..]), Rank(rest, a[1..]));
      assert a == [a[0]] + a[1..] && b == [b[0]] + b[1..];
    }
  }

  lemma FirstDigitDecides(x: nat, y: nat, m: nat, rx: nat, ry: nat)
    requires rx < m && ry < m
    ensures x < y ==> x * m + rx < y * m + ry
  {
    if x < y {
      MulMonotone(x + 1, y, m);
      OneMore(x, m);
    }
  }

  /** The tuple with this rank. */
  function Unrank(lengths: seq<nat>, r: nat): (c: seq<nat>)
    ensures |c| == |lengths|
  {
    if lengths == [] then []
    else
      var m := Size(lengths[1..]);
      if m == 0 then seq(|lengths|, _ => 0) else [r / m] + Unrank(lengths[1..], r % m)
  }

  lemma {:induction false} UnrankIsInverse(lengths: seq<nat>, r: nat)
    requires r < Size(lengths)
    ensures InBounds(lengths, Unrank(lengths, r)) && Rank(lengths, Unrank(lengths, r)) == r
  {
    if lengths != [] {
      var m := Size(lengths[1..]);
      assert m != 0;
      QuotientIsSmall(r, lengths[0], m);
      UnrankIsInverse(lengths[1..], r % m);
      var c := Unrank(lengths, r);
      assert c[1..] == Unrank(lengths[1..], r % m);
    }
  }

  lemma QuotientIsSmall(r: nat, n: nat, m: nat)
    requires m > 0 && r < n * m
    ensures r / m < n && (r / m) * m + r % m == r
  {
    if r / m >= n {
      MulMonotone(n, r / m, m);
    }
  }

  /** Carrying: c is at its last value right of i, c' is zero there and one more at i. */
  lemma {:induction false} CarryAddsOne(lengths: seq<nat>, c: seq<nat>, c': seq<nat>, i: nat)
    requires InBounds(lengths, c) && |c'| == |c| && i < |c|
    requires c'[..i] == c[..i] && c'[i] == c[i] + 1
    requires forall k :: i < k < |c| ==> c[k] == lengths[k] - 1 && c'[k] == 0
    ensures Rank(lengths, c') == Rank(lengths, c) + 1
  {
    var rest, m := lengths[1..], Size(lengths[1..]);
    if i > 0 {
      assert c'[0] == c'[..i][0] == c[..i][0] == c[0];
      assert c'[1..][..i - 1] == c'[..i][1..] == c[..i][1..] == c[1..][..i - 1];
      CarryAddsOne(rest, c[1..], c'[1..], i - 1);
    } else {
      LastHasRankBelowSize(rest, c[1..]);
      ZeroHasRankZero(rest, c'[1..]);
      OneMore(c[0], m);
    }
  }

  lemma {:induction false} LastHasRankBelowSize(lengths: seq<nat>, c: seq<nat>)
    requires InBounds(lengths, c)
    requires forall k :: 0 <= k < |c| ==> c[k] == lengths[k] - 1
    ensures Rank(lengths, c) + 1 == Size(lengths)
  {
    if c != [] {
      LastHasRankBelowSize(lengths[1..], c[1..]);
      OneMore(c[0], Size(lengths[1..]));
    }
  }

  lemma {:induction false} ZeroHasRankZero(lengths: seq<nat>, c: seq<nat>)
    requires |c| == |lengths| && forall k :: 0 <= k < |c| ==> c[k] == 0
    ensures Rank(lengths, c) == 0
  {
    if c != [] {
      ZeroHasRankZero(lengths[1..], c[1..]);
    }
  }

  function Lengths(pieces: seq<seq<Text>>): (r: seq<nat>)
    ensures |r| == |pieces| && forall i :: 0 <= i < |r| ==> r[i] == |pieces[i]|
  {
    seq(|pieces|, i requires 0 <= i < |pieces| => |pieces[i]|)
  }

  /** The chosen pieces, one after the other. */
  function Joined(pieces: seq<seq<Text>>, c: seq<nat>): Text
    requires |c| == |pieces| && forall i :: 0 <= i < |c| ==> c[i] < |pieces[i]|
  {
    if c == [] then [] else pieces[0][c[0]] + Joined(pieces[1..], c[1..])
  }

  /** Every piece stands after those before it and before those after it. */
  lemma {:induction false} JoinedInOrder(pieces: seq<seq<Text>>, c: seq<nat>, i: nat)
    requires |c| == |pieces| && (forall k :: 0 <= k < |c| ==> c[k] < |pieces[k]|) && i < |c|
    ensures Joined(pieces, c) == Joined(pieces[..i], c[..i]) + (pieces[i][c[i]] + Joined(pieces[i + 1..], c[i + 1..]))
    decreases i
  {
    if i == 0 {
      assert Joined(pieces[..0], c[..0]) == [];
    } else {
      JoinedInOrder(pieces[1..], c[1..], i - 1);
      assert pieces[1..][..i - 1] == pieces[..i][1..] && c[1..][..i - 1] == c[..i][1..];
      assert pieces[1..][i..] == pieces[i + 1..] && c[1..][i..] == c[i + 1..];
    }
  }

  lemma JoinedSnoc(pieces: seq<seq<Text>>, c: seq<nat>, n: nat)
    requires |c| == |pieces| && (forall i :: 0 <= i < |c| ==> c[i] < |pieces[i]|) && n < |c|
    ensures Joined(pieces[..n + 1], c[..n + 1]) == Joined(pieces[..n], c[..n]) + pieces[n][c[n]]
  {
    JoinedInOrder(pieces[..n + 1], c[..n + 1], n);
    assert pieces[..n + 1][..n] == pieces[..n] && c[..n + 1][..n] == c[..n];
    assert pieces[n][c[n]] + [] == pieces[n][c[n]];
  }

  class CanonicalIterator {
    const pieces: seq<seq<Text>>
    const current: array<nat>
    var done: bool
    var buffer: Text

    ghost predicate Valid()
      reads this, current
    {
      && current.Length == |pieces|
      && InBounds(Lengths(pieces), current[..])
    }

    /** How many strings have been returned since the last reset. */
    ghost function Position(): nat
      requires Valid()
      reads this, current
    {
      if done then Size(Lengths(pieces)) else Rank(Lengths(pieces), current[..])
    }

    /** No piece list is empty: each holds at least its own segment. */
    constructor (pieceLists: seq<seq<Text>>)
      requires forall i :: 0 <= i < |pieceLists| ==> pieceLists[i] != []
      ensures pieces == pieceLists && Valid() && Position() == 0 && !done && fresh(current)
    {
      pieces := pieceLists;
      current := new nat[|pieceLists|](_ => 0);
      done := false;
      buffer := [];
      new;
      ZeroHasRankZero(Lengths(pieces), current[..]);
    }

    method Reset()
      requires Valid()
      modifies this`done, current
      ensures Valid() && Position() == 0 && !done
    {
      done := false;
      for i := 0 to current.Length
        invariant !done && forall k :: 0 <= k < i ==> current[k] == 0
        invariant forall k :: i <= k < current.Length ==> current[k] == old(current[k])
      {
        current[i] := 0;
      }
      ZeroHasRankZero(Lengths(pieces), current[..]);
    }

    /** Returns the string for the current tuple and moves on to the next one; None stands for the bogus string. */
    method Next() returns (r: Option<Text>)
      requires Valid()
      modifies this, current
      ensures Valid()
      ensures old(done) ==> r == None && done
      ensures !old(done) ==>
        && r == Some(Joined(pieces, old(current[..])))
        && Position() == old(Position()) + 1
      ensures done <==> Position() == Size(Lengths(pieces))
    {
      if done {
        return None;
      }
      ghost var lengths := Lengths(pieces);
      ghost var c := current[..];
      buffer := [];
      for i := 0 to |pieces|
        invariant current[..] == c && !done
        invariant buffer == Joined(pieces[..i], c[..i])
      {
        JoinedSnoc(pieces, c, i);
        buffer := buffer + pieces[i][current[i]];
      }
      assert pieces[..|pieces|] == pieces && c[..|pieces|] == c;
      r := Some(buffer);
      Advance();
    }

    /** Counts up, from the right, with carry. */
    method Advance()
      requires Valid() && !done
      modifies this`done, current
      ensures Valid() && Position() == old(Position()) + 1
      ensures done <==> Position() == Size(Lengths(pieces))
    {
      ghost var lengths := Lengths(pieces);
      ghost var c := current[..];
      RankIsBelowSize(lengths, c);
      var i := current.Length - 1;
      while true
        invariant -1 <= i < current.Length && !done
        invariant forall k :: 0 <= k <= i ==> current[k] == c[k]
        invariant forall k :: i < k < current.Length ==> current[k] == 0 && c[k] == lengths[k] - 1
        decreases i
      {
        if i < 0 {
          done := true;
          LastHasRankBelowSize(lengths, c);
          break;
        }
        current[i] := current[i] + 1;
        if current[i] < |pieces[i]| {
          CarryAddsOne(lengths, c, current[..], i);
          RankIsBelowSize(lengths, current[..]);
          break;
        }
        current[i] := 0;
        i := i - 1;
      }
    }
  }

  /** all holds the string of each of the first tuples, at the tuple's rank. */
  ghost predicate ListsFirst(pieces: seq<seq<Text>>, all: seq<Text>) {
    forall c :: InBounds(Lengths(pieces), c) && Rank(Lengths(pieces), c) < |all| ==>
      all[Rank(Lengths(pieces), c)] == Joined(pieces, c)
  }

  lemma ListsNext(pieces: seq<seq<Text>>, all: seq<Text>, c: seq<nat>)
    requires ListsFirst(pieces, all) && InBounds(Lengths(pieces), c) && Rank(Lengths(pieces), c) == |all|
    ensures ListsFirst(pieces, all + [Joined(pieces, c)])
  {
    hide Rank, Joined;
    forall d | InBounds(Lengths(pieces), d) && Rank(Lengths(pieces), d) == |all| ensures d == c {
      RankFollowsOrder(Lengths(pieces), c, d);
    }
  }

  /** Of two pieces the index of the second one counts faster, and its string comes second. */
  lemma TwoPieces(first: seq<Text>, second: seq<Text>, all: seq<Text>, i: nat, j: nat)
    requires |all| == Size(Lengths([first, second])) && ListsFirst([first, second], all) && i < |first| && j < |second|
    ensures |all| == |first| * |second| && i * |second| + j < |all| && all[i * |second| + j] == first[i] + second[j]
  {
    var pieces, c := [first, second], [i, j];
    var lengths := Lengths(pieces);
    assert lengths == [|first|, |second|] && lengths[1..] == [|second|] && [|second|][1..] == [];
    assert Size([]) == 1 && Size([|second|]) == |second|;
    assert c[1..] == [j] && [j][1..] == [];
    assert Rank([], []) == 0 && Rank([|second|], [j]) == j;
    assert Rank(lengths, c) == i * |second| + j;
    RankIsBelowSize(lengths, c);
    assert pieces[1..] == [second] && [second][1..] == [];
    assert Joined([], []) == [];
    assert Joined([second], [j]) == second[j] + Joined([], []) && second[j] + [] == second[j];
  }

  /** From a reset on, next() gives one string for each index tuple, in lexicographic order, and then none. */
  method AllStrings(it: CanonicalIterator) returns (all: seq<Text>)
    requires it.Valid()
    modifies it, it.current
    ensures |all| == Size(Lengths(it.pieces)) && ListsFirst(it.pieces, all)
    ensures it.Valid() && it.done
  {
    hide Rank, Size, Joined, InBounds, ListsFirst;
    it.Reset();
    RankIsBelowSize(Lengths(it.pieces), it.current[..]);
    all := [];
    NothingListed(it.pieces);
    var more := true;
    while more
      invariant it.Valid() && |all| == it.Position() <= Size(Lengths(it.pieces)) && (!more ==> it.done)
      invariant it.done <==> it.Position() == Size(Lengths(it.pieces))
      invariant ListsFirst(it.pieces, all)
      decreases Size(Lengths(it.pieces)) - it.Position(), more
    {
      ghost var c := it.current[..];
      if !it.done {
        ListsNext(it.pieces, all, c);
      }
      var r := it.Next();
      match r
      case None => more := false;
      case Some(text) =>
        all := all + [text];
        if !it.done {
          RankIsBelowSize(Lengths(it.pieces), it.current[..]);
        }
    }
  }

  lemma NothingListed(pieces: seq<seq<Text>>)
    ensures ListsFirst(pieces, [])
  {
  }
}
