/** The numbers of a serialized trie apart from their reader and writer: order, place values and lengths. */
module TrieNumbers {
  import opened Basics
  import opened TrieFormat
  import opened Tries
  import opened TrieEncoding

  // ---------- big-endian numbers ----------

  /** What bytes stand for, the first one highest. */
  function BigEndian(s: seq<Byte>): nat {
    if s == [] then 0 else BigEndian(s[..|s| - 1]) * 0x100 + s[|s| - 1]
  }

  lemma BigEndianOf(s: seq<Byte>)
    requires |s| <= 4
    ensures |s| == 1 ==> BigEndian(s) == s[0]
    ensures |s| == 2 ==> BigEndian(s) == s[0] as int * 0x100 + s[1]
    ensures |s| == 3 ==> BigEndian(s) == s[0] as int * 0x10000 + s[1] as int * 0x100 + s[2]
    ensures |s| == 4 ==> BigEndian(s) == s[0] as int * 0x100_0000 + s[1] as int * 0x10000 + s[2] as int * 0x100 + s[3]
  {
    if |s| >= 1 {
      var t := s[..|s| - 1];
      if |t| >= 1 {
        var u := t[..|t| - 1];
        if |u| >= 1 {
          var v := u[..|u| - 1];
          if |v| >= 1 { assert v[..0] == []; }
          assert BigEndian(u) == BigEndian(v) * 0x100 + u[|u| - 1];
        }
        assert BigEndian(t) == BigEndian(u) * 0x100 + t[|t| - 1];
      }
      assert BigEndian(s) == BigEndian(t) * 0x100 + s[|s| - 1];
    }
  }

  function Power(k: nat): nat {
    if k == 0 then 1 else 0x100 * Power(k - 1)
  }

  /** One more in the byte that is k places before the end is 0x100 to the k more. */
  lemma {:induction false} BigEndianPlace(s: seq<Byte>, k: nat)
    requires k < |s| && s[|s| - 1 - k] < 0xFF
    ensures BigEndian(s[|s| - 1 - k := s[|s| - 1 - k] + 1]) == BigEndian(s) + Power(k)
    decreases k
  {
    var n := |s| - 1;
    var s' := s[n - k := s[n - k] + 1];
    if k == 0 {
      assert s'[..n] == s[..n];
    } else {
      assert s'[..n] == s[..n][n - k := s[n - k] + 1];
      BigEndianPlace(s[..n], k - 1);
    }
  }

  /** Byte strings of one length are ordered like the numbers they stand for. */
  lemma {:induction false} LessIsSmaller(a: seq<Byte>, b: seq<Byte>)
    requires |a| == |b| && BigEndian(a) < BigEndian(b)
    ensures Less(a, b)
    decreases |a|
  {
    hide Less;
    var n := |a| - 1;
    var x, y := a[..n], b[..n];
    assert a == x + [a[n]] && b == y + [b[n]];
    if BigEndian(x) < BigEndian(y) {
      LessIsSmaller(x, y);
      LessExtends(x, y, [a[n]], [b[n]]);
    } else {
      BigEndianIsInjective(x, y);
      LessPrefixed(x, [a[n]], [b[n]]);
      LessByFirst([a[n]], [b[n]]);
    }
  }

  lemma {:induction false} BigEndianIsInjective(a: seq<Byte>, b: seq<Byte>)
    requires |a| == |b| && BigEndian(a) == BigEndian(b)
    ensures a == b
    decreases |a|
  {
    if a != [] {
      var n := |a| - 1;
      BigEndianIsInjective(a[..n], b[..n]);
      assert a == a[..n] + [a[n]] && b == b[..n] + [b[n]];
    }
  }

  lemma {:induction false} LessExtends(a: seq<Byte>, b: seq<Byte>, x: seq<Byte>, y: seq<Byte>)
    requires |a| == |b| && Less(a, b)
    ensures Less(a + x, b + y)
    decreases |a|
  {
    assert (a + x)[0] == a[0] && (b + y)[0] == b[0];
    if a[0] == b[0] {
      LessExtends(a[1..], b[1..], x, y);
      assert (a + x)[1..] == a[1..] + x && (b + y)[1..] == b[1..] + y;
    }
  }

  lemma LessByFirst(a: seq<Byte>, b: seq<Byte>)
    requires a != [] && b != []
    ensures a[0] < b[0] ==> Less(a, b)
    ensures a[0] == b[0] ==> Less(a, b) == Less(a[1..], b[1..])
  {
  }

  lemma LessIsAsymmetric(a: seq<Byte>, b: seq<Byte>)
    ensures !(Less(a, b) && Less(b, a))
  {
  }

  // ---------- values ----------

  /** A value's bytes: how many follow the lead, which is the first lead of that length, and the number they make. */
  lemma ValueIsBigEndian(b: seq<Byte>, pos: nat)
    requires IsValueLead(b, pos)
    ensures var lead, tail := b[pos] / 2, b[pos + 1..AfterValue(b, pos)];
            var (first, n) := if lead <= 0x50 then (0x10, 0) else if lead <= 0x6B then (0x51, 1)
                              else if lead <= 0x7D then (0x6C, 2) else if lead == 0x7E then (0x7E, 3) else (0x7F, 4);
            && first <= lead && |tail| == n
            && ValueOf(b, pos) == Wrap32((lead - first) * Power(n) + BigEndian(tail))
  {
    hide Wrap32, BigEndian, ToSigned;
    var tail := b[pos + 1..AfterValue(b, pos)];
    BigEndianOf(tail);
    NoDigits();
    Powers();
    if |tail| == 4 {
      SignedIsWrapped(BigEndian(tail));
    } else if |tail| == 3 {
      assert BigEndian(tail) < 0x100_0000;
    } else if |tail| == 2 {
      assert (b[pos] / 2 - 0x6C) * 0x10000 + BigEndian(tail) < 0x100_0000;
    }
  }

  lemma Powers()
    ensures Power(0) == 1 && Power(1) == 0x100 && Power(2) == 0x10000 && Power(3) == 0x100_0000
  {
    assert Power(1) == 0x100 && Power(2) == 0x10000;
  }

  lemma SignedIsWrapped(u: nat)
    requires u < 0x1_0000_0000
    ensures ToSigned(u) == Wrap32(u)
  {
  }

  /** One more in the byte that is k places before a value's end is 0x100 to the k more, in 32 bits. */
  lemma ValuePlace(b: seq<Byte>, pos: nat, k: nat)
    requires IsValueLead(b, pos) && k < SkipValue(b[pos]) && b[pos + SkipValue(b[pos]) - k] < 0xFF
    ensures var at := pos + SkipValue(b[pos]) - k;
            var b' := b[at := b[at] + 1];
            IsValueLead(b', pos) && ValueOf(b', pos) == Wrap32(ValueOf(b, pos) + [1, 0x100, 0x10000, 0x100_0000][k])
  {
    hide ValueOf, BigEndian;
    var n := SkipValue(b[pos]);
    var at := pos + n - k;
    var b' := b[at := b[at] + 1];
    var tail := b[pos + 1..pos + 1 + n];
    BigEndianPlace(tail, k);
    assert b'[pos + 1..pos + 1 + n] == tail[n - 1 - k := tail[n - 1 - k] + 1];
    ValueIsBigEndian(b, pos);
    ValueIsBigEndian(b', pos);
    Powers();
    assert [1, 0x100, 0x10000, 0x100_0000][k] == Power(k);
    WrapAdds((b[pos] / 2 - (if n == 0 then 0x10 else if n == 1 then 0x51 else if n == 2 then 0x6C else if n == 3 then 0x7E else 0x7F)) * Power(n) + BigEndian(tail), Power(k));
  }

  lemma WrapAdds(v: int, d: int)
    ensures Wrap32(Wrap32(v) + d) == Wrap32(v + d)
  {
    var q := (v + 0x8000_0000) / 0x1_0000_0000;
    assert Wrap32(v) == v - q * 0x1_0000_0000;
    assert (v + d + 0x8000_0000 - q * 0x1_0000_0000) % 0x1_0000_0000 == (v + d + 0x8000_0000) % 0x1_0000_0000;
  }

  /** Which values take how many bytes, and where each length begins. */
  lemma ValueLengths(i: int, isFinal: bool)
    requires IsInt32(i)
    ensures |EncodeValue(i, isFinal)| ==
            if 0 <= i <= 0x40 then 1 else if 0 <= i <= 0x1AFF then 2 else if 0 <= i <= 0x11FFFF then 3
            else if 0 <= i <= 0xFFFFFF then 4 else 5
    ensures EncodeValue(i, isFinal)[0] % 2 == (if isFinal then 1 else 0)
    ensures EncodeValue(0, false) == [0x20] && EncodeValue(0x40, false) == [0xA0]
    ensures EncodeValue(0x41, false) == [0xA2, 0x41] && EncodeValue(0x1AFF, false) == [0xD6, 0xFF]
    ensures EncodeValue(0x1B00, false) == [0xD8, 0x1B, 0x00] && EncodeValue(0x11FFFF, false) == [0xFA, 0xFF, 0xFF]
    ensures EncodeValue(0x120000, false) == [0xFC, 0x12, 0x00, 0x00] && EncodeValue(-1, false) == [0xFE, 0xFF, 0xFF, 0xFF, 0xFF]
  {
  }

  /** The order of the encodings is the order of the values, with the negative ones after all others. */
  lemma ValuesInOrder(i: int, j: int, isFinal: bool)
    requires IsInt32(i) && IsInt32(j)
    ensures Less(EncodeValue(i, isFinal), EncodeValue(j, isFinal)) <==> 0 <= i < j || i < j < 0 || j < 0 <= i
  {
    hide Less, EncodeValue;
    if 0 <= i < j || i < j < 0 || j < 0 <= i {
      ValuesAscend(i, j, isFinal);
      LessIsAsymmetric(EncodeValue(i, isFinal), EncodeValue(j, isFinal));
    } else if i != j {
      ValuesAscend(j, i, isFinal);
      LessIsAsymmetric(EncodeValue(j, isFinal), EncodeValue(i, isFinal));
    } else {
      LessIsAsymmetric(EncodeValue(i, isFinal), EncodeValue(i, isFinal));
    }
  }

  lemma ValuesAscend(i: int, j: int, isFinal: bool)
    requires IsInt32(i) && IsInt32(j) && (0 <= i < j || i < j < 0 || j < 0 <= i)
    ensures Less(EncodeValue(i, isFinal), EncodeValue(j, isFinal))
  {
    hide Less, ValueTail, BigEndian, Wrap32, ValueOf;
    var a, b := EncodeValue(i, isFinal), EncodeValue(j, isFinal);
    LessByFirst(a, b);
    LeadsAscend(i, j);
    if a[0] == b[0] {
      WrittenTail(i, isFinal);
      WrittenTail(j, isFinal);
      LessIsSmaller(a[1..], b[1..]);
    }
  }

  lemma LeadsAscend(i: int, j: int)
    requires IsInt32(i) && IsInt32(j) && (0 <= i < j || i < j < 0 || j < 0 <= i)
    ensures ValueLead(i) <= ValueLead(j)
  {
  }

  /** What the bytes after the lead make: the value, without what the lead says of it. */
  lemma WrittenTail(i: int, isFinal: bool)
    requires IsInt32(i)
    ensures var (lead, n) := (ValueLead(i), SkipValue(2 * ValueLead(i)));
            && |EncodeValue(i, isFinal)| == n + 1
            && BigEndian(EncodeValue(i, isFinal)[1..]) ==
               (if i < 0 then i + 0x1_0000_0000 else i) - (if n == 1 then (lead - 0x51) * 0x100 else if n == 2 then (lead - 0x6C) * 0x10000 else if n == 0 then i else 0)
  {
    hide Wrap32, ValueOf, BigEndian;
    var e := EncodeValue(i, isFinal);
    ValueRoundTrip(i, isFinal, []);
    assert e + [] == e && e[1..|e|] == e[1..];
    ValueIsBigEndian(e, 0);
    BigEndianOf(e[1..]);
    NoDigits();
    Powers();
    if |e| == 5 {
      WrapIsSigned(BigEndian(e[1..]));
    } else {
      SmallIsNotWrapped(e);
    }
  }

  lemma NoDigits()
    ensures BigEndian([]) == 0
  {
  }

  lemma WrapIsSigned(u: nat)
    requires u < 0x1_0000_0000
    ensures Wrap32(u) == if u < 0x8000_0000 then u else u - 0x1_0000_0000
  {
  }

  lemma SmallIsNotWrapped(e: seq<Byte>)
    ensures forall v :: 0 <= v < 0x8000_0000 ==> Wrap32(v) == v
  {
  }

  /** A value from the serialized property names: UCHAR_UPPERCASE_MAPPING. */
  lemma UppercaseMapping()
    ensures var b := [0xD9, 0x40, 0x0C]; IsValueLead(b, 0) && IsFinal(b, 0) && ValueOf(b, 0) == 0x400C && AfterValue(b, 0) == 3
    ensures EncodeValue(0x400C, true) == [0xD9, 0x40, 0x0C]
  {
  }

  // ---------- deltas ----------

  /** A delta's bytes in the same way. */
  lemma DeltaIsBigEndian(b: seq<Byte>, pos: nat)
    requires IsDelta(b, pos)
    ensures var lead, tail := b[pos], b[pos + 1..AfterDelta(b, pos)];
            var (first, n) := if lead <= 0xBF then (0, 0) else if lead <= 0xEF then (0xC0, 1)
                              else if lead <= 0xFD then (0xF0, 2) else if lead == 0xFE then (0xFE, 3) else (0xFF, 4);
            && first <= lead && |tail| == n
            && ReadDelta(b, pos) == Wrap32((lead - first) * Power(n) + BigEndian(tail))
  {
    hide Wrap32, BigEndian, ToSigned;
    var tail := b[pos + 1..AfterDelta(b, pos)];
    BigEndianOf(tail);
    NoDigits();
    Powers();
    if |tail| == 4 {
      SignedIsWrapped(BigEndian(tail));
    } else if |tail| == 3 {
      assert BigEndian(tail) < 0x100_0000;
    } else if |tail| == 2 {
      assert (b[pos] as int - 0xF0) * 0x10000 + BigEndian(tail) < 0x100_0000;
    }
  }

  lemma DeltaPlace(b: seq<Byte>, pos: nat, k: nat)
    requires IsDelta(b, pos) && k < SkipDelta(b[pos]) && b[pos + SkipDelta(b[pos]) - k] < 0xFF
    ensures var at := pos + SkipDelta(b[pos]) - k;
            var b' := b[at := b[at] + 1];
            IsDelta(b', pos) && ReadDelta(b', pos) == Wrap32(ReadDelta(b, pos) + [1, 0x100, 0x10000, 0x100_0000][k])
  {
    hide ReadDelta, BigEndian;
    var n := SkipDelta(b[pos]);
    var at := pos + n - k;
    var b' := b[at := b[at] + 1];
    var tail := b[pos + 1..pos + 1 + n];
    BigEndianPlace(tail, k);
    assert b'[pos + 1..pos + 1 + n] == tail[n - 1 - k := tail[n - 1 - k] + 1];
    DeltaIsBigEndian(b, pos);
    DeltaIsBigEndian(b', pos);
    Powers();
    assert [1, 0x100, 0x10000, 0x100_0000][k] == Power(k);
    WrapAdds((b[pos] as int - (if n == 0 then 0 else if n == 1 then 0xC0 else if n == 2 then 0xF0 else if n == 3 then 0xFE else 0xFF)) * Power(n) + BigEndian(tail), Power(k));
  }

  lemma DeltaLengths(i: int, g2: Byte, g3: Byte)
    requires 0 <= i <= 0xDFFFF
    ensures |EncodeDelta(i, g2, g3)| == if i <= 0xBF then 1 else if i <= 0x2FFF then 2 else 3
    ensures EncodeDelta(0, g2, g3) == [0] && EncodeDelta(0xBF, g2, g3) == [0xBF]
    ensures EncodeDelta(0xC0, g2, g3) == [0xC0, 0xC0] && EncodeDelta(0x2FFF, g2, g3) == [0xEF, 0xFF]
    ensures EncodeDelta(0x3000, g2, g3) == [0xF0, 0x30, 0x00] && EncodeDelta(0xDFFFF, g2, g3) == [0xFD, 0xFF, 0xFF]
  {
  }

  /** The order of the encodings is the order of the deltas. */
  lemma DeltasInOrder(i: int, j: int, g2: Byte, g3: Byte)
    requires 0 <= i <= 0xDFFFF && 0 <= j <= 0xDFFFF
    ensures Less(EncodeDelta(i, g2, g3), EncodeDelta(j, g2, g3)) <==> i < j
  {
    hide Less, EncodeDelta;
    if i < j {
      DeltasAscend(i, j, g2, g3);
    } else if j < i {
      DeltasAscend(j, i, g2, g3);
    }
    LessIsAsymmetric(EncodeDelta(j, g2, g3), EncodeDelta(i, g2, g3));
  }

  lemma DeltasAscend(i: int, j: int, g2: Byte, g3: Byte)
    requires 0 <= i < j <= 0xDFFFF
    ensures Less(EncodeDelta(i, g2, g3), EncodeDelta(j, g2, g3))
  {
    hide Less, BigEndian;
    var a, b := EncodeDelta(i, g2, g3), EncodeDelta(j, g2, g3);
    LessByFirst(a, b);
    if a[0] == b[0] {
      WrittenDelta(i, g2, g3);
      WrittenDelta(j, g2, g3);
      LessIsSmaller(a[1..], b[1..]);
    }
  }

  lemma WrittenDelta(i: int, g2: Byte, g3: Byte)
    requires 0 <= i <= 0xDFFFF
    ensures var e := EncodeDelta(i, g2, g3);
            BigEndian(e[1..]) == if |e| == 1 then 0 else if |e| == 2 then i - (e[0] as int - 0xC0) * 0x100 else i - (e[0] as int - 0xF0) * 0x10000
  {
    hide BigEndian;
    var e := EncodeDelta(i, g2, g3);
    BigEndianOf(e[1..]);
    NoDigits();
    assert i / 0x100 / 0x100 == i / 0x10000;
  }

  /** A jump from the serialized property names. */
  lemma FirstPropertyJump()
    ensures var b := [0xC3, 0x23]; IsDelta(b, 0) && ReadDelta(b, 0) == 0x323 && AfterDelta(b, 0) == 2
  {
  }

  // ---------- a serialized trie ----------

  function Leaf(value: int): Trie {
    Trie(Some(value), End)
  }

  /** The script names after "han", as serialized with the property names. */
  const HAN_BYTES: seq<Byte> := [
    0x42, 0x06, 0x6F, 0x0E, 0x6F, 0x77, 0x73, 0xA3, 0x49, 0x74, 0xA3, 0x4A, 0x75, 0x12, 0x6E, 0x6F, 0x6F, 0x77,
    0x62, 0xA3, 0xAC, 0x67, 0x24, 0x69, 0x43, 0x44, 0x11, 0x75, 0x6C, 0x45]

  const HAN_LOW: seq<Edge> := [
    Edge(0x62, Leaf(172)),
    Edge(0x67, Trie(Some(18), Linear([0x75, 0x6C], Leaf(18)))),
    Edge(0x69, Leaf(17))]

  const HAN_HIGH: seq<Edge> := [
    Edge(0x6F, Leaf(43)), Edge(0x73, Leaf(73)), Edge(0x74, Leaf(74)),
    Edge(0x75, Trie(None, Linear([0x6E, 0x6F, 0x6F], Leaf(43))))]

  const HAN_TRIE: Trie := Trie(Some(17), Branch(HAN_LOW + HAN_HIGH))

  const HAN_LOW_ENTRIES: seq<Entry> := [
    Entry([0x62], 172), Entry([0x67], 18), Entry([0x67, 0x75, 0x6C], 18), Entry([0x69], 17)]   // b, g, gul, i

  const HAN_HIGH_ENTRIES: seq<Entry> := [
    Entry([0x6F], 43), Entry([0x73], 73), Entry([0x74], 74), Entry([0x75, 0x6E, 0x6F, 0x6F], 43)]   // o, s, t, unoo

  /** They are a trie of the names and their UScriptCode values. */
  lemma HanScripts()
    ensures EncodesNode(HAN_BYTES, 0, HAN_TRIE) && Ordered(HAN_TRIE)
    ensures Entries(HAN_TRIE) == [Entry([], 17)] + (HAN_LOW_ENTRIES + HAN_HIGH_ENTRIES)
  {
    hide EncodesBranch, EdgeEntries, OrderedEdges, HAN_LOW, HAN_HIGH;
    HanSizes();
    HanBranch();
    HanLowEntries();
    HanHighEntries();
    EdgeEntriesJoin(HAN_LOW, HAN_HIGH);
    HanOrdered();
  }

  lemma HanSizes()
    ensures |HAN_LOW| == 3 && |HAN_HIGH| == 4
  {
  }

  lemma HanBranch()
    ensures EncodesBranch(HAN_BYTES, 2, HAN_LOW + HAN_HIGH)
  {
    hide EncodesList;
    HanLow();
    HanHigh();
    var edges := HAN_LOW + HAN_HIGH;
    assert edges[..3] == HAN_LOW && edges[3..] == HAN_HIGH;
  }

  lemma HanOrdered()
    ensures OrderedEdges(HAN_LOW + HAN_HIGH)
  {
  }

  lemma {:induction false} EdgeEntriesJoin(a: seq<Edge>, b: seq<Edge>)
    ensures EdgeEntries(a + b) == EdgeEntries(a) + EdgeEntries(b)
  {
    if a == [] {
      assert a + b == b;
    } else {
      assert (a + b)[1..] == a[1..] + b;
      EdgeEntriesJoin(a[1..], b);
    }
  }

  lemma LeafIs(b: seq<Byte>, pos: nat, value: int)
    requires IsValueLead(b, pos) && IsFinal(b, pos) && ValueOf(b, pos) == value
    ensures EncodesNode(b, pos, Leaf(value))
  {
  }

  lemma LinearIs(b: seq<Byte>, at: nat, units: seq<Byte>, leaf: int)
    requires 1 <= |units| <= 16 && at < |b| && b[at] == 0x10 + |units| - 1 && HoldsUnits(b, at + 1, units)
    requires EncodesNode(b, at + 1 + |units|, Leaf(leaf))
    ensures EncodesNode(b, at, Trie(None, Linear(units, Leaf(leaf))))
  {
    hide HoldsUnits;
    assert EncodesNext(b, at, Linear(units, Leaf(leaf)));
  }

  lemma ValueThenLinearIs(b: seq<Byte>, pos: nat, value: int, units: seq<Byte>, leaf: int)
    requires IsValueLead(b, pos) && !IsFinal(b, pos) && ValueOf(b, pos) == value
    requires EncodesNode(b, AfterValue(b, pos), Trie(None, Linear(units, Leaf(leaf))))
    ensures EncodesNode(b, pos, Trie(Some(value), Linear(units, Leaf(leaf))))
  {
    hide EncodesNext, ValueOf;
  }

  /** A list of one more edge, with a final value or a jump. */
  lemma ListIs(b: seq<Byte>, pos: nat, e: Edge, rest: seq<Edge>)
    requires rest != [] && pos < |b| && b[pos] == e.unit && IsValueLead(b, pos + 1)
    requires if IsFinal(b, pos + 1) then e.child == Leaf(ValueOf(b, pos + 1))
             else EncodesNode(b, AfterValue(b, pos + 1) + ValueOf(b, pos + 1), e.child)
    requires EncodesList(b, AfterValue(b, pos + 1), rest)
    ensures EncodesList(b, pos, [e] + rest)
  {
    hide EncodesNode;
    assert ([e] + rest)[1..] == rest && ([e] + rest)[0] == e;
    if !IsFinal(b, pos + 1) {
      assert EncodesChild(b, AfterValue(b, pos + 1) + ValueOf(b, pos + 1), e);
    }
  }

  lemma LastIs(b: seq<Byte>, pos: nat, e: Edge)
    requires pos < |b| && b[pos] == e.unit && EncodesNode(b, pos + 1, e.child)
    ensures EncodesList(b, pos, [e])
  {
    hide EncodesNode;
    assert EncodesChild(b, pos + 1, e);
  }

  lemma HanLow()
    ensures EncodesBranch(HAN_BYTES, 18, HAN_LOW)
  {
    hide EncodesNode, EncodesList;
    var b, e := HAN_BYTES, HAN_LOW;
    LeafIs(b, 29, 18);
    LinearIs(b, 26, [0x75, 0x6C], 18);
    ValueThenLinearIs(b, 25, 18, [0x75, 0x6C], 18);
    LeafIs(b, 24, 17);
    LastIs(b, 23, e[2]);
    ListIs(b, 21, e[1], [e[2]]);
    ListIs(b, 18, e[0], [e[1]] + [e[2]]);
    assert e == [e[0]] + ([e[1]] + [e[2]]);
  }

  lemma HanUnoo()
    ensures EncodesList(HAN_BYTES, 12, [HAN_HIGH[3]])
  {
    hide EncodesNode, EncodesList;
    var b, e := HAN_BYTES, HAN_HIGH;
    LeafIs(b, 17, 43);
    LinearIs(b, 13, [0x6E, 0x6F, 0x6F], 43);
    LastIs(b, 12, e[3]);
  }

  lemma HanHans()
    ensures EncodesList(HAN_BYTES, 6, [HAN_HIGH[1]] + ([HAN_HIGH[2]] + [HAN_HIGH[3]]))
  {
    hide EncodesNode, EncodesList;
    var b, e := HAN_BYTES, HAN_HIGH;
    HanUnoo();
    ListIs(b, 9, e[2], [e[3]]);
    ListIs(b, 6, e[1], [e[2]] + [e[3]]);
  }

  lemma HanHigh()
    ensures EncodesBranch(HAN_BYTES, 4, HAN_HIGH)
  {
    hide EncodesNode, EncodesList;
    var b, e := HAN_BYTES, HAN_HIGH;
    HanHans();
    ListIs(b, 4, e[0], [e[1]] + ([e[2]] + [e[3]]));
    assert e == [e[0]] + ([e[1]] + ([e[2]] + [e[3]]));
  }

  lemma LeafEntries(unit: Byte, value: int)
    ensures EntriesOf(Edge(unit, Leaf(value))) == [Entry([unit], value)]
  {
    assert Entries(Leaf(value)) == [Entry([], value)];
    assert [unit] + [] == [unit];
  }

  lemma LinearLeafEntries(unit: Byte, value: Option<int>, units: seq<Byte>, leaf: int)
    ensures EntriesOf(Edge(unit, Trie(value, Linear(units, Leaf(leaf))))) ==
            (if value.Some? then [Entry([unit], value.value)] else []) + [Entry([unit] + units, leaf)]
  {
    var next := Linear(units, Leaf(leaf));
    assert Entries(Leaf(leaf)) == [Entry([], leaf)];
    assert units + [] == units && [unit] + [] == [unit];
    assert NextEntries(next) == [Entry(units, leaf)];
    var here := if value.Some? then [Entry([], value.value)] else [];
    assert Entries(Trie(value, next)) == here + [Entry(units, leaf)];
    assert Prefixed([unit], here + [Entry(units, leaf)]) ==
           (if value.Some? then [Entry([unit], value.value)] else []) + [Entry([unit] + units, leaf)];
  }

  lemma FirstEntries(e: Edge, rest: seq<Edge>)
    ensures EdgeEntries([e] + rest) == EntriesOf(e) + EdgeEntries(rest) && EdgeEntries([]) == []
  {
    assert ([e] + rest)[1..] == rest;
  }

  lemma HanLowEntries()
    ensures EdgeEntries(HAN_LOW) == HAN_LOW_ENTRIES
  {
    hide EdgeEntries, EntriesOf;
    var e := HAN_LOW;
    LeafEntries(0x62, 172);
    LinearLeafEntries(0x67, Some(18), [0x75, 0x6C], 18);
    assert [0x67] + [0x75, 0x6C] == [0x67, 0x75, 0x6C];
    LeafEntries(0x69, 17);
    FirstEntries(e[2], []);
    FirstEntries(e[1], [e[2]]);
    FirstEntries(e[0], [e[1]] + [e[2]]);
    assert e == [e[0]] + ([e[1]] + [e[2]]) && [e[2]] + [] == [e[2]];
  }

  lemma HanHighEntries()
    ensures EdgeEntries(HAN_HIGH) == HAN_HIGH_ENTRIES
  {
    hide EdgeEntries, EntriesOf;
    var e := HAN_HIGH;
    LeafEntries(0x6F, 43);
    LeafEntries(0x73, 73);
    LeafEntries(0x74, 74);
    LinearLeafEntries(0x75, None, [0x6E, 0x6F, 0x6F], 43);
    assert [0x75] + [0x6E, 0x6F, 0x6F] == [0x75, 0x6E, 0x6F, 0x6F];
    FirstEntries(e[3], []);
    FirstEntries(e[2], [e[3]]);
    FirstEntries(e[1], [e[2]] + [e[3]]);
    FirstEntries(e[0], [e[1]] + ([e[2]] + [e[3]]));
    assert e == [e[0]] + ([e[1]] + ([e[2]] + [e[3]])) && [e[3]] + [] == [e[3]];
  }
}
