/**
  * The byte-level integers of a serialized BytesTrie: compact values with a
  * "final" flag, and compact jump deltas.
  */
module TrieFormat {

  type Byte = b: int | 0 <= b < 0x100

  const MIN_LINEAR_MATCH := 0x10
  const MAX_LINEAR_MATCH_LENGTH := 0x10
  const MIN_VALUE_LEAD := 0x20
  const MAX_BRANCH_LINEAR_SUB_NODE_LENGTH := 5

  const MIN_ONE_BYTE_VALUE_LEAD := 0x10
  const MAX_ONE_BYTE_VALUE := 0x40
  const MIN_TWO_BYTE_VALUE_LEAD := 0x51
  const MAX_TWO_BYTE_VALUE := 0x1AFF
  const MIN_THREE_BYTE_VALUE_LEAD := 0x6C
  const MAX_THREE_BYTE_VALUE := 0x11FFFF
  const FOUR_BYTE_VALUE_LEAD := 0x7E
  const FIVE_BYTE_VALUE_LEAD := 0x7F

  const MAX_ONE_BYTE_DELTA := 0xBF
  const MIN_TWO_BYTE_DELTA_LEAD := 0xC0
  const MAX_TWO_BYTE_DELTA := 0x2FFF
  const MIN_THREE_BYTE_DELTA_LEAD := 0xF0
  const MAX_THREE_BYTE_DELTA := 0xDFFFF
  const FOUR_BYTE_DELTA_LEAD := 0xFE
  const FIVE_BYTE_DELTA_LEAD := 0xFF

  lemma ListIsShort()
    ensures MAX_BRANCH_LINEAR_SUB_NODE_LENGTH == 5
  {
  }

  /** v in int32_t arithmetic. */
  function Wrap32(v: int): (r: int)
    ensures IsInt32(r)
    ensures IsInt32(v) ==> r == v
  {
    (v + 0x8000_0000) % 0x1_0000_0000 - 0x8000_0000
  }

  predicate IsInt32(v: int) {
    -0x8000_0000 <= v < 0x8000_0000
  }

  /** (uint32_t)v */
  function ToUnsigned(v: int): int {
    if v < 0 then v + 0x1_0000_0000 else v
  }

  /** (int32_t)u */
  function ToSigned(u: int): int {
    if u >= 0x8000_0000 then u - 0x1_0000_0000 else u
  }

  // ---------- values ----------

  /** How many bytes follow the lead byte of a value. */
  function SkipValue(node: Byte): (n: nat)
    ensures n <= 4
  {
    if node >= 2 * MIN_TWO_BYTE_VALUE_LEAD then
      if node < 2 * MIN_THREE_BYTE_VALUE_LEAD then 1
      else if node < 2 * FOUR_BYTE_VALUE_LEAD then 2
      else 3 + node / 2 % 2
    else 0
  }

  /** The value whose lead byte, already shifted right by 1, precedes pos. */
  function ReadValue(b: seq<Byte>, pos: nat, lead: int): int
    requires 0 <= lead < 0x80 && pos + SkipValue(2 * lead) <= |b|
  {
    if lead < MIN_TWO_BYTE_VALUE_LEAD then lead - MIN_ONE_BYTE_VALUE_LEAD
    else if lead < MIN_THREE_BYTE_VALUE_LEAD then
      (lead - MIN_TWO_BYTE_VALUE_LEAD) * 0x100 + b[pos] as int
    else if lead < FOUR_BYTE_VALUE_LEAD then
      (lead - MIN_THREE_BYTE_VALUE_LEAD) * 0x10000 + b[pos] as int * 0x100 + b[pos + 1] as int
    else if lead == FOUR_BYTE_VALUE_LEAD then
      b[pos] as int * 0x10000 + b[pos + 1] as int * 0x100 + b[pos + 2] as int
    else
      ToSigned(b[pos] as int * 0x100_0000 + b[pos + 1] as int * 0x10000 + b[pos + 2] as int * 0x100 + b[pos + 3] as int)
  }

  /** The position after the value at pos. */
  function AfterValue(b: seq<Byte>, pos: nat): nat
    requires pos < |b|
  {
    pos + 1 + SkipValue(b[pos])
  }

  predicate IsValueLead(b: seq<Byte>, pos: nat) {
    pos < |b| && b[pos] >= MIN_VALUE_LEAD && AfterValue(b, pos) <= |b|
  }

  function ValueOf(b: seq<Byte>, pos: nat): int
    requires IsValueLead(b, pos)
  {
    ReadValue(b, pos + 1, b[pos] / 2)
  }

  predicate IsFinal(b: seq<Byte>, pos: nat)
    requires pos < |b|
  {
    b[pos] % 2 == 1
  }

  /** The lead byte of value i before the final flag is shifted in. */
  function ValueLead(i: int): (lead: int)
    requires IsInt32(i)
    ensures MIN_ONE_BYTE_VALUE_LEAD <= lead < 0x80
  {
    if 0 <= i <= MAX_ONE_BYTE_VALUE then MIN_ONE_BYTE_VALUE_LEAD + i
    else if i < 0 || i > 0xFFFFFF then FIVE_BYTE_VALUE_LEAD
    else if i <= MAX_TWO_BYTE_VALUE then MIN_TWO_BYTE_VALUE_LEAD + i / 0x100
    else if i <= MAX_THREE_BYTE_VALUE then MIN_THREE_BYTE_VALUE_LEAD + i / 0x10000
    else FOUR_BYTE_VALUE_LEAD
  }

  function ValueTail(i: int): (s: seq<Byte>)
    requires IsInt32(i)
    ensures |s| == SkipValue(2 * ValueLead(i))
  {
    if 0 <= i <= MAX_ONE_BYTE_VALUE then []
    else if i < 0 || i > 0xFFFFFF then
      var u := ToUnsigned(i);
      [u / 0x100_0000, u / 0x10000 % 0x100, u / 0x100 % 0x100, u % 0x100]
    else if i <= MAX_TWO_BYTE_VALUE then [i % 0x100]
    else if i <= MAX_THREE_BYTE_VALUE then [i / 0x100 % 0x100, i % 0x100]
    else [i / 0x10000, i / 0x100 % 0x100, i % 0x100]
  }

  /** The bytes that writeValueAndFinal() prepends. */
  function EncodeValue(i: int, isFinal: bool): (s: seq<Byte>)
    requires IsInt32(i)
  {
    [2 * ValueLead(i) + (if isFinal then 1 else 0)] + ValueTail(i)
  }

  lemma FlagDoesNotChangeLength(lead: int)
    requires 0 <= lead < 0x80
    ensures SkipValue(2 * lead + 1) == SkipValue(2 * lead)
  {
  }

  lemma ThreeBytes(i: int)
    ensures i == i / 0x10000 * 0x10000 + i / 0x100 % 0x100 * 0x100 + i % 0x100
  {
    assert i / 0x100 / 0x100 == i / 0x10000;
  }

  lemma FourBytes(u: int)
    ensures u == u / 0x100_0000 * 0x100_0000 + u / 0x10000 % 0x100 * 0x10000 + u / 0x100 % 0x100 * 0x100 + u % 0x100
  {
    ThreeBytes(u);
    assert u / 0x10000 / 0x100 == u / 0x100_0000;
  }

  lemma TailRoundTrip(i: int, b: seq<Byte>)
    requires IsInt32(i)
    requires |b| >= 1 + |ValueTail(i)| && forall k :: 0 <= k < |ValueTail(i)| ==> b[1 + k] == ValueTail(i)[k]
    ensures ReadValue(b, 1, ValueLead(i)) == i
  {
    var t := ValueTail(i);
    if i < 0 || i > 0xFFFFFF {
      FourBytes(ToUnsigned(i));
      assert b[1 + 0] == t[0] && b[1 + 1] == t[1] && b[1 + 2] == t[2] && b[1 + 3] == t[3];
    } else if i > MAX_TWO_BYTE_VALUE {
      ThreeBytes(i);
      assert b[1 + 0] == t[0] && b[1 + 1] == t[1];
      assert i > MAX_THREE_BYTE_VALUE ==> b[1 + 2] == t[2];
    } else if i > MAX_ONE_BYTE_VALUE {
      assert b[1 + 0] == t[0];
    }
  }

  /** Every int32 is read back, with its final flag, whatever follows it. */
  lemma ValueRoundTrip(i: int, isFinal: bool, rest: seq<Byte>)
    requires IsInt32(i)
    ensures var b := EncodeValue(i, isFinal) + rest;
            && IsValueLead(b, 0)
            && ValueOf(b, 0) == i
            && IsFinal(b, 0) == isFinal
            && AfterValue(b, 0) == |EncodeValue(i, isFinal)|
  {
    var b := EncodeValue(i, isFinal) + rest;
    FlagDoesNotChangeLength(ValueLead(i));
    assert b[0] / 2 == ValueLead(i);
    TailRoundTrip(i, b);
  }

  // ---------- jump deltas ----------

  function SkipDelta(lead: Byte): (n: nat)
    ensures n <= 4
  {
    if lead >= MIN_TWO_BYTE_DELTA_LEAD then
      if lead < MIN_THREE_BYTE_DELTA_LEAD then 1
      else if lead < FOUR_BYTE_DELTA_LEAD then 2
      else 3 + lead % 2
    else 0
  }

  function AfterDelta(b: seq<Byte>, pos: nat): nat
    requires pos < |b|
  {
    pos + 1 + SkipDelta(b[pos])
  }

  predicate IsDelta(b: seq<Byte>, pos: nat) {
    pos < |b| && AfterDelta(b, pos) <= |b|
  }

  /** The delta at pos; a five-byte delta may come out negative. */
  function ReadDelta(b: seq<Byte>, pos: nat): int
    requires IsDelta(b, pos)
  {
    var lead := b[pos] as int;
    if lead < MIN_TWO_BYTE_DELTA_LEAD then lead
    else if lead < MIN_THREE_BYTE_DELTA_LEAD then
      (lead - MIN_TWO_BYTE_DELTA_LEAD) * 0x100 + b[pos + 1] as int
    else if lead < FOUR_BYTE_DELTA_LEAD then
      (lead - MIN_THREE_BYTE_DELTA_LEAD) * 0x10000 + b[pos + 1] as int * 0x100 + b[pos + 2] as int
    else if lead == FOUR_BYTE_DELTA_LEAD then
      b[pos + 1] as int * 0x10000 + b[pos + 2] as int * 0x100 + b[pos + 3] as int
    else
      ToSigned(b[pos + 1] as int * 0x100_0000 + b[pos + 2] as int * 0x10000 + b[pos + 3] as int * 0x100 + b[pos + 4] as int)
  }

  /** Where jumpByDelta() lands. */
  function JumpTarget(b: seq<Byte>, pos: nat): int
    requires IsDelta(b, pos)
  {
    AfterDelta(b, pos) + ReadDelta(b, pos)
  }

  /**
    * The bytes that writeDeltaTo() prepends for the distance i. Beyond
    * MAX_THREE_BYTE_DELTA it stores every middle byte at index 1, so that the
    * indexes 2 (and 3) are never assigned; g2 and g3 are what they happen to hold.
    */
  function EncodeDelta(i: nat, g2: Byte, g3: Byte): (s: seq<Byte>)
  {
    if i <= MAX_ONE_BYTE_DELTA then [i]
    else if i <= MAX_TWO_BYTE_DELTA then [MIN_TWO_BYTE_DELTA_LEAD + i / 0x100, i % 0x100]
    else if i <= MAX_THREE_BYTE_DELTA then
      [MIN_THREE_BYTE_DELTA_LEAD + i / 0x10000, i / 0x100 % 0x100, i % 0x100]
    else if i <= 0xFFFFFF then [FOUR_BYTE_DELTA_LEAD, i / 0x100 % 0x100, g2, i % 0x100]
    else [FIVE_BYTE_DELTA_LEAD, i / 0x100 % 0x100, g2, g3, i % 0x100]
  }

  /** The delta is read back and jumped over correctly, whatever follows it. */
  predicate DeltaSurvives(i: int, g2: Byte, g3: Byte, rest: seq<Byte>)
    requires 0 <= i < 0x8000_0000
  {
    var b := EncodeDelta(i, g2, g3) + rest;
    IsDelta(b, 0) && ReadDelta(b, 0) == i && AfterDelta(b, 0) == |EncodeDelta(i, g2, g3)|
  }

  lemma DeltaRoundTrip(i: int, g2: Byte, g3: Byte, rest: seq<Byte>)
    requires 0 <= i <= MAX_THREE_BYTE_DELTA
    ensures DeltaSurvives(i, g2, g3, rest)
  {
    var s := EncodeDelta(i, g2, g3);
    assert forall k :: 0 <= k < |s| ==> (s + rest)[k] == s[k];
  }

  /** Deltas survive whatever the unassigned bytes hold exactly up to MAX_THREE_BYTE_DELTA. */
  lemma DeltaSurvivesIff(i: int)
    requires 0 <= i < 0x8000_0000
    ensures (forall g2: Byte, g3: Byte, rest: seq<Byte> :: DeltaSurvives(i, g2, g3, rest)) <==>
            i <= MAX_THREE_BYTE_DELTA
  {
    if i <= MAX_THREE_BYTE_DELTA {
      forall g2: Byte, g3: Byte, rest: seq<Byte> ensures DeltaSurvives(i, g2, g3, rest) {
        DeltaRoundTrip(i, g2, g3, rest);
      }
    } else {
      // Two different byte values at index 2 cannot both be read back as i.
      assert !DeltaSurvives(i, 0, 0, []) || !DeltaSurvives(i, 1, 0, []);
    }
  }
}
