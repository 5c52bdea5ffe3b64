/**
  * The output buffer of BytesTrieBuilder. It is filled from the back, so that
  * offsets are distances from the end, which later prepends do not change.
  */
module BackBuffers {
  import opened TrieFormat

  /** memcpy */
  method CopyBytes(target: array<Byte>, start: nat, b: seq<Byte>)
    requires start + |b| <= target.Length
    modifies target
    ensures target[start..] == b + old(target[start + |b|..])
  {
    for i := 0 to |b|
      invariant forall k :: 0 <= k < i ==> target[start + k] == b[k]
      invariant forall k :: start + i <= k < target.Length ==> target[k] == old(target[k])
    {
      target[start + i] := b[i];
    }
  }

  class BackBuffer {
    var bytes: array<Byte>
    var bytesLength: nat
    ghost var contents: seq<Byte>   // what has been written, first byte first
    const garbage2: Byte   // whatever writeDeltaTo() leaves in its unassigned bytes
    const garbage3: Byte

    ghost predicate Valid()
      reads this, bytes
    {
      && 0 < bytes.Length
      && bytesLength <= bytes.Length
      && contents == bytes[bytes.Length - bytesLength..]
    }

    lemma ContentsLength()
      requires Valid()
      ensures |contents| == bytesLength
    {
    }

    constructor (capacity: nat, g2: Byte, g3: Byte)
      requires capacity > 0
      ensures Valid() && contents == [] && fresh(bytes)
      ensures garbage2 == g2 && garbage3 == g3
    {
      bytes := new Byte[capacity](_ => 0);
      bytesLength := 0;
      contents := [];
      garbage2, garbage3 := g2, g3;
    }

    /** Doubles the buffer until length fits, keeping what has been written at the back. */
    method EnsureCapacity(length: nat)
      requires Valid()
      modifies this`bytes
      ensures Valid() && length <= bytes.Length
      ensures bytes == old(bytes) || fresh(bytes)
    {
      if length > bytes.Length {
        var newCapacity := bytes.Length;
        newCapacity := newCapacity * 2;
        while newCapacity <= length
          invariant newCapacity > bytes.Length
          decreases length - newCapacity
        {
          newCapacity := newCapacity * 2;
        }
        var newBytes := new Byte[newCapacity](_ => 0);
        CopyBytes(newBytes, newCapacity - bytesLength, bytes[bytes.Length - bytesLength..]);
        bytes := newBytes;
      }
    }

    method Write(b: Byte) returns (offset: nat)
      requires Valid()
      modifies this, bytes
      ensures Valid() && (bytes == old(bytes) || fresh(bytes))
      ensures contents == [b] + old(contents)
      ensures offset == |contents|
    {
      EnsureCapacity(bytesLength + 1);
      ghost var start := bytes.Length - bytesLength - 1;
      assert bytes[start + 1..] == contents;
      bytesLength := bytesLength + 1;
      bytes[bytes.Length - bytesLength] := b;
      assert bytes[start..] == [b] + contents;
      contents := [b] + contents;
      offset := bytesLength;
    }

    method WriteUnits(b: seq<Byte>) returns (offset: nat)
      requires Valid()
      modifies this, bytes
      ensures Valid() && (bytes == old(bytes) || fresh(bytes))
      ensures contents == b + old(contents)
      ensures offset == |contents|
    {
      EnsureCapacity(bytesLength + |b|);
      ghost var start := bytes.Length - bytesLength - |b|;
      assert bytes[start + |b|..] == contents;
      bytesLength := bytesLength + |b|;
      CopyBytes(bytes, bytes.Length - bytesLength, b);
      assert bytes[start..] == b + contents;
      contents := b + contents;
      offset := bytesLength;
    }

    method WriteValueAndFinal(i: int, isFinal: bool) returns (offset: nat)
      requires Valid()
      requires IsInt32(i)
      modifies this, bytes
      ensures Valid() && (bytes == old(bytes) || fresh(bytes))
      ensures contents == EncodeValue(i, isFinal) + old(contents)
      ensures offset == |contents|
      ensures IsValueLead(contents, 0) && ValueOf(contents, 0) == i && IsFinal(contents, 0) == isFinal
      ensures AfterValue(contents, 0) == |contents| - |old(contents)|
    {
      hide IsValueLead, ValueOf, IsFinal, AfterValue, Valid;
      ValueRoundTrip(i, isFinal, contents);
      var flag := if isFinal then 1 else 0;
      if 0 <= i <= MAX_ONE_BYTE_VALUE {
        offset := Write((MIN_ONE_BYTE_VALUE_LEAD + i) * 2 + flag);
        assert EncodeValue(i, isFinal) == [(MIN_ONE_BYTE_VALUE_LEAD + i) * 2 + flag];
        return;
      }
      var lead: int;
      var tail: seq<Byte> := [];
      if i < 0 || i > 0xFFFFFF {
        var u := ToUnsigned(i);
        lead := FIVE_BYTE_VALUE_LEAD;
        tail := [u / 0x100_0000, u / 0x10000 % 0x100, u / 0x100 % 0x100, u % 0x100];
      } else {
        if i <= MAX_TWO_BYTE_VALUE {
          lead := MIN_TWO_BYTE_VALUE_LEAD + i / 0x100;
        } else {
          if i <= MAX_THREE_BYTE_VALUE {
            lead := MIN_THREE_BYTE_VALUE_LEAD + i / 0x10000;
          } else {
            lead := FOUR_BYTE_VALUE_LEAD;
            tail := [i / 0x10000];
          }
          tail := tail + [i / 0x100 % 0x100];
        }
        tail := tail + [i % 0x100];
      }
      assert lead == ValueLead(i) && tail == ValueTail(i);
      offset := WriteUnits([lead * 2 + flag] + tail);
    }

    /** The jump delta from here to the node whose offset is jumpTarget. */
    method WriteDeltaTo(jumpTarget: nat) returns (offset: nat)
      requires Valid()
      requires jumpTarget <= bytesLength
      modifies this, bytes
      ensures Valid() && (bytes == old(bytes) || fresh(bytes))
      ensures contents == EncodeDelta(old(bytesLength) - jumpTarget, garbage2, garbage3) + old(contents)
      ensures offset == |contents|
      ensures old(bytesLength) - jumpTarget <= MAX_THREE_BYTE_DELTA ==>
        && IsDelta(contents, 0)
        && JumpTarget(contents, 0) == |contents| - jumpTarget
        && AfterDelta(contents, 0) == |contents| - |old(contents)|
    {
      var i := bytesLength - jumpTarget;
      if i <= MAX_THREE_BYTE_DELTA {
        DeltaRoundTrip(i, garbage2, garbage3, contents);
      }
      if i <= MAX_ONE_BYTE_DELTA {
        offset := Write(i);
        return;
      }
      var intBytes: seq<Byte> := [0, 0, garbage2, garbage3, 0];
      var length: nat;
      if i <= MAX_TWO_BYTE_DELTA {
        intBytes := intBytes[0 := MIN_TWO_BYTE_DELTA_LEAD + i / 0x100];
        length := 1;
      } else {
        if i <= MAX_THREE_BYTE_DELTA {
          intBytes := intBytes[0 := MIN_THREE_BYTE_DELTA_LEAD + i / 0x10000];
          length := 2;
        } else {
          if i <= 0xFFFFFF {
            intBytes := intBytes[0 := FOUR_BYTE_DELTA_LEAD];
            length := 3;
          } else {
            intBytes := intBytes[0 := FIVE_BYTE_DELTA_LEAD];
            intBytes := intBytes[1 := i / 0x100_0000 % 0x100];
            length := 4;
          }
          intBytes := intBytes[1 := i / 0x10000 % 0x100];
        }
        intBytes := intBytes[1 := i / 0x100 % 0x100];
      }
      intBytes := intBytes[length := i % 0x100];
      length := length + 1;
      assert intBytes[..length] == EncodeDelta(i, garbage2, garbage3);
      offset := WriteUnits(intBytes[..length]);
    }
  }
}
