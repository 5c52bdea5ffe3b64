/** Collecting (string, value) pairs in one string table, sorting them and building the trie. */
module BytesTrieBuilders {
  import opened Basics
  import opened TrieFormat
  import opened Tries
  import opened TrieEncoding
  import opened TrieElements
  import opened BackBuffers
  import opened TrieNodes
  import opened TrieWriters
  import opened TrieStates
  import opened BytesTries
  import opened BytesTrieIterators

  const MAX_STRING_LENGTH := 0xFFFF

  // ---------- elements and the string table ----------

  /** A non-negative offset has a one-byte length before the string, an inverted one a two-byte length. */
  datatype Element = Element(stringOffset: int, value: int)

  function HeaderAt(e: Element): int {
    if e.stringOffset >= 0 then e.stringOffset else -e.stringOffset - 1
  }

  function DataAt(e: Element): int {
    HeaderAt(e) + (if e.stringOffset >= 0 then 1 else 2)
  }

  function StringLength(strings: seq<Byte>, e: Element): int
    requires 0 <= HeaderAt(e) && DataAt(e) <= |strings|
  {
    if e.stringOffset >= 0 then strings[e.stringOffset]
    else strings[HeaderAt(e)] as int * 0x100 + strings[HeaderAt(e) + 1]
  }

  predicate Holds(strings: seq<Byte>, e: Element) {
    && 0 <= HeaderAt(e) && DataAt(e) <= |strings|
    && DataAt(e) + StringLength(strings, e) <= |strings|
    && IsInt32(e.value)
  }

  function GetString(strings: seq<Byte>, e: Element): (r: seq<Byte>)
    requires Holds(strings, e)
    ensures |r| <= MAX_STRING_LENGTH
  {
    strings[DataAt(e)..DataAt(e) + StringLength(strings, e)]
  }

  /** Appending to the table does not disturb the strings in it. */
  lemma StringsKept(strings: seq<Byte>, more: seq<Byte>, e: Element)
    requires Holds(strings, e)
    ensures Holds(strings + more, e) && GetString(strings + more, e) == GetString(strings, e)
  {
  }

  /** Stores s in the table, unless it is too long for a two-byte length. */
  method SetTo(s: seq<Byte>, value: int, strings: seq<Byte>) returns (errorCode: Error, e: Element, strings': seq<Byte>)
    requires IsInt32(value)
    ensures errorCode == (if |s| > MAX_STRING_LENGTH then INDEX_OUTOFBOUNDS_ERROR else ZERO_ERROR)
    ensures errorCode == ZERO_ERROR ==> Holds(strings', e) && GetString(strings', e) == s && e.value == value
    ensures strings <= strings' && (errorCode != ZERO_ERROR ==> strings' == strings)
  {
    var length := |s|;
    e, strings' := Element(0, 0), strings;
    if length > 0xFFFF {
      errorCode := INDEX_OUTOFBOUNDS_ERROR;
      return;
    }
    errorCode := ZERO_ERROR;
    var offset := |strings|;
    if length > 0xFF {
      offset := -offset - 1;
      strings' := strings' + [length / 0x100];
    }
    strings' := strings' + [length % 0x100];
    e := Element(offset, value);
    strings' := strings' + s;
    assert strings'[DataAt(e)..] == s;
  }

  lemma LessIsIrreflexive(a: seq<Byte>)
    ensures !Less(a, a)
  {
  }

  lemma LessIsTransitive(a: seq<Byte>, b: seq<Byte>, c: seq<Byte>)
    requires Less(a, b) && Less(b, c)
    ensures Less(a, c)
  {
  }

  lemma LessIsTotal(a: seq<Byte>, b: seq<Byte>)
    ensures Less(a, b) || a == b || Less(b, a)
  {
    if a != [] && b != [] && a[0] == b[0] {
      LessIsTotal(a[1..], b[1..]);
      assert a == [a[0]] + a[1..] && b == [b[0]] + b[1..];
    }
  }

  /** memcmp on the common length, then the length difference: the sign gives the byte order. */
  method CompareStringTo(strings: seq<Byte>, left: Element, right: Element) returns (r: int)
    requires Holds(strings, left) && Holds(strings, right)
    ensures r < 0 <==> Less(GetString(strings, left), GetString(strings, right))
    ensures r == 0 <==> GetString(strings, left) == GetString(strings, right)
  {
    var a, b := GetString(strings, left), GetString(strings, right);
    var lengthDiff := |a| - |b|;
    var commonLength := if lengthDiff <= 0 then |a| else |b|;
    var i := 0;
    while i < commonLength && a[i] == b[i]
      invariant i <= commonLength && a[..i] == b[..i]
    {
      i := i + 1;
    }
    assert a == a[..i] + a[i..] && b == b[..i] + b[i..];
    LessPrefixed(a[..i], a[i..], b[i..]);
    r := if i < commonLength then a[i] as int - b[i] as int else lengthDiff;
  }

  // ---------- sorting ----------

  predicate AllHold(strings: seq<Byte>, elements: seq<Element>) {
    forall i :: 0 <= i < |elements| ==> Holds(strings, elements[i])
  }

  predicate InOrder(strings: seq<Byte>, a: Element, b: Element) {
    Holds(strings, a) && Holds(strings, b) && !Less(GetString(strings, b), GetString(strings, a))
  }

  /** Two maps between positions that undo each other. */
  ghost predicate IsPermutation(to: seq<nat>, from: seq<nat>, n: nat) {
    && |to| == |from| == n
    && (forall i :: 0 <= i < n ==> to[i] < n && from[to[i]] == i)
    && (forall i :: 0 <= i < n ==> from[i] < n && to[from[i]] == i)
  }

  ghost predicate IsRearranged(now: seq<Element>, was: seq<Element>, to: seq<nat>, from: seq<nat>) {
    && |now| == |was|
    && IsPermutation(to, from, |was|)
    && (forall i :: 0 <= i < |was| ==> now[i] == was[to[i]])
  }

  /** Every pair up to limit is in order, except that position hole has not been compared with smaller ones. */
  ghost predicate SortedBut(strings: seq<Byte>, es: seq<Element>, hole: int, limit: int) {
    forall i, j :: 0 <= i < j < limit <= |es| && j != hole ==> InOrder(strings, es[i], es[j])
  }

  function Swapped<T>(s: seq<T>, i: nat, j: nat): seq<T>
    requires i < |s| && j < |s|
  {
    s[i := s[j]][j := s[i]]
  }

  lemma SwapRearranges(now: seq<Element>, was: seq<Element>, to: seq<nat>, from: seq<nat>, k: nat)
    requires IsRearranged(now, was, to, from) && 0 < k < |now|
    ensures |to| == |from| == |was| && to[k] < |was| && to[k - 1] < |was|
    ensures IsRearranged(Swapped(now, k - 1, k), was, Swapped(to, k - 1, k), Swapped(from, to[k - 1], to[k]))
  {
  }

  lemma SwapSorts(strings: seq<Byte>, es: seq<Element>, k: nat, limit: nat)
    requires 0 < k < limit <= |es| && AllHold(strings, es)
    requires SortedBut(strings, es, k, limit)
    requires Less(GetString(strings, es[k]), GetString(strings, es[k - 1]))
    ensures SortedBut(strings, Swapped(es, k - 1, k), k - 1, limit)
  {
    hide Holds, GetString, Less;
    var es' := Swapped(es, k - 1, k);
    assert InOrder(strings, es[k], es[k - 1]) by {
      if Less(GetString(strings, es[k - 1]), GetString(strings, es[k])) {
        LessIsTransitive(GetString(strings, es[k]), GetString(strings, es[k - 1]), GetString(strings, es[k]));
        LessIsIrreflexive(GetString(strings, es[k]));
      }
    }
  }

  lemma InOrderIsTransitive(strings: seq<Byte>, a: Element, b: Element, c: Element)
    requires InOrder(strings, a, b) && InOrder(strings, b, c)
    ensures InOrder(strings, a, c)
  {
    var x, y, z := GetString(strings, a), GetString(strings, b), GetString(strings, c);
    LessIsTotal(x, y);
    LessIsTotal(y, z);
    if Less(z, x) {
      if Less(x, y) { LessIsTransitive(z, x, y); }
    }
  }

  /** When the element at the hole is in order with its predecessor, it is in order with all before. */
  lemma HoleCloses(strings: seq<Byte>, es: seq<Element>, k: nat, limit: nat)
    requires k < limit <= |es| && AllHold(strings, es)
    requires SortedBut(strings, es, k, limit)
    requires k > 0 ==> InOrder(strings, es[k - 1], es[k])
    ensures SortedBut(strings, es, -1, limit)
  {
    hide InOrder, Holds;
    forall i | 0 <= i < k ensures InOrder(strings, es[i], es[k]) {
      if i < k - 1 {
        InOrderIsTransitive(strings, es[i], es[k - 1], es[k]);
      }
    }
  }

  /** Sorts the elements by their strings. */
  method SortElements(strings: seq<Byte>, was: seq<Element>) returns (es: seq<Element>, ghost to: seq<nat>, ghost from: seq<nat>)
    requires AllHold(strings, was)
    ensures IsRearranged(es, was, to, from) && AllHold(strings, es)
    ensures SortedBut(strings, es, -1, |es|)
  {
    hide Holds, GetString, Less;
    es := was;
    to, from := seq(|was|, i => i), seq(|was|, i => i);
    var i := 1;
    while i < |es|
      invariant IsRearranged(es, was, to, from) && AllHold(strings, es)
      invariant i <= |es| || |es| == 0
      invariant SortedBut(strings, es, -1, i)
    {
      es, to, from := Insert(strings, es, was, i, to, from);
      i := i + 1;
    }
  }

  /** Moves the element at position i down to its place. */
  method Insert(strings: seq<Byte>, es0: seq<Element>, ghost was: seq<Element>, i: nat, ghost to0: seq<nat>, ghost from0: seq<nat>)
    returns (es: seq<Element>, ghost to: seq<nat>, ghost from: seq<nat>)
    requires IsRearranged(es0, was, to0, from0) && AllHold(strings, es0) && i < |es0|
    requires SortedBut(strings, es0, -1, i)
    ensures IsRearranged(es, was, to, from) && AllHold(strings, es)
    ensures SortedBut(strings, es, -1, i + 1)
  {
    hide Holds, GetString, Less, IsPermutation;
    es, to, from := es0, to0, from0;
    var k := i;
    while k > 0
      invariant 0 <= k <= i < |es|
      invariant IsRearranged(es, was, to, from) && AllHold(strings, es)
      invariant SortedBut(strings, es, k, i + 1)
    {
      var c := CompareStringTo(strings, es[k], es[k - 1]);
      if c >= 0 {
        break;
      }
      SwapRearranges(es, was, to, from, k);
      SwapSorts(strings, es, k, i + 1);
      es, to, from := Swapped(es, k - 1, k), Swapped(to, k - 1, k), Swapped(from, to[k - 1], to[k]);
      k := k - 1;
    }
    HoleCloses(strings, es, k, i + 1);
  }

  // ---------- the builder ----------

  function EntryOf(strings: seq<Byte>, e: Element): Entry
    requires Holds(strings, e)
  {
    Entry(GetString(strings, e), e.value)
  }

  function EntriesIn(strings: seq<Byte>, elements: seq<Element>): (r: seq<Entry>)
    requires AllHold(strings, elements)
    ensures |r| == |elements|
    ensures forall i :: 0 <= i < |r| ==> r[i] == EntryOf(strings, elements[i])
  {
    seq(|elements|, i requires 0 <= i < |elements| => EntryOf(strings, elements[i]))
  }

  ghost predicate HasDuplicate(es: seq<Entry>) {
    exists i, j :: 0 <= i < j < |es| && es[i].key == es[j].key
  }

  ghost predicate SameEntries(a: seq<Entry>, b: seq<Entry>) {
    |a| == |b| && forall e :: e in a <==> e in b
  }

  ghost predicate GoodEntries(es: seq<Entry>) {
    forall i :: 0 <= i < |es| ==> |es[i].key| <= MAX_STRING_LENGTH && IsInt32(es[i].value)
  }

  /** Rearranging elements keeps the entries and whether two of them share a key. */
  lemma RearrangedEntries(strings: seq<Byte>, now: seq<Element>, was: seq<Element>, to: seq<nat>, from: seq<nat>)
    requires AllHold(strings, now) && AllHold(strings, was) && IsRearranged(now, was, to, from)
    ensures SameEntries(EntriesIn(strings, now), EntriesIn(strings, was))
    ensures HasDuplicate(EntriesIn(strings, now)) <==> HasDuplicate(EntriesIn(strings, was))
  {
    hide Holds, GetString;
    var a, b := EntriesIn(strings, now), EntriesIn(strings, was);
    assert forall i :: 0 <= i < |a| ==> a[i] == b[to[i]];
    assert forall i :: 0 <= i < |a| ==> b[i] == a[from[i]] by {
      forall i | 0 <= i < |a| ensures b[i] == a[from[i]] {
        assert a[from[i]] == b[to[from[i]]];
      }
    }
    DuplicateMoves(a, b, to);
    DuplicateMoves(b, a, from);
  }

  lemma DuplicateMoves(a: seq<Entry>, b: seq<Entry>, to: seq<nat>)
    requires |a| == |b| == |to|
    requires forall i :: 0 <= i < |a| ==> to[i] < |b| && a[i] == b[to[i]]
    requires forall i, j :: 0 <= i < j < |a| ==> to[i] != to[j]
    ensures HasDuplicate(a) ==> HasDuplicate(b)
  {
    if HasDuplicate(a) {
      var i, j :| 0 <= i < j < |a| && a[i].key == a[j].key;
      assert b[to[i]].key == b[to[j]].key;
    }
  }

  /** In sorted elements two equal keys are neighbours; without any the order is strict. */
  lemma NeighboursDecide(strings: seq<Byte>, es: seq<Element>)
    requires AllHold(strings, es) && SortedBut(strings, es, -1, |es|)
    requires forall i :: 0 < i < |es| ==> GetString(strings, es[i - 1]) != GetString(strings, es[i])
    ensures Sorted(EntriesIn(strings, es)) && !HasDuplicate(EntriesIn(strings, es))
  {
    forall i, j | 0 <= i < j < |es| ensures Less(GetString(strings, es[i]), GetString(strings, es[j])) {
      StrictlyBefore(strings, es, i, j);
    }
    SortedHasNoDuplicate(EntriesIn(strings, es));
  }

  lemma SortedHasNoDuplicate(es: seq<Entry>)
    requires Sorted(es)
    ensures !HasDuplicate(es)
  {
    forall i, j | 0 <= i < j < |es| ensures es[i].key != es[j].key {
      LessIsIrreflexive(es[i].key);
    }
  }

  lemma StrictlyBefore(strings: seq<Byte>, es: seq<Element>, i: nat, j: nat)
    requires AllHold(strings, es) && SortedBut(strings, es, -1, |es|) && i < j < |es|
    requires forall i :: 0 < i < |es| ==> GetString(strings, es[i - 1]) != GetString(strings, es[i])
    ensures Less(GetString(strings, es[i]), GetString(strings, es[j]))
  {
    var x, y, z := GetString(strings, es[i]), GetString(strings, es[j - 1]), GetString(strings, es[j]);
    assert InOrder(strings, es[j - 1], es[j]);
    LessIsTotal(y, z);
    if i < j - 1 {
      assert InOrder(strings, es[i], es[j - 1]);
      LessIsTotal(x, y);
      if Less(x, y) { LessIsTransitive(x, y, z); }
    }
  }

  lemma NeighboursAreDuplicates(strings: seq<Byte>, es: seq<Element>, i: nat)
    requires AllHold(strings, es) && 0 < i < |es| && GetString(strings, es[i - 1]) == GetString(strings, es[i])
    ensures HasDuplicate(EntriesIn(strings, es))
  {
    var entries := EntriesIn(strings, es);
    assert entries[i - 1].key == entries[i].key;
  }

  lemma HeldEntriesAreGood(strings: seq<Byte>, es: seq<Element>)
    requires AllHold(strings, es)
    ensures GoodEntries(EntriesIn(strings, es))
  {
  }

  /** All the elements, from their first byte on. */
  lemma WholeSlice(es: seq<Entry>)
    requires Sorted(es) && es != [] && GoodEntries(es)
    ensures Slice(es, 0, |es|, 0) && Suffixes(es, 0, |es|, 0) == es
  {
    forall i | 0 <= i < |es| ensures es[i].key[..0] == [] && Suffix(es[i], 0) == es[i] {
    }
  }

  class Builder {
    var strings: seq<Byte>
    var elements: seq<Element>
    var bytes: seq<Byte>       // the serialized trie, once it is built
    ghost var spoiled: bool    // a too long string has left an element unset
    ghost var trie: Trie

    ghost predicate Valid()
      reads this
    {
      && AllHold(strings, elements)
      && (bytes != [] ==> elements != [] && IsBuilt(bytes, trie, Contents()))
    }

    function Contents(): seq<Entry>
      requires AllHold(strings, elements)
      reads this
    {
      EntriesIn(strings, elements)
    }

    constructor ()
      ensures Valid() && Contents() == [] && bytes == [] && !spoiled
    {
      strings, elements, bytes, spoiled := [], [], [], false;
    }

    method Clear()
      modifies this
      ensures Valid() && Contents() == [] && bytes == [] && !spoiled
    {
      strings, elements, bytes, spoiled := [], [], [], false;
    }

    method Add(s: seq<Byte>, value: int, errorCode0: Error) returns (errorCode: Error)
      requires Valid() && IsInt32(value) && (errorCode0 == ZERO_ERROR ==> !spoiled)
      modifies this
      ensures errorCode ==
        if errorCode0 != ZERO_ERROR then errorCode0
        else if old(bytes) != [] then NO_WRITE_PERMISSION
        else if |s| > MAX_STRING_LENGTH then INDEX_OUTOFBOUNDS_ERROR
        else ZERO_ERROR
      ensures Valid() && bytes == old(bytes) && (errorCode == ZERO_ERROR ==> !spoiled)
      ensures errorCode0 != ZERO_ERROR ==> unchanged(this)
      ensures Contents() == old(Contents()) + if errorCode == ZERO_ERROR then [Entry(s, value)] else []
    {
      if errorCode0 != ZERO_ERROR {
        return errorCode0;
      }
      if bytes != [] {
        return NO_WRITE_PERMISSION;
      }
      var e, strings';
      errorCode, e, strings' := SetTo(s, value, strings);
      ghost var more := strings'[|strings|..];
      assert strings' == strings + more;
      forall i | 0 <= i < |elements|
        ensures Holds(strings', elements[i]) && GetString(strings', elements[i]) == GetString(strings, elements[i])
      {
        StringsKept(strings, more, elements[i]);
      }
      strings := strings';
      if errorCode == ZERO_ERROR {
        elements := elements + [e];
      } else {
        spoiled := true;
      }
    }

    /** Sorts, refuses duplicates, and writes the trie. */
    method Build(errorCode0: Error, g2: Byte, g3: Byte) returns (errorCode: Error)
      requires Valid() && (errorCode0 == ZERO_ERROR ==> !spoiled)
      modifies this
      ensures Valid() && spoiled == old(spoiled)
      ensures SameEntries(Contents(), old(Contents()))
      ensures errorCode ==
        if errorCode0 != ZERO_ERROR then errorCode0
        else if old(bytes) != [] then ZERO_ERROR
        else if old(Contents()) == [] then INDEX_OUTOFBOUNDS_ERROR
        else if HasDuplicate(old(Contents())) then ILLEGAL_ARGUMENT_ERROR
        else ZERO_ERROR
      ensures errorCode == ZERO_ERROR ==> bytes != [] && (old(bytes) != [] ==> bytes == old(bytes))
      ensures errorCode != ZERO_ERROR ==> bytes == old(bytes)
    {
      hide AllHold, EntriesIn, EncodesNode, Ordered, Entries, Sorted, GoodEntries, HasDuplicate;
      if errorCode0 != ZERO_ERROR {
        return errorCode0;
      }
      if bytes != [] {
        return ZERO_ERROR;
      }
      if elements == [] {
        return INDEX_OUTOFBOUNDS_ERROR;
      }
      errorCode := Arrange();
      if errorCode == ZERO_ERROR {
        bytes, trie := Serialize(EntriesIn(strings, elements), |strings|, g2, g3);
      }
    }

    /** The sorting and checking half of buildBytes(). */
    method Arrange() returns (errorCode: Error)
      requires Valid() && bytes == [] && elements != []
      modifies this`elements
      ensures Valid() && elements != []
      ensures SameEntries(Contents(), old(Contents())) && GoodEntries(Contents())
      ensures errorCode == if HasDuplicate(old(Contents())) then ILLEGAL_ARGUMENT_ERROR else ZERO_ERROR
      ensures errorCode == ZERO_ERROR ==> Sorted(Contents())
    {
      hide Holds, Less, GetString, IsPermutation, HasDuplicate, Sorted, EntryOf;
      var es;
      ghost var to, from;
      es, to, from := SortElements(strings, elements);
      RearrangedEntries(strings, es, elements, to, from);
      elements := es;
      HeldEntriesAreGood(strings, es);
      var prev := GetString(strings, es[0]);
      for i := 1 to |es|
        invariant prev == GetString(strings, es[i - 1])
        invariant forall j :: 0 < j < i ==> GetString(strings, es[j - 1]) != GetString(strings, es[j])
      {
        var current := GetString(strings, es[i]);
        if prev == current {
          NeighboursAreDuplicates(strings, es, i);
          return ILLEGAL_ARGUMENT_ERROR;
        }
        prev := current;
      }
      NeighboursDecide(strings, es);
      return ZERO_ERROR;
    }
  }

  /** These bytes are a trie of exactly these entries; jumps that are too long for the format are not covered. */
  ghost predicate IsBuilt(b: seq<Byte>, t: Trie, es: seq<Entry>) {
    Ordered(t) && Entries(t) == es && Sorted(es) && (|b| <= MAX_SIZE ==> EncodesNode(b, 0, t))
  }

  /** The writing half of buildBytes(). */
  method Serialize(es: seq<Entry>, stringsLength: nat, g2: Byte, g3: Byte) returns (bytes: seq<Byte>, ghost t: Trie)
    requires Sorted(es) && es != [] && GoodEntries(es)
    ensures bytes != [] && IsBuilt(bytes, t, es)
  {
    WholeSlice(es);
    var capacity := if stringsLength < 1024 then 1024 else stringsLength;
    var buffer := new BackBuffer(capacity, g2, g3);
    var writer := new TrieWriter(buffer);
    var offset;
    offset, t := writer.WriteNode(es, 0, |es|, 0);
    buffer.ContentsLength();
    bytes := buffer.bytes[buffer.bytes.Length - buffer.bytesLength..];
  }

  // ---------- building and reading back ----------

  lemma FromTheStart(bytes: seq<Byte>, t: Trie)
    requires EncodesNode(bytes, 0, t)
    ensures IsStateOf(bytes, State(0, -1), Some(t)) && EntriesLeft(Some(t)) == Entries(t)
  {
  }

  /** A full iteration delivers every entry once, in ascending key order. */
  method ListEntries(bytes: seq<Byte>, ghost t: Trie) returns (es: seq<Entry>)
    requires EncodesNode(bytes, 0, t) && Ordered(t) && KeysFit(Entries(t))
    ensures es == Entries(t) && Sorted(es)
  {
    hide *;
    FromTheStart(bytes, t);
    var it := new Iterator(bytes, 0, -1, ZERO_ERROR, Some(t));
    es := [];
    var found := true;
    while found
      invariant it.Valid() && es + it.Pending() == Entries(t)
      invariant !found ==> it.Pending() == []
      decreases |it.Pending()| + if found then 1 else 0
    {
      ghost var pending := it.Pending();
      found := it.Next(ZERO_ERROR);
      if found {
        assert es + pending == (es + [pending[0]]) + pending[1..];
        es := es + [Entry(it.str, it.value)];
      }
    }
    EntriesSorted(t);
  }

  /** A byte as a signed char. */
  function AsChar(b: Byte): int {
    if b >= 0x80 then b - 0x100 else b
  }

  function AsChars(s: seq<Byte>): (r: seq<int>)
    ensures |r| == |s| && forall i :: 0 <= i < |s| ==> r[i] == AsChar(s[i])
  {
    seq(|s|, i requires 0 <= i < |s| => AsChar(s[i]))
  }

  predicate IsAscii(s: seq<Byte>) {
    forall i :: 0 <= i < |s| ==> s[i] < 0x80
  }

  /** Looking a string up with the string overload: exactly the strings that were added are found, if they are ASCII; no other string is. */
  method LookUp(bytes: seq<Byte>, ghost t: Trie, ghost es: seq<Entry>, s: seq<Byte>) returns (r: Option<int>)
    requires IsBuilt(bytes, t, es) && |bytes| <= MAX_SIZE
    ensures IsAscii(s) ==> forall v :: Entry(s, v) in es <==> r == Some(v)
    ensures !IsAscii(s) ==> r == None
  {
    hide EncodesNode, Ordered, Entries, Walk, IsStateOf;
    FromTheStart(bytes, t);
    var reader := new BytesTrie(bytes);
    var chars := AsChars(s);
    var result := reader.NextString(chars, |chars|, Some(t));
    assert Input(chars, |chars|) == chars;
    if IsAscii(s) {
      assert chars == s;
      ResultsDecideKeys(t, s);
    } else {
      NegativeNeverMatches(t, chars);
    }
    if result == FINAL_VALUE || result == INTERMEDIATE_VALUE {
      var v := reader.GetValue(Walk(t, chars).value);
      r := Some(v);
    } else {
      r := None;
    }
  }

  /** Looking a string up byte by byte: exactly the strings that were added are found. */
  method LookUpEach(bytes: seq<Byte>, ghost t: Trie, ghost es: seq<Entry>, s: seq<Byte>) returns (r: Option<int>)
    requires IsBuilt(bytes, t, es) && |bytes| <= MAX_SIZE
    ensures forall v :: Entry(s, v) in es <==> r == Some(v)
  {
    hide EncodesNode, Ordered, Entries, Walk, IsStateOf;
    FromTheStart(bytes, t);
    var reader := new BytesTrie(bytes);
    var result := reader.NextEach(AsChars(s), Some(t));
    assert AdjustedAll(AsChars(s)) == s;
    ResultsDecideKeys(t, s);
    if result == FINAL_VALUE || result == INTERMEDIATE_VALUE {
      var v := reader.GetValue(Walk(t, s).value);
      r := Some(v);
    } else {
      r := None;
    }
  }

  /** A key that is not ASCII is found byte by byte only. */
  method HighKeyIsLost() returns (r: Option<int>, each: Option<int>)
    ensures r == None && each == Some(1)
  {
    ghost var t := Trie(None, Linear([0x80], Trie(Some(1), End)));
    ResultsDiffer();
    assert Entries(Trie(Some(1), End)) == [Entry([], 1)];
    assert [0x80] + [] == [0x80];
    assert Entries(t) == [Entry([0x80], 1)];
    var s: seq<Byte> := [0x80];
    assert s[0] == 0x80 && !IsAscii(s);
    r := LookUp([0x10, 0x80, 0x23], t, [Entry([0x80], 1)], s);
    each := LookUpEach([0x10, 0x80, 0x23], t, [Entry([0x80], 1)], s);
    assert Entry(s, 1) in [Entry([0x80], 1)];
  }

  // ---------- from what is added to what is found ----------

  /** What a caller gets that adds all of these and builds, with one error code throughout. */
  ghost function BuildError(adds: seq<Entry>): Error {
    if adds == [] || exists i :: 0 <= i < |adds| && |adds[i].key| > MAX_STRING_LENGTH then INDEX_OUTOFBOUNDS_ERROR
    else if HasDuplicate(adds) then ILLEGAL_ARGUMENT_ERROR
    else ZERO_ERROR
  }

  method AddAndBuild(adds: seq<Entry>, g2: Byte, g3: Byte)
    returns (errorCode: Error, bytes: seq<Byte>, ghost t: Trie, ghost es: seq<Entry>)
    requires forall i :: 0 <= i < |adds| ==> IsInt32(adds[i].value)
    ensures errorCode == BuildError(adds)
    ensures errorCode == ZERO_ERROR ==> IsBuilt(bytes, t, es) && SameEntries(es, adds) && GoodEntries(es)
  {
    hide AllHold, EntriesIn, HasDuplicate, IsBuilt;
    var builder := new Builder();
    errorCode := ZERO_ERROR;
    for i := 0 to |adds|
      invariant builder.Valid() && builder.bytes == []
      invariant fresh(builder)
      invariant errorCode == ZERO_ERROR ==> !builder.spoiled && builder.Contents() == adds[..i]
      invariant errorCode == ZERO_ERROR || errorCode == INDEX_OUTOFBOUNDS_ERROR
      invariant errorCode == ZERO_ERROR <==> forall j :: 0 <= j < i ==> |adds[j].key| <= MAX_STRING_LENGTH
    {
      errorCode := builder.Add(adds[i].key, adds[i].value, errorCode);
      assert adds[..i + 1] == adds[..i] + [adds[i]];
    }
    assert adds[..|adds|] == adds;
    errorCode := builder.Build(errorCode, g2, g3);
    bytes, t, es := builder.bytes, builder.trie, builder.Contents();
    HeldEntriesAreGood(builder.strings, builder.elements);
  }

  lemma GoodEntriesFit(es: seq<Entry>)
    requires GoodEntries(es)
    ensures KeysFit(es)
  {
  }

  /** Everything that was added, and nothing else, is listed in order and found. */
  method AddListAndLookUp(adds: seq<Entry>, s: seq<Byte>, g2: Byte, g3: Byte)
    returns (errorCode: Error, size: nat, listed: seq<Entry>, found: Option<int>, foundEach: Option<int>)
    requires forall i :: 0 <= i < |adds| ==> IsInt32(adds[i].value)
    ensures errorCode == BuildError(adds)
    ensures errorCode == ZERO_ERROR && size <= MAX_SIZE ==>
      && SameEntries(listed, adds) && Sorted(listed)
      && (forall v :: Entry(s, v) in adds <==> foundEach == Some(v))
      && found == if IsAscii(s) then foundEach else None
  {
    hide Entries, Ordered, EncodesNode, Sorted, KeysFit, GoodEntries, HasDuplicate;
    var bytes;
    ghost var t, es;
    errorCode, bytes, t, es := AddAndBuild(adds, g2, g3);
    size, listed, found, foundEach := |bytes|, [], None, None;
    if errorCode == ZERO_ERROR && size <= MAX_SIZE {
      GoodEntriesFit(es);
      listed := ListEntries(bytes, t);
      found := LookUp(bytes, t, es, s);
      foundEach := LookUpEach(bytes, t, es, s);
      SameAnswer(es, s, found, foundEach);
    }
  }

  lemma SameAnswer(es: seq<Entry>, s: seq<Byte>, a: Option<int>, b: Option<int>)
    requires forall v :: Entry(s, v) in es <==> b == Some(v)
    requires IsAscii(s) ==> forall v :: Entry(s, v) in es <==> a == Some(v)
    ensures IsAscii(s) ==> a == b
  {
    if IsAscii(s) {
      if a.Some? { assert Entry(s, a.value) in es; }
      if b.Some? { assert Entry(s, b.value) in es; }
    }
  }

  // ---------- iterating from a reader that has stopped ----------

  /**
    * "ax" in a trie of "abc" stops the reader. An iterator from there has nothing to deliver
    * after next("ax", 2), but after two single bytes it fails and still claims to have a next entry.
    */
  method IterateFromStopped() returns (a: Error, hasNextA: bool, b: Error, hasNextB: bool)
    ensures a == ZERO_ERROR && !hasNextA
    ensures b == ILLEGAL_ARGUMENT_ERROR && hasNextB
  {
    hide EncodesNode, Ordered, Walk, Moves, StringState;
    ghost var t := Trie(None, Linear([0x61, 0x62, 0x63], Trie(Some(1), End)));
    StatesDiffer();
    var bytes: seq<Byte> := [0x12, 0x61, 0x62, 0x63, 0x23];
    FromTheStart(bytes, t);
    AbcIsOrdered();
    var s := [0x61, 0x78];
    var reader := new BytesTrie(bytes);
    var r := reader.NextString(s, 2, Some(t));
    assert Input(s, 2) == s;
    var it := new Iterator(bytes, reader.pos, reader.remainingMatchLength, ZERO_ERROR, None);
    a := it.errorCode;
    hasNextA := it.HasNext();
    reader := new BytesTrie(bytes);
    r := reader.NextEach(s, Some(t));
    it := new Iterator(bytes, reader.pos, reader.remainingMatchLength, ZERO_ERROR, None);
    b := it.errorCode;
    hasNextB := it.HasNext();
  }

  lemma AbcIsOrdered()
    ensures Ordered(Trie(None, Linear([0x61, 0x62, 0x63], Trie(Some(1), End))))
  {
  }
}
