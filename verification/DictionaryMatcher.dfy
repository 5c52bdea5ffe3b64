/** Finding the dictionary words that start at a position, by walking a BytesTrie along the text. */
module DictionaryMatchers {
  import opened Basics
  import opened TrieFormat
  import opened Tries
  import opened TrieEncoding
  import opened TrieStates
  import opened BytesTries

  const U_SENTINEL := -1

  /** What a code point stands for in the trie. */
  function Transform(transformConstant: int, c: int): int {
    if (transformConstant / 0x1000000) % 0x80 == 1 then
      if c == 0x200D then 0xFF
      else if c == 0x200C then 0xFE
      else
        var delta := c - transformConstant % 0x200000;
        if delta < 0 || 0xFD < delta then U_SENTINEL else delta
    else c
  }

  /** The unit next() compares with: it takes the sentinel for the byte 0xFF. */
  function Unit(transformConstant: int, c: int): int {
    Adjusted(Transform(transformConstant, c))
  }

  // ---------- what the units stand for ----------

  predicate IsOffsetType(transformConstant: int) {
    (transformConstant / 0x1000000) % 0x80 == 1
  }

  function Offset(transformConstant: int): int {
    transformConstant % 0x200000
  }

  /** The code point that a byte of the trie stands for. */
  function Spelled(transformConstant: int, u: Byte): int {
    if !IsOffsetType(transformConstant) then u
    else if u == 0xFF then 0x200D
    else if u == 0xFE then 0x200C
    else Offset(transformConstant) + u
  }

  /** Not a byte that would stand for a joiner by its offset, which no text is looked up as. */
  predicate IsUsed(transformConstant: int, u: Byte) {
    IsOffsetType(transformConstant) && u <= 0xFD ==>
      Offset(transformConstant) + u != 0x200C && Offset(transformConstant) + u != 0x200D
  }

  predicate IsMapped(transformConstant: int, c: int) {
    IsOffsetType(transformConstant) ==>
      c == 0x200C || c == 0x200D || 0 <= c - Offset(transformConstant) <= 0xFD
  }

  /** A mapped code point is looked up as the byte that stands for it, and any other one like U+200D. */
  lemma UnitSpells(transformConstant: int, c: int)
    requires 0 <= c
    ensures if IsOffsetType(transformConstant) then
              && 0 <= Unit(transformConstant, c) <= 0xFF && IsUsed(transformConstant, Unit(transformConstant, c))
              && (IsMapped(transformConstant, c) ==> Spelled(transformConstant, Unit(transformConstant, c)) == c)
              && (!IsMapped(transformConstant, c) ==> Unit(transformConstant, c) == 0xFF)
            else Unit(transformConstant, c) == c
  {
  }

  /** And every byte that is used is what some text is looked up as. */
  lemma SpelledIsUnit(transformConstant: int, u: Byte)
    requires IsUsed(transformConstant, u)
    ensures var c := Spelled(transformConstant, u);
            0 <= c && IsMapped(transformConstant, c) && Unit(transformConstant, c) == u
  {
  }

  /** In the Thai dictionary, whose offset is 0x0E00, U+0E01 is the byte 1. */
  lemma ThaiLetter()
    ensures Transform(0x1000E00, 0x0E01) == 1 && Spelled(0x1000E00, 1) == 0x0E01
  {
  }

  /** The transform keeps different code points apart, except that all it does not map look like U+200D. */
  lemma TransformConfuses(transformConstant: int, c: int, d: int)
    requires 0 <= c && 0 <= d && c != d
    ensures Unit(transformConstant, c) == Unit(transformConstant, d) <==>
            (c == 0x200D || !IsMapped(transformConstant, c)) && (d == 0x200D || !IsMapped(transformConstant, d)) &&
            IsOffsetType(transformConstant)
  {
  }

  function Units(transformConstant: int, text: seq<int>): (r: seq<int>)
    ensures |r| == |text| && forall i :: 0 <= i < |text| ==> r[i] == Unit(transformConstant, text[i])
  {
    seq(|text|, i requires 0 <= i < |text| => Unit(transformConstant, text[i]))
  }

  datatype Word = Word(length: nat, value: int)

  /** The words that s starts with, of at least lo and at most hi units, from shortest to longest. */
  function Words(t: Trie, s: seq<int>, lo: nat, hi: nat): seq<Word>
    requires hi <= |s|
    decreases hi + 1 - lo
  {
    if lo > hi then []
    else WordOf(t, s[..lo]) + Words(t, s, lo + 1, hi)
  }

  function WordOf(t: Trie, s: seq<int>): seq<Word> {
    match Walk(t, s)
    case None => []
    case Some(c) => if c.value.Some? then [Word(|s|, c.value.value)] else []
  }

  ghost predicate HasEntry(t: Trie, s: seq<int>, value: int) {
    exists e :: e in Entries(t) && e.key == s && e.value == value
  }

  lemma {:induction false} WalkedAreBytes(t: Trie, s: seq<int>)
    requires Walk(t, s).Some?
    ensures forall i :: 0 <= i < |s| ==> 0 <= s[i] < 0x100
    decreases |s|
  {
    if s != [] {
      if t.next.Branch? { FindEdgeIsMember(t.next.edges, s[0]); }
      WalkedAreBytes(Step(t, s[0]).value, s[1..]);
      assert forall i :: 1 <= i < |s| ==> s[i] == s[1..][i - 1];
    }
  }

  /** A string leads to a value exactly if it is a key with that value. */
  lemma WordOfIsEntry(t: Trie, s: seq<int>, value: int)
    requires Ordered(t)
    ensures WordOf(t, s) == [Word(|s|, value)] <==> HasEntry(t, s, value)
  {
    if Walk(t, s).Some? {
      WalkedAreBytes(t, s);
      WalkDecides(t, s);
      assert Walk(t, s).value.value == Some(value) <==> Entry(s, value) in Entries(t);
    } else if HasEntry(t, s, value) {
      var e :| e in Entries(t) && e.key == s && e.value == value;
      WalkDecides(t, e.key);
    }
  }

  /** What the words are, in terms of the entries of the trie. */
  lemma {:induction false} WordsAreEntries(t: Trie, s: seq<int>, lo: nat, hi: nat, length: nat, value: int)
    requires Ordered(t) && hi <= |s|
    ensures Word(length, value) in Words(t, s, lo, hi) <==> lo <= length <= hi && HasEntry(t, s[..length], value)
    decreases hi + 1 - lo
  {
    hide HasEntry, Ordered, Walk;
    if lo <= hi {
      WordsAreEntries(t, s, lo + 1, hi, length, value);
      WordOfIsEntry(t, s[..lo], value);
      assert |s[..lo]| == lo;
    }
  }

  // ---------- text that the transform does not map ----------

  predicate AllMapped(transformConstant: int, text: seq<int>) {
    forall i :: 0 <= i < |text| ==> IsMapped(transformConstant, text[i])
  }

  predicate AreCodePoints(text: seq<int>) {
    forall i :: 0 <= i < |text| ==> 0 <= text[i]
  }

  /** A key of the trie spells the word w. */
  ghost predicate Spells(transformConstant: int, key: seq<Byte>, w: seq<int>) {
    && |key| == |w|
    && forall i :: 0 <= i < |key| ==> IsUsed(transformConstant, key[i]) && Spelled(transformConstant, key[i]) == w[i]
  }

  /** A word of the dictionary. */
  ghost predicate IsWord(transformConstant: int, t: Trie, w: seq<int>, value: int) {
    exists e :: e in Entries(t) && Spells(transformConstant, e.key, w) && e.value == value
  }

  /** The words reported are exactly the words of the dictionary that the text starts with. */
  ghost predicate ReportsWords(transformConstant: int, t: Trie, text: seq<int>, hi: nat)
    requires hi <= |text|
  {
    forall length: nat, value ::
      Word(length, value) in Words(t, Units(transformConstant, text), 1, hi) <==>
      1 <= length <= hi && IsWord(transformConstant, t, text[..length], value)
  }

  /** The text looks like a key exactly if the key spells it, as long as all of it is mapped. */
  lemma SpellsIsUnits(transformConstant: int, key: seq<Byte>, w: seq<int>)
    requires AreCodePoints(w)
    ensures Spells(transformConstant, key, w) <==> AllMapped(transformConstant, w) && key == Units(transformConstant, w)
  {
    hide IsMapped, Unit, Spelled, IsUsed;
    if Spells(transformConstant, key, w) {
      forall i | 0 <= i < |w| ensures IsMapped(transformConstant, w[i]) && key[i] == Unit(transformConstant, w[i]) {
        SpelledIsUnit(transformConstant, key[i]);
      }
    }
    if AllMapped(transformConstant, w) && key == Units(transformConstant, w) {
      forall i | 0 <= i < |w| ensures IsUsed(transformConstant, key[i]) && Spelled(transformConstant, key[i]) == w[i] {
        UnitSpells(transformConstant, w[i]);
        PlainIsUsed(transformConstant, key[i]);
      }
    }
  }

  lemma PlainIsUsed(transformConstant: int, u: Byte)
    ensures !IsOffsetType(transformConstant) ==> IsUsed(transformConstant, u) && Spelled(transformConstant, u) == u
  {
  }

  lemma IsWordIff(transformConstant: int, t: Trie, w: seq<int>, value: int)
    requires AreCodePoints(w)
    ensures IsWord(transformConstant, t, w, value) <==>
            AllMapped(transformConstant, w) && HasEntry(t, Units(transformConstant, w), value)
  {
    hide AllMapped, Spells, Entries;
    forall e | e in Entries(t)
      ensures Spells(transformConstant, e.key, w) <==> AllMapped(transformConstant, w) && e.key == Units(transformConstant, w)
    {
      SpellsIsUnits(transformConstant, e.key, w);
    }
  }

  /** Exactly if no key that the text looks like reaches past a character that is not mapped. */
  lemma ReportsWordsIff(transformConstant: int, t: Trie, text: seq<int>, hi: nat)
    requires Ordered(t) && hi <= |text| && AreCodePoints(text)
    ensures ReportsWords(transformConstant, t, text, hi) <==>
            forall e :: e in Entries(t) && 1 <= |e.key| <= hi && e.key <= Units(transformConstant, text) ==>
              AllMapped(transformConstant, text[..|e.key|])
  {
    hide Ordered, Words, IsMapped, Unit, IsWord, AllMapped;
    var s := Units(transformConstant, text);
    forall length: nat, value
      ensures Word(length, value) in Words(t, s, 1, hi) <==> 1 <= length <= hi && HasEntry(t, s[..length], value)
    {
      WordsAreEntries(t, s, 1, hi, length, value);
    }
    forall length: nat, value | length <= |text|
      ensures Units(transformConstant, text[..length]) == s[..length]
      ensures IsWord(transformConstant, t, text[..length], value) <==>
              AllMapped(transformConstant, text[..length]) && HasEntry(t, s[..length], value)
    {
      assert Units(transformConstant, text[..length]) == s[..length];
      IsWordIff(transformConstant, t, text[..length], value);
    }
    if ReportsWords(transformConstant, t, text, hi) {
      forall e | e in Entries(t) && 1 <= |e.key| <= hi && e.key <= s ensures AllMapped(transformConstant, text[..|e.key|]) {
        assert HasEntry(t, s[..|e.key|], e.value);
        assert Word(|e.key|, e.value) in Words(t, s, 1, hi);
      }
    }
    if forall e :: e in Entries(t) && 1 <= |e.key| <= hi && e.key <= s ==> AllMapped(transformConstant, text[..|e.key|]) {
      forall length: nat, value | 1 <= length <= hi && HasEntry(t, s[..length], value)
        ensures AllMapped(transformConstant, text[..length])
      {
        var e :| e in Entries(t) && e.key == s[..length] && e.value == value;
        assert e.key <= s;
      }
    }
  }

  /** Some code point that the transform does not map. */
  function Unmapped(transformConstant: int): (c: int)
    ensures c >= 0
    ensures IsOffsetType(transformConstant) ==> !IsMapped(transformConstant, c)
  {
    if Offset(transformConstant) > 0 then 0 else 0xFE
  }

  /** The word w with every U+200D replaced by a code point that looks the same to the trie. */
  function Disguised(transformConstant: int, w: seq<int>): (r: seq<int>)
    ensures |r| == |w| && (AreCodePoints(w) ==> AreCodePoints(r))
  {
    seq(|w|, i requires 0 <= i < |w| => if w[i] == 0x200D then Unmapped(transformConstant) else w[i])
  }

  ghost predicate ReportsAllTexts(transformConstant: int, t: Trie) {
    forall text, hi: nat :: hi <= |text| && AreCodePoints(text) ==> ReportsWords(transformConstant, t, text, hi)
  }

  /** The words are reported rightly in every text exactly if none of them holds U+200D. */
  lemma AllTextsReportWordsIff(transformConstant: int, t: Trie)
    requires Ordered(t) && IsOffsetType(transformConstant)
    ensures ReportsAllTexts(transformConstant, t) <==>
            forall w, value :: IsWord(transformConstant, t, w, value) ==> 0x200D !in w
  {
    hide Ordered, Entries, ReportsWords;
    if forall w, value :: IsWord(transformConstant, t, w, value) ==> 0x200D !in w {
      forall text: seq<int>, hi: nat | hi <= |text| && AreCodePoints(text) ensures ReportsWords(transformConstant, t, text, hi) {
        NoJoinerReportsWords(transformConstant, t, text, hi);
      }
    }
    if w, value :| IsWord(transformConstant, t, w, value) && 0x200D in w {
      var e :| e in Entries(t) && Spells(transformConstant, e.key, w) && e.value == value;
      JoinerIsConfused(transformConstant, t, w, e);
      assert AreCodePoints(Disguised(transformConstant, w));
    }
  }

  lemma SpelledAreCodePoints(transformConstant: int, key: seq<Byte>, w: seq<int>)
    requires Spells(transformConstant, key, w)
    ensures AreCodePoints(w)
  {
  }

  /** What a key spells that text looks like. */
  function SpelledAll(transformConstant: int, key: seq<Byte>): (w: seq<int>)
    ensures |w| == |key| && forall i :: 0 <= i < |key| ==> w[i] == Spelled(transformConstant, key[i])
  {
    seq(|key|, i requires 0 <= i < |key| => Spelled(transformConstant, key[i]))
  }

  lemma NoJoinerReportsWords(transformConstant: int, t: Trie, text: seq<int>, hi: nat)
    requires Ordered(t) && IsOffsetType(transformConstant) && hi <= |text| && AreCodePoints(text)
    requires forall w, value :: IsWord(transformConstant, t, w, value) ==> 0x200D !in w
    ensures ReportsWords(transformConstant, t, text, hi)
  {
    hide Ordered, Entries, ReportsWords, Unit, IsMapped, Spelled, IsUsed;
    ReportsWordsIff(transformConstant, t, text, hi);
    var s := Units(transformConstant, text);
    forall e | e in Entries(t) && 1 <= |e.key| <= hi && e.key <= s
      ensures AllMapped(transformConstant, text[..|e.key|])
    {
      var w := SpelledAll(transformConstant, e.key);
      forall j | 0 <= j < |e.key| ensures IsUsed(transformConstant, e.key[j]) {
        assert e.key[j] == s[j];
        UnitSpells(transformConstant, text[j]);
      }
      assert IsWord(transformConstant, t, w, e.value);
      forall j | 0 <= j < |e.key| ensures IsMapped(transformConstant, text[j]) {
        assert e.key[j] == s[j] && w[j] in w;
        UnitSpells(transformConstant, text[j]);
        JoinerUnit(transformConstant);
      }
    }
  }

  lemma JoinerUnit(transformConstant: int)
    requires IsOffsetType(transformConstant)
    ensures Spelled(transformConstant, 0xFF) == 0x200D && Unit(transformConstant, 0x200D) == 0xFF
  {
  }

  lemma JoinerIsConfused(transformConstant: int, t: Trie, w: seq<int>, e: Entry)
    requires Ordered(t) && IsOffsetType(transformConstant)
    requires e in Entries(t) && Spells(transformConstant, e.key, w) && 0x200D in w
    ensures AreCodePoints(w) && !ReportsWords(transformConstant, t, Disguised(transformConstant, w), |w|)
  {
    hide Ordered, Entries, ReportsWords, IsMapped, Unit, Spells;
    SpelledAreCodePoints(transformConstant, e.key, w);
    SpellsIsUnits(transformConstant, e.key, w);
    var text := Disguised(transformConstant, w);
    ReportsWordsIff(transformConstant, t, text, |w|);
    JoinerUnit(transformConstant);
    UnitSpells(transformConstant, Unmapped(transformConstant));
    assert Units(transformConstant, text) == Units(transformConstant, w);
    var i :| 0 <= i < |w| && w[i] == 0x200D;
    assert text[..|e.key|] == text;
    assert text[i] == Unmapped(transformConstant);
  }

  /** With the Thai offset and U+200D as the only word, the letter "a" is reported as that word. */
  lemma LetterIsReportedAsJoiner()
    ensures var t := Trie(None, Linear([0xFF], Trie(Some(1), End)));
            && Ordered(t) && Units(0x1000E00, [0x200D]) == [0xFF]
            && !IsMapped(0x1000E00, 0x61)
            && Words(t, Units(0x1000E00, [0x61]), 1, 1) == [Word(1, 1)]
  {
    var t := Trie(None, Linear([0xFF], Trie(Some(1), End)));
    var s := Units(0x1000E00, [0x61]);
    assert s[0] == 0xFF && s[..1] == s == [0xFF];
    assert Step(t, 0xFF) == Some(Trie(Some(1), End));
    assert Walk(Trie(Some(1), End), []) == Some(Trie(Some(1), End));
    assert WordOf(t, s) == [Word(1, 1)];
    assert Words(t, s, 2, 1) == [];
  }

  lemma {:induction false} WordsAreOrdered(t: Trie, s: seq<int>, lo: nat, hi: nat)
    requires hi <= |s|
    ensures forall k :: 0 <= k < |Words(t, s, lo, hi)| ==> lo <= Words(t, s, lo, hi)[k].length <= hi
    ensures forall k, l :: 0 <= k < l < |Words(t, s, lo, hi)| ==> Words(t, s, lo, hi)[k].length < Words(t, s, lo, hi)[l].length
    decreases hi + 1 - lo
  {
    if lo <= hi {
      WordsAreOrdered(t, s, lo + 1, hi);
    }
  }

  /** Once the trie has no way on, no longer string is a word. */
  lemma {:induction false} NoLongerWords(t: Trie, s: seq<int>, n: nat, lo: nat, hi: nat)
    requires n < lo && hi <= |s| && n <= hi
    requires Walk(t, s[..n]).None? || Walk(t, s[..n]).value.next.End?
    ensures Words(t, s, lo, hi) == []
    decreases hi + 1 - lo
  {
    if lo <= hi {
      NoLongerWords(t, s, n, lo + 1, hi);
      assert s[..lo] == s[..n] + s[n..lo];
      WalkConcat(t, s[..n], s[n..lo]);
      assert s[n..lo][0] == s[n];
    }
  }

  /** No string that continues these units is in the trie. */
  predicate IsStop(t: Trie, s: seq<int>) {
    Walk(t, s).None? || Walk(t, s).value.next.End?
  }

  /** The trie before and after one more unit. */
  lemma WordsSplit(t: Trie, s: seq<int>, k: nat, hi: nat)
    requires 1 <= k <= hi <= |s|
    ensures Words(t, s, k, hi) == WordOf(t, s[..k]) + Words(t, s, k + 1, hi)
  {
  }

  lemma StopEndsWords(t: Trie, s: seq<int>, k: nat, hi: nat)
    requires 1 <= k <= hi <= |s| && IsStop(t, s[..k])
    ensures Words(t, s, k + 1, hi) == []
  {
    NoLongerWords(t, s, k, k + 1, hi);
  }

  lemma WalkNext(t: Trie, s: seq<int>, k: nat)
    requires k < |s|
    ensures Walk(t, s[..k + 1]) == match Walk(t, s[..k]) case None => None case Some(c) => Step(c, s[k])
  {
    assert s[..k + 1] == s[..k] + [s[k]];
    WalkConcat(t, s[..k], [s[k]]);
    if Walk(t, s[..k]).Some? {
      var c := Walk(t, s[..k]).value;
      assert [s[k]][1..] == [];
      assert Walk(c, [s[k]]) == Step(c, s[k]);
    }
  }

  /** The words taken are the first ones, and the rest are still to come. */
  ghost predicate TakenSoFar(all: seq<Word>, words: seq<Word>, rest: seq<Word>, limit: nat) {
    && |rest| <= |all|
    && rest == all[|all| - |rest|..]
    && words == all[..Min(limit, |all| - |rest|)]
  }

  lemma TakeOne(all: seq<Word>, words: seq<Word>, w: Word, rest: seq<Word>, limit: nat)
    requires TakenSoFar(all, words, [w] + rest, limit)
    ensures TakenSoFar(all, if |words| < limit then words + [w] else words, rest, limit)
  {
    var n := |all| - |rest| - 1;
    assert all[n..] == [w] + rest;
    assert all[n + 1..] == all[n..][1..];
  }

  lemma TakeNone(all: seq<Word>, words: seq<Word>, rest: seq<Word>, limit: nat)
    requires TakenSoFar(all, words, [] + rest, limit)
    ensures TakenSoFar(all, words, rest, limit)
  {
    assert [] + rest == rest;
  }

  lemma AllTaken(all: seq<Word>, words: seq<Word>, limit: nat)
    requires TakenSoFar(all, words, [], limit)
    ensures words == all[..Min(limit, |all|)]
  {
  }

  /** What the result of the last step says about the words. */
  lemma WordOfResult(t: Trie, s: seq<int>)
    ensures var r := OptionResult(Walk(t, s));
            && (r == FINAL_VALUE || r == INTERMEDIATE_VALUE ==>
                 Walk(t, s).Some? && Walk(t, s).value.value.Some? && WordOf(t, s) == [Word(|s|, Walk(t, s).value.value.value)])
            && (r == NO_MATCH || r == NO_VALUE ==> WordOf(t, s) == [])
            && (r == NO_MATCH ==> Walk(t, s).None? && IsStop(t, s))
            && (r == FINAL_VALUE ==> IsStop(t, s))
            && (r == INTERMEDIATE_VALUE ==> !IsStop(t, s))
            && (r == NO_VALUE ==> Walk(t, s).Some?)
  {
  }

  lemma NoValueIsNoStop(t: Trie)
    requires Ordered(t) && ResultOf(t) == NO_VALUE
    ensures !t.next.End?
  {
  }

  /** Reads the next character of the text. */
  method NextUnit(bt: BytesTrie, ghost t: Trie, transformConstant: int, c: int, prefix: nat, ghost s: seq<int>) returns (result: Result)
    requires EncodesNode(bt.bytes, 0, t) && Ordered(t)
    requires prefix < |s| && s[prefix] == Unit(transformConstant, c)
    requires bt.IsState(Walk(t, s[..prefix])) && Walk(t, s[..prefix]).Some?
    modifies bt
    ensures bt.IsState(Walk(t, s[..prefix + 1])) && result == OptionResult(Walk(t, s[..prefix + 1]))
  {
    hide Walk, Step, Unit, Transform, EncodesNode, Ordered, OptionResult, IsStateOf;
    WalkNext(t, s, prefix);
    WalkKeepsOrder(t, s[..prefix]);
    UnitIs(transformConstant, c);
    OneStep(Walk(t, s[..prefix]), Unit(transformConstant, c));
    if prefix == 0 {
      NothingWalked(t, s);
      result := bt.First(Transform(transformConstant, c), t);
    } else {
      result := bt.Next(Transform(transformConstant, c), Walk(t, s[..prefix]));
    }
  }

  lemma UnitIs(transformConstant: int, c: int)
    ensures Unit(transformConstant, c) == Adjusted(Transform(transformConstant, c))
  {
  }

  lemma NothingWalked(t: Trie, s: seq<int>)
    ensures Walk(t, s[..0]) == Some(t)
  {
  }

  lemma StateAtStart(bt: BytesTrie, t: Trie, s: seq<int>)
    requires EncodesNode(bt.bytes, 0, t) && bt.pos == 0 && bt.remainingMatchLength == -1
    ensures bt.IsState(Walk(t, s[..0])) && Walk(t, s[..0]).Some?
  {
  }

  /** The longest start of s, of at most hi units, that a key starts with. */
  function Longest(t: Trie, s: seq<int>, hi: nat): (r: nat)
    requires hi <= |s|
    ensures r <= hi && Walk(t, s[..r]).Some?
    ensures forall k :: r < k <= hi ==> Walk(t, s[..k]).None?
  {
    if hi == 0 || Walk(t, s[..hi]).Some? then hi else Longest(t, s, hi - 1)
  }

  ghost predicate HasLonger(t: Trie, s: seq<int>) {
    exists e :: e in Entries(t) && s < e.key
  }

  lemma StopMeansNoLonger(t: Trie, s: seq<int>)
    requires Ordered(t) && Walk(t, s).Some?
    ensures IsStop(t, s) <==> !HasLonger(t, s)
  {
    WalkedAreBytes(t, s);
    WalkDecides(t, s);
  }

  /** The first place, from 1 on, where the trie ends or does not match, or else hi. */
  ghost predicate IsFirstStop(t: Trie, s: seq<int>, hi: nat, prefix: nat)
    requires hi <= |s|
  {
    && prefix <= hi && (hi > 0 ==> prefix >= 1)
    && (prefix < hi ==> IsStop(t, s[..prefix]))
    && (forall k :: 0 < k < prefix ==> !IsStop(t, s[..k]))
  }

  /** It is the length of the longest match exactly if that is all there is to match or no key goes on; else it is one more. */
  lemma FirstStopIsLongest(t: Trie, s: seq<int>, hi: nat, prefix: nat)
    requires Ordered(t) && hi <= |s| && IsFirstStop(t, s, hi, prefix)
    ensures var n := Longest(t, s, hi);
            prefix == if n == hi || (n > 0 && !HasLonger(t, s[..n])) then n else n + 1
  {
    hide Ordered, Walk, HasLonger;
    NothingWalked(t, s);
    var n := Longest(t, s, hi);
    StopMeansNoLonger(t, s[..n]);
    if prefix < n {
      if prefix > 0 { NoLongerWalk(t, s, prefix, n); }
    } else if prefix > n {
      assert n + 1 < prefix ==> !IsStop(t, s[..n + 1]);
      assert n > 0 ==> !IsStop(t, s[..n]);
    }
  }

  /** No word goes past it, as documented. */
  lemma KeysEndBefore(t: Trie, s: seq<int>, hi: nat, prefix: nat, e: Entry)
    requires Ordered(t) && hi <= |s| && IsFirstStop(t, s, hi, prefix)
    requires e in Entries(t) && |e.key| <= hi && e.key <= s
    ensures |e.key| <= prefix
  {
    hide Ordered, Walk, Entries, HasLonger;
    FirstStopIsLongest(t, s, hi, prefix);
    assert s[..|e.key|] == e.key;
    WalkDecides(t, e.key);
    assert e.key <= e.key;
  }

  /** If every character that was looked at is mapped, the words reported are the right ones. */
  lemma MappedPrefixReportsWords(transformConstant: int, t: Trie, text: seq<int>, hi: nat, prefix: nat)
    requires Ordered(t) && hi <= |text| && AreCodePoints(text) && IsFirstStop(t, Units(transformConstant, text), hi, prefix)
    requires AllMapped(transformConstant, text[..prefix])
    ensures ReportsWords(transformConstant, t, text, hi)
  {
    hide Ordered, Entries, ReportsWords, IsMapped, Unit, IsStop;
    ReportsWordsIff(transformConstant, t, text, hi);
    var s := Units(transformConstant, text);
    forall e | e in Entries(t) && 1 <= |e.key| <= hi && e.key <= s
      ensures AllMapped(transformConstant, text[..|e.key|])
    {
      KeysEndBefore(t, s, hi, prefix, e);
      assert forall i :: 0 <= i < |e.key| ==> text[..|e.key|][i] == text[..prefix][i];
    }
  }

  lemma NoLongerWalk(t: Trie, s: seq<int>, n: nat, k: nat)
    requires n < k <= |s| && IsStop(t, s[..n])
    ensures Walk(t, s[..k]).None?
  {
    assert s[..k] == s[..n] + s[n..k];
    WalkConcat(t, s[..n], s[n..k]);
    assert s[n..k][0] == s[n];
  }

  /** The words that the text has at start, at most limit of them. */
  method Matches(bytes: seq<Byte>, ghost t: Trie, transformConstant: int, text: seq<int>, start: nat, maxLength: int, limit: nat)
    returns (words: seq<Word>, prefix: nat)
    requires EncodesNode(bytes, 0, t) && Ordered(t) && start <= |text|
    ensures var s := Units(transformConstant, text[start..]);
            var hi := Min(|s|, Max(maxLength, 1));
            && (var all := Words(t, s, 1, hi); words == all[..Min(limit, |all|)])
            && IsFirstStop(t, s, hi, prefix)
            && (var n := Longest(t, s, hi);
                prefix == if n == hi || (n > 0 && !HasLonger(t, s[..n])) then n else n + 1)
  {
    hide EncodesNode, Ordered, Words, Walk, IsFirstStop, Unit, HasLonger;
    words, prefix := FindWords(bytes, t, transformConstant, text, start, maxLength, limit);
    ghost var s := Units(transformConstant, text[start..]);
    FirstStopIsLongest(t, s, Min(|s|, Max(maxLength, 1)), prefix);
  }

  /** The loop over the text. */
  method FindWords(bytes: seq<Byte>, ghost t: Trie, transformConstant: int, text: seq<int>, start: nat, maxLength: int, limit: nat)
    returns (words: seq<Word>, prefix: nat)
    requires EncodesNode(bytes, 0, t) && Ordered(t) && start <= |text|
    ensures var s := Units(transformConstant, text[start..]);
            var hi := Min(|s|, Max(maxLength, 1));
            && (var all := Words(t, s, 1, hi); words == all[..Min(limit, |all|)])
            && IsFirstStop(t, s, hi, prefix)
  {
    hide EncodesNode, Ordered, Words, Walk, WordOf, Step, IsStop, TakenSoFar, OptionResult, Unit, IsStateOf;
    ghost var s := Units(transformConstant, text[start..]);
    ghost var hi := Min(|s|, Max(maxLength, 1));
    ghost var all := Words(t, s, 1, hi);
    var bt := new BytesTrie(bytes);
    words, prefix := [], 0;
    StateAtStart(bt, t, s);
    NothingTaken(all, limit);
    EndOfWords(t, s, hi);
    while start + prefix < |text|
      invariant prefix <= hi && (prefix < hi || prefix == |s|) && bt.bytes == bytes
      invariant bt.IsState(Walk(t, s[..prefix])) && Walk(t, s[..prefix]).Some?
      invariant TakenSoFar(all, words, Words(t, s, prefix + 1, hi), limit)
      invariant forall k :: 0 < k <= prefix ==> !IsStop(t, s[..k])
      decreases |text| - prefix
    {
      var result := NextUnit(bt, t, transformConstant, text[start + prefix], prefix, s);
      WordsSplit(t, s, prefix + 1, hi);
      prefix := prefix + 1;
      ghost var here := s[..prefix];
      WordOfResult(t, here);
      ghost var rest := Words(t, s, prefix + 1, hi);
      if result == FINAL_VALUE || result == INTERMEDIATE_VALUE {
        TakeOne(all, words, Word(|here|, Walk(t, here).value.value.value), rest, limit);
        if |words| < limit {
          var value := bt.GetValue(Walk(t, here).value);
          words := words + [Word(prefix, value)];
        }
        if result == FINAL_VALUE {
          StopEndsWords(t, s, prefix, hi);
          break;
        }
      } else {
        TakeNone(all, words, rest, limit);
        if result == NO_MATCH {
          StopEndsWords(t, s, prefix, hi);
          break;
        }
        WalkKeepsOrder(t, here);
        NoValueGoesOn(t, here);
      }
      if prefix >= maxLength {
        break;
      }
    }
    AllTaken(all, words, limit);
  }

  /** "ax" against the only word "ab": the longest match is "a", but the prefix is reported as 2. */
  method MismatchIsCounted() returns (words: seq<Word>, prefix: nat, ghost t: Trie)
    ensures Ordered(t) && Entries(t) == [Entry([0x61, 0x62], 1)]
    ensures Longest(t, Units(0, [0x61, 0x78]), 2) == 1 && words == [] && prefix == 2
  {
    t := Trie(None, Linear([0x61, 0x62], Trie(Some(1), End)));
    var bytes: seq<Byte> := [0x11, 0x61, 0x62, 0x23];
    assert EncodesNode(bytes, 3, Trie(Some(1), End));
    AbEntries(t);
    ghost var s := Units(0, [0x61, 0x78]);
    assert s == [0x61, 0x78] && [0x61, 0x78][0..] == [0x61, 0x78];
    words, prefix := Matches(bytes, t, 0, [0x61, 0x78], 0, 2, 1);
    AbWalks(t, s);
  }

  lemma AbEntries(t: Trie)
    requires t == Trie(None, Linear([0x61, 0x62], Trie(Some(1), End)))
    ensures Entries(t) == [Entry([0x61, 0x62], 1)]
  {
    assert Entries(Trie(Some(1), End)) == [Entry([], 1)];
    assert [0x61, 0x62] + [] == [0x61, 0x62];
  }

  lemma AbWalks(t: Trie, s: seq<int>)
    requires t == Trie(None, Linear([0x61, 0x62], Trie(Some(1), End))) && s == [0x61, 0x78]
    ensures Longest(t, s, 2) == 1 && HasLonger(t, s[..1]) && Words(t, s, 1, 2) == []
  {
    var c := Trie(None, Linear([0x62], Trie(Some(1), End)));
    assert s[..1] == [0x61] && s[..2] == s && s[1..] == [0x78];
    assert Step(t, 0x61) == Some(c) && Walk(c, []) == Some(c);
    assert Walk(t, [0x61]) == Some(c);
    assert Walk(t, s) == Walk(c, [0x78]) == None;
    AbEntries(t);
    assert [0x61] < Entries(t)[0].key;
    assert Words(t, s, 3, 2) == [] && WordOf(t, s[..2]) == [] && WordOf(t, s[..1]) == [];
    assert Words(t, s, 2, 2) == [];
  }

  lemma NoValueGoesOn(t: Trie, s: seq<int>)
    requires Ordered(t) && OptionResult(Walk(t, s)) == NO_VALUE
    ensures Walk(t, s).Some? && !IsStop(t, s)
  {
    WalkKeepsOrder(t, s);
    NoValueIsNoStop(Walk(t, s).value);
  }

  lemma NothingTaken(all: seq<Word>, limit: nat)
    ensures TakenSoFar(all, [], all, limit)
  {
  }

  lemma EndOfWords(t: Trie, s: seq<int>, hi: nat)
    requires hi <= |s|
    ensures Words(t, s, hi + 1, hi) == []
  {
  }
}
