/**
  * The three-word look-ahead of the Thai, Lao, Burmese and Khmer break engines, with its
  * rotating cache of candidate words. Text and lengths are in BMP code units.
  */
module LookAheadBreaks {
  const LOOKAHEAD := 3
  const ROOT_COMBINE_THRESHOLD := 3
  const PREFIX_COMBINE_THRESHOLD := 3
  const MIN_WORD_SPAN := 4
  const POSSIBLE_WORD_LIST_MAX := 20
  const THAI_PAIYANNOI := 0x0E2F
  const THAI_MAIYAMOK := 0x0E46

  /** What the dictionary matcher reports at a position: word lengths, shortest first, and the matched prefix. */
  datatype Found = Found(lengths: seq<nat>, prefix: nat)

  /**
    * The text up to the end of the range, the character after it (negative at the end of the text), the
    * dictionary at each position, and the character classes. Only the Thai engine looks for suffixes.
    */
  datatype Engine = Engine(
    text: seq<int>, after: int, dict: seq<Found>,
    marks: set<int>, enders: set<int>, beginners: set<int>, isThai: bool)

  function CharAt(e: Engine, p: nat): int
    requires p <= |e.text|
  {
    if p < |e.text| then e.text[p] else e.after
  }

  /** Not enough characters for two words. */
  predicate IsTooShort(e: Engine, rangeStart: nat) {
    if e.isThai then rangeStart + MIN_WORD_SPAN >= |e.text| else |e.text| - rangeStart < MIN_WORD_SPAN
  }

  function RangeEnd(e: Engine): nat {
    |e.text|
  }

  ghost predicate IsEngine(e: Engine) {
    && |e.dict| == |e.text|
    && forall p :: 0 <= p < |e.text| ==> AreLengths(e.dict[p].lengths, |e.text| - p)
  }

  ghost predicate AreLengths(ls: seq<nat>, limit: int) {
    && |ls| <= POSSIBLE_WORD_LIST_MAX
    && (forall k :: 0 <= k < |ls| ==> 1 <= ls[k] <= limit)
    && (forall k, l :: 0 <= k < l < |ls| ==> ls[k] < ls[l])
  }

  /** The words at p. */
  function WordsAt(e: Engine, p: nat): seq<nat>
    requires IsEngine(e)
  {
    if p < |e.text| then e.dict[p].lengths else []
  }

  // ---------- which word is accepted ----------

  /** From q on there are two more words, or words up to the end of the range. */
  ghost predicate GoesOn(e: Engine, q: nat)
    requires IsEngine(e)
  {
    || q >= RangeEnd(e)
    || exists d :: 0 <= d < |WordsAt(e, q)| && (q + WordsAt(e, q)[d] >= RangeEnd(e) || WordsAt(e, q + WordsAt(e, q)[d]) != [])
  }

  ghost predicate NoneGoesOn(e: Engine, p: nat, lo: int, hi: int)
    requires IsEngine(e) && 0 <= lo && hi <= |WordsAt(e, p)|
  {
    forall j :: lo <= j < hi ==> !GoesOn(e, p + WordsAt(e, p)[j])
  }

  ghost predicate NoneIsFollowed(e: Engine, p: nat, lo: int, hi: int)
    requires IsEngine(e) && 0 <= lo && hi <= |WordsAt(e, p)|
  {
    forall j :: lo <= j < hi ==> WordsAt(e, p + WordsAt(e, p)[j]) == []
  }

  /** The longest candidate that goes on; else the shortest one followed by a word; else the longest. */
  ghost predicate IsChoice(e: Engine, p: nat, k: int)
    requires IsEngine(e)
  {
    var n := |WordsAt(e, p)|;
    && 0 <= k < n
    && NoneGoesOn(e, p, k + 1, n)
    && (|| GoesOn(e, p + WordsAt(e, p)[k])
        || (&& NoneGoesOn(e, p, 0, n)
            && (|| (NoneIsFollowed(e, p, 0, k) && WordsAt(e, p + WordsAt(e, p)[k]) != [])
                || (NoneIsFollowed(e, p, 0, n) && k == n - 1))))
  }

  ghost predicate IsAccepted(e: Engine, p: nat, w: nat)
    requires IsEngine(e)
  {
    if WordsAt(e, p) == [] then w == 0
    else exists k :: IsChoice(e, p, k) && w == WordsAt(e, p)[k]
  }

  // ---------- what one iteration of the engine does ----------

  /** A place where a word may begin after skipped characters. */
  ghost predicate IsPlausible(e: Engine, r: nat)
    requires IsEngine(e) && 0 < r < |e.text|
  {
    e.text[r - 1] in e.enders && e.text[r] in e.beginners && WordsAt(e, r) != []
  }

  /** The first plausible place after q, or the end of the range. */
  ghost predicate IsResync(e: Engine, q: nat, r: nat)
    requires IsEngine(e)
  {
    && q < r <= RangeEnd(e)
    && (r < RangeEnd(e) ==> IsPlausible(e, r))
    && (forall k :: q < k < r ==> !IsPlausible(e, k))
  }

  /** A short word is joined with a following non-word. */
  ghost predicate NeedsResync(e: Engine, p: nat, w: nat)
    requires IsEngine(e)
  {
    && p + w < RangeEnd(e) && w < ROOT_COMBINE_THRESHOLD
    && WordsAt(e, p + w) == [] && (w == 0 || e.dict[p + w].prefix < PREFIX_COMBINE_THRESHOLD)
  }

  ghost predicate IsCombined(e: Engine, p: nat, w: nat, x: nat)
    requires IsEngine(e)
  {
    if NeedsResync(e, p, w) then IsResync(e, p + w, x) else x == p + w
  }

  /** The first position from x on that is not a combining mark. */
  ghost predicate IsAfterMarks(e: Engine, x: nat, q: nat) {
    && x <= q <= RangeEnd(e)
    && (forall k :: x <= k < q ==> e.text[k] in e.marks)
    && (q < RangeEnd(e) ==> e.text[q] !in e.marks)
  }

  predicate IsSuffix(c: int) {
    c == THAI_PAIYANNOI || c == THAI_MAIYAMOK
  }

  /** An elision sign belongs to the word before it, unless that ends in a suffix already. */
  predicate TakesPaiyannoi(e: Engine, y: nat)
    requires 0 < y < |e.text|
  {
    e.text[y] == THAI_PAIYANNOI && !IsSuffix(e.text[y - 1])
  }

  /** So does a repetition sign, also one after the elision sign, unless it follows another one. */
  predicate TakesMaiyamok(e: Engine, y: nat)
    requires 0 < y <= |e.text|
  {
    CharAt(e, y) == THAI_MAIYAMOK && e.text[y - 1] != THAI_MAIYAMOK
  }

  /** Where the word that ends at y ends with its suffixes; a word of the dictionary has none before it. */
  ghost function SuffixEnd(e: Engine, y: nat): (q: nat)
    requires IsEngine(e) && 0 < y <= |e.text|
    ensures y <= q <= y + 2
  {
    if !e.isThai || y == |e.text| || WordsAt(e, y) != [] then y
    else if TakesPaiyannoi(e, y) then
      if TakesMaiyamok(e, y + 1) then y + 2 else y + 1
    else if TakesMaiyamok(e, y) then y + 1
    else y
  }

  ghost predicate IsIteration(e: Engine, p: nat, q: nat)
    requires IsEngine(e)
  {
    exists w: nat, x: nat, y: nat :: IsIterationBy(e, p, w, x, y, q)
  }

  ghost predicate IsIterationBy(e: Engine, p: nat, w: nat, x: nat, y: nat, q: nat)
    requires IsEngine(e)
  {
    IsAccepted(e, p, w) && IsCombined(e, p, w, x) && IsAfterMarks(e, x, y) && 0 < y && q == SuffixEnd(e, y)
  }

  /** Suffixes lead at most one character past the range, and only in the Thai engine. */
  lemma SuffixStays(e: Engine, y: nat)
    requires IsEngine(e) && 0 < y <= |e.text|
    ensures SuffixEnd(e, y) <= |e.text| + 1
    ensures SuffixEnd(e, y) == |e.text| + 1 ==>
      e.isThai && e.after == THAI_MAIYAMOK && e.text[|e.text| - 1] == THAI_PAIYANNOI
  {
  }

  // ---------- what that means for the breaks ----------

  /** Words in a row from p on. */
  ghost predicate AreWordsFrom(e: Engine, p: nat, lengths: seq<nat>)
    requires IsEngine(e)
    decreases |lengths|
  {
    lengths == [] || (lengths[0] in WordsAt(e, p) && AreWordsFrom(e, p + lengths[0], lengths[1..]))
  }

  function Sum(lengths: seq<nat>): nat {
    if lengths == [] then 0 else lengths[0] + Sum(lengths[1..])
  }

  /** A word that is the first of three, or the first of at most three up to the end of the range. */
  ghost predicate IsFirstOfThree(e: Engine, p: nat, w: nat)
    requires IsEngine(e)
  {
    exists lengths :: AreWordsFrom(e, p, [w] + lengths) && (|lengths| == 2 || (|lengths| < 2 && p + w + Sum(lengths) == |e.text|))
  }

  ghost predicate IsFirstOfTwo(e: Engine, p: nat, w: nat)
    requires IsEngine(e)
  {
    exists v: nat :: AreWordsFrom(e, p, [w, v])
  }

  lemma TwoWords(e: Engine, p: nat, a: nat, b: nat)
    requires IsEngine(e)
    ensures AreWordsFrom(e, p, [a]) <==> a in WordsAt(e, p)
    ensures AreWordsFrom(e, p, [a, b]) <==> a in WordsAt(e, p) && b in WordsAt(e, p + a)
    ensures Sum([a]) == a && Sum([]) == 0
  {
    assert [a][1..] == [] && [a, b][1..] == [b] && [b][1..] == [];
    assert AreWordsFrom(e, p + a, [b]) <==> b in WordsAt(e, p + a);
  }

  lemma ThreeWords(e: Engine, p: nat, a: nat, b: nat, c: nat)
    requires IsEngine(e)
    ensures AreWordsFrom(e, p, [a, b, c]) <==> a in WordsAt(e, p) && b in WordsAt(e, p + a) && c in WordsAt(e, p + a + b)
  {
    assert [a, b, c][1..] == [b, c];
    TwoWords(e, p + a, b, c);
  }

  /** From the end of a word the text goes on exactly if it is the first of three. */
  lemma GoesOnIff(e: Engine, p: nat, w: nat)
    requires IsEngine(e) && w in WordsAt(e, p)
    ensures GoesOn(e, p + w) <==> IsFirstOfThree(e, p, w)
  {
    hide IsEngine, WordsAt, Sum;
    TwoWords(e, p, w, 0);
    WordsFitRange(e, p, w);
    if GoesOn(e, p + w) {
      if p + w >= |e.text| {
        assert [w] + [] == [w];
      } else {
        var d :| 0 <= d < |WordsAt(e, p + w)| && (p + w + WordsAt(e, p + w)[d] >= |e.text| || WordsAt(e, p + w + WordsAt(e, p + w)[d]) != []);
        var v := WordsAt(e, p + w)[d];
        WordsFitRange(e, p + w, v);
        TwoWords(e, p, w, v);
        TwoWords(e, p, v, 0);
        assert [w] + [v] == [w, v];
        if p + w + v < |e.text| {
          var u := WordsAt(e, p + w + v)[0];
          ThreeWords(e, p, w, v, u);
          assert [w] + [v, u] == [w, v, u];
        }
      }
    }
    if IsFirstOfThree(e, p, w) {
      var lengths :| AreWordsFrom(e, p, [w] + lengths) && (|lengths| == 2 || (|lengths| < 2 && p + w + Sum(lengths) == |e.text|));
      FirstOfThreeGoesOn(e, p, w, lengths);
    }
  }

  lemma WordsFitRange(e: Engine, p: nat, w: nat)
    requires IsEngine(e) && w in WordsAt(e, p)
    ensures p < |e.text| && 1 <= w && p + w <= |e.text|
  {
  }

  lemma FirstOfThreeGoesOn(e: Engine, p: nat, w: nat, lengths: seq<nat>)
    requires IsEngine(e) && AreWordsFrom(e, p, [w] + lengths) && (|lengths| == 2 || (|lengths| < 2 && p + w + Sum(lengths) == |e.text|))
    ensures GoesOn(e, p + w)
  {
    hide IsEngine;
    if |lengths| == 0 {
      assert lengths == [];
    } else {
      var v := lengths[0];
      if |lengths| == 1 {
        assert lengths == [v] && [w] + lengths == [w, v];
        TwoWords(e, p, w, v);
        TwoWords(e, p, v, 0);
      } else {
        assert [w] + lengths == [w, v, lengths[1]];
        ThreeWords(e, p, w, v, lengths[1]);
      }
      var d :| 0 <= d < |WordsAt(e, p + w)| && WordsAt(e, p + w)[d] == v;
    }
  }

  lemma FirstOfTwoIff(e: Engine, p: nat, w: nat)
    requires IsEngine(e) && w in WordsAt(e, p)
    ensures WordsAt(e, p + w) != [] <==> IsFirstOfTwo(e, p, w)
  {
    hide IsEngine, AreWordsFrom, WordsAt;
    if WordsAt(e, p + w) != [] {
      TwoWords(e, p, w, WordsAt(e, p + w)[0]);
    }
    if v: nat :| AreWordsFrom(e, p, [w, v]) {
      TwoWords(e, p, w, v);
    }
  }

  /** The longest first word of three, else the shortest first word of two, else the longest word. */
  ghost predicate IsBestWord(e: Engine, p: nat, w: nat)
    requires IsEngine(e)
  {
    && w in WordsAt(e, p)
    && if exists v: nat :: IsFirstOfThree(e, p, v) then
         IsFirstOfThree(e, p, w) && forall v: nat :: IsFirstOfThree(e, p, v) ==> v <= w
       else if exists v: nat :: IsFirstOfTwo(e, p, v) then
         IsFirstOfTwo(e, p, w) && forall v: nat :: IsFirstOfTwo(e, p, v) ==> w <= v
       else forall v: nat :: v in WordsAt(e, p) ==> v <= w
  }

  /** That is the word accepted, if there are any. */
  lemma AcceptedIff(e: Engine, p: nat, w: nat)
    requires IsEngine(e)
    ensures IsAccepted(e, p, w) <==> if WordsAt(e, p) == [] then w == 0 else IsBestWord(e, p, w)
  {
    hide IsEngine, WordsAt, IsBestWord, NoneGoesOn, NoneIsFollowed, GoesOn;
    var words := WordsAt(e, p);
    if words != [] {
      if IsAccepted(e, p, w) {
        var k :| IsChoice(e, p, k) && w == words[k];
        ChoiceIs(e, p, k);
      }
      if IsBestWord(e, p, w) {
        var k := BestIs(e, p, w);
      }
    }
  }

  lemma WordsAscend(e: Engine, p: nat)
    requires IsEngine(e)
    ensures forall j, k :: 0 <= j < k < |WordsAt(e, p)| ==> WordsAt(e, p)[j] < WordsAt(e, p)[k]
  {
  }

  /** First ones of two or three are among the words, and are those that are followed or go on. */
  lemma FirstWords(e: Engine, p: nat)
    requires IsEngine(e)
    ensures forall v: nat :: IsFirstOfThree(e, p, v) || IsFirstOfTwo(e, p, v) ==> v in WordsAt(e, p)
    ensures forall k :: 0 <= k < |WordsAt(e, p)| ==>
              && (GoesOn(e, p + WordsAt(e, p)[k]) <==> IsFirstOfThree(e, p, WordsAt(e, p)[k]))
              && (WordsAt(e, p + WordsAt(e, p)[k]) != [] <==> IsFirstOfTwo(e, p, WordsAt(e, p)[k]))
  {
    hide IsEngine, GoesOn, WordsAt, IsFirstOfThree, IsFirstOfTwo;
    forall v: nat | IsFirstOfThree(e, p, v) || IsFirstOfTwo(e, p, v) ensures v in WordsAt(e, p) {
      FirstIsWord(e, p, v);
    }
    forall k | 0 <= k < |WordsAt(e, p)|
      ensures GoesOn(e, p + WordsAt(e, p)[k]) <==> IsFirstOfThree(e, p, WordsAt(e, p)[k])
      ensures WordsAt(e, p + WordsAt(e, p)[k]) != [] <==> IsFirstOfTwo(e, p, WordsAt(e, p)[k])
    {
      GoesOnIff(e, p, WordsAt(e, p)[k]);
      FirstOfTwoIff(e, p, WordsAt(e, p)[k]);
    }
  }

  lemma FirstIsWord(e: Engine, p: nat, v: nat)
    requires IsEngine(e) && (IsFirstOfThree(e, p, v) || IsFirstOfTwo(e, p, v))
    ensures v in WordsAt(e, p)
  {
    hide IsEngine, WordsAt;
    if IsFirstOfThree(e, p, v) {
      var lengths :| AreWordsFrom(e, p, [v] + lengths);
    }
  }

  lemma ChoiceIs(e: Engine, p: nat, k: int)
    requires IsEngine(e) && IsChoice(e, p, k)
    ensures IsBestWord(e, p, WordsAt(e, p)[k])
  {
    hide IsEngine, GoesOn, IsFirstOfThree, IsFirstOfTwo, WordsAt;
    WordsAscend(e, p);
    FirstWords(e, p);
  }

  lemma BestIs(e: Engine, p: nat, w: nat) returns (k: int)
    requires IsEngine(e) && IsBestWord(e, p, w)
    ensures IsChoice(e, p, k) && w == WordsAt(e, p)[k]
  {
    hide IsEngine, GoesOn, IsFirstOfThree, IsFirstOfTwo, WordsAt;
    WordsAscend(e, p);
    FirstWords(e, p);
    var words := WordsAt(e, p);
    var n := |words|;
    k :| 0 <= k < n && words[k] == w;
    if exists v: nat :: IsFirstOfThree(e, p, v) {
      assert NoneGoesOn(e, p, k + 1, n);
    } else {
      forall j | 0 <= j < n ensures !GoesOn(e, p + words[j]) {
        assert !IsFirstOfThree(e, p, words[j]);
      }
      assert NoneGoesOn(e, p, 0, n);
      if exists v: nat :: IsFirstOfTwo(e, p, v) {
        assert NoneIsFollowed(e, p, 0, k);
      } else {
        forall j | 0 <= j < n ensures WordsAt(e, p + words[j]) == [] {
          assert !IsFirstOfTwo(e, p, words[j]);
        }
        assert words[n - 1] in words;
      }
    }
  }

  /** From x on there are only combining marks and, in Thai, the elision and repetition signs. */
  ghost predicate OnlyMarksAndSigns(e: Engine, x: nat, q: nat) {
    forall k :: x <= k < q && k < |e.text| ==> e.text[k] in e.marks || (e.isThai && (e.text[k] == 0x0E2F || e.text[k] == 0x0E46))
  }

  /** Nothing but marks and signs is added to a word of three characters or more. */
  lemma LongWordStands(e: Engine, p: nat, w: nat, q: nat)
    requires IsEngine(e) && p < RangeEnd(e) && IsAccepted(e, p, w) && IsIteration(e, p, q) && w >= 3
    ensures p + w <= q && OnlyMarksAndSigns(e, p + w, q)
  {
    hide IsAccepted, IsEngine, NeedsResync;
    var w', x, y :| IsIterationBy(e, p, w', x, y, q);
    AcceptedIsUnique(e, p, w, w');
    LongNeedsNoResync(e, p, w);
    SignsOnly(e, y);
  }

  lemma LongNeedsNoResync(e: Engine, p: nat, w: nat)
    requires IsEngine(e) && w >= 3
    ensures !NeedsResync(e, p, w)
  {
  }

  /** Nor to a shorter word that is followed by a word, or by three characters that begin one. */
  lemma FollowedWordStands(e: Engine, p: nat, w: nat, q: nat)
    requires IsEngine(e) && IsAccepted(e, p, w) && IsIteration(e, p, q) && 0 < w && p + w < RangeEnd(e)
    requires WordsAt(e, p + w) != [] || e.dict[p + w].prefix >= 3
    ensures p + w <= q && OnlyMarksAndSigns(e, p + w, q)
  {
    hide IsAccepted;
    var w', x, y :| IsIterationBy(e, p, w', x, y, q);
    AcceptedIsUnique(e, p, w, w');
    SignsOnly(e, y);
  }

  /** But a word of one or two characters, or none, takes the text that follows, up to the first place where a word may begin. */
  lemma ShortWordTakesNonWord(e: Engine, p: nat, w: nat, q: nat)
    requires IsEngine(e) && IsAccepted(e, p, w) && IsIteration(e, p, q) && w <= 2 && p + w < RangeEnd(e)
    requires WordsAt(e, p + w) == [] && (w == 0 || e.dict[p + w].prefix <= 2)
    ensures exists x: nat :: p + w < x <= q && IsResync(e, p + w, x) && OnlyMarksAndSigns(e, x, q)
  {
    hide IsAccepted;
    var w', x, y :| IsIterationBy(e, p, w', x, y, q);
    AcceptedIsUnique(e, p, w, w');
    SignsOnly(e, y);
    assert IsResync(e, p + w, x) && OnlyMarksAndSigns(e, x, q);
  }

  /** The signs taken after a word: none, one of them, or an elision sign and a repetition sign. */
  lemma SignsOnly(e: Engine, y: nat)
    requires IsEngine(e) && 0 < y <= |e.text|
    ensures var q := SuffixEnd(e, y);
            && (forall k :: y <= k < q && k < |e.text| ==> e.isThai && (e.text[k] == 0x0E2F || e.text[k] == 0x0E46))
            && (q == y + 2 ==> e.text[y] == 0x0E2F && CharAt(e, y + 1) == 0x0E46)
            && (q > y ==> y < |e.text| && WordsAt(e, y) == [])
            && (q > y && e.text[y] == 0x0E2F ==> e.text[y - 1] != 0x0E2F && e.text[y - 1] != 0x0E46)
            && (q > y && e.text[y] == 0x0E46 ==> e.text[y - 1] != 0x0E46)
  {
  }

  /**
    * No Thai word ends before a sign that could belong to it: before an elision sign only after another sign,
    * and before a repetition sign only after another one, unless a word of the dictionary begins there.
    */
  lemma NoBreakBeforeSign(e: Engine, p: nat, q: nat)
    requires IsEngine(e) && e.isThai && IsIteration(e, p, q) && 0 < q < |e.text| && WordsAt(e, q) == []
    ensures e.text[q] == 0x0E2F ==> e.text[q - 1] == 0x0E2F || e.text[q - 1] == 0x0E46
    ensures e.text[q] == 0x0E46 ==> e.text[q - 1] == 0x0E46
  {
    hide IsAccepted, IsCombined, IsAfterMarks;
    var w, x, y :| IsIterationBy(e, p, w, x, y, q);
  }

  /** Where there are no such signs, no word ends before a combining mark. */
  lemma NoBreakBeforeMark(e: Engine, p: nat, q: nat)
    requires IsEngine(e) && !e.isThai && IsIteration(e, p, q) && q < |e.text|
    ensures e.text[q] !in e.marks
  {
    var w, x, y :| IsIterationBy(e, p, w, x, y, q);
  }

  /** Two characters that begin no word are passed over, up to one that may end a word before one that begins one. */
  lemma ResyncExample(q: nat)
    ensures var e := Engine([1, 2, 3, 4], -1, [Found([], 0), Found([], 0), Found([2], 2), Found([], 0)], {}, {2}, {3}, false);
            IsEngine(e) && (IsIteration(e, 0, q) <==> q == 2)
  {
    var e := Engine([1, 2, 3, 4], -1, [Found([], 0), Found([], 0), Found([2], 2), Found([], 0)], {}, {2}, {3}, false);
    assert IsAccepted(e, 0, 0) && NeedsResync(e, 0, 0);
    assert !IsPlausible(e, 1) && IsPlausible(e, 2) && IsResync(e, 0, 2);
    assert IsIterationBy(e, 0, 0, 2, 2, 2);
    if IsIteration(e, 0, q) {
      IterationIsUnique(e, 0, 2, q);
    }
  }

  /** Four characters are enough for two words, but the Thai engine wants five. */
  lemma TooShortIs(e: Engine, rangeStart: nat)
    requires rangeStart <= |e.text|
    ensures IsTooShort(e, rangeStart) <==> |e.text| - rangeStart <= if e.isThai then 4 else 3
  {
  }

  lemma AcceptedIsUnique(e: Engine, p: nat, w: nat, w': nat)
    requires IsEngine(e) && IsAccepted(e, p, w) && IsAccepted(e, p, w')
    ensures w == w'
  {
    hide NoneGoesOn, NoneIsFollowed, GoesOn;
    if WordsAt(e, p) != [] {
      var k :| IsChoice(e, p, k) && w == WordsAt(e, p)[k];
      var k' :| IsChoice(e, p, k') && w' == WordsAt(e, p)[k'];
      if k < k' {
        ChoiceIsUnique(e, p, k, k');
      } else if k' < k {
        ChoiceIsUnique(e, p, k', k);
      }
    }
  }

  lemma ChoiceIsUnique(e: Engine, p: nat, k: int, k': int)
    requires IsEngine(e) && k < k' && IsChoice(e, p, k)
    ensures !IsChoice(e, p, k')
  {
    hide GoesOn;
  }

  lemma ResyncIsUnique(e: Engine, q: nat, r: nat, r': nat)
    requires IsEngine(e) && IsResync(e, q, r) && IsResync(e, q, r')
    ensures r == r'
  {
  }

  /** The break after p is determined by the text and the dictionary. */
  lemma IterationIsUnique(e: Engine, p: nat, q: nat, q': nat)
    requires IsEngine(e) && IsIteration(e, p, q) && IsIteration(e, p, q')
    ensures q == q'
  {
    hide IsAccepted, NeedsResync, IsResync, SuffixEnd;
    var w: nat, x: nat, y: nat :| IsIterationBy(e, p, w, x, y, q);
    var w': nat, x': nat, y': nat :| IsIterationBy(e, p, w', x', y', q');
    AcceptedIsUnique(e, p, w, w');
    if NeedsResync(e, p, w) {
      ResyncIsUnique(e, p + w, x, x');
    }
  }

  // ---------- the candidate cache ----------

  class PossibleWord {
    var count: nat
    var prefix: nat
    var offset: int
    var mark: int
    var current: int
    var lengths: seq<nat>

    /** Either nothing has been looked up yet or the slot holds what a fresh look-up at offset gives. */
    ghost predicate IsFresh(e: Engine)
      requires IsEngine(e)
      reads this
    {
      || offset == -1
      || (&& 0 <= offset < |e.text|
          && lengths == WordsAt(e, offset) && count == |lengths| && prefix == e.dict[offset].prefix)
    }

    constructor ()
      ensures offset == -1
    {
      count, prefix, offset, mark, current, lengths := 0, 0, -1, 0, 0, [];
    }

    /** Looks the words at start up, unless they are in the slot; the text is left after the longest. */
    method Candidates(e: Engine, start: nat) returns (n: nat, pos: nat)
      requires IsEngine(e) && IsFresh(e) && start < RangeEnd(e)
      modifies this
      ensures IsFresh(e) && offset == start
      ensures n == |WordsAt(e, start)| && current == mark == n - 1
      ensures pos == if n > 0 then start + WordsAt(e, start)[n - 1] else start
    {
      pos := start;
      if start != offset {
        offset := start;
        lengths, prefix := e.dict[start].lengths, e.dict[start].prefix;
        count := |lengths|;
      }
      if count > 0 {
        pos := start + lengths[count - 1];
      }
      current := count - 1;
      mark := current;
      n := count;
    }

    method AcceptMarked() returns (wordLength: nat, pos: nat)
      requires 0 <= mark < |lengths| && offset >= 0
      ensures wordLength == lengths[mark] && pos == offset + wordLength
    {
      return lengths[mark], offset + lengths[mark];
    }

    method BackUp(pos: nat) returns (backedUp: bool, pos': nat)
      requires 0 <= current < |lengths| && offset >= 0
      modifies this`current
      ensures backedUp <==> old(current) > 0
      ensures current == if backedUp then old(current) - 1 else old(current)
      ensures pos' == if backedUp then offset + lengths[current] else pos
    {
      if current > 0 {
        current := current - 1;
        return true, offset + lengths[current];
      }
      return false, pos;
    }

    method MarkCurrent()
      modifies this`mark
      ensures mark == current
    {
      mark := current;
    }
  }

  // ---------- accepting a word ----------

  /** Whether a word follows at q, and whether one more word or the end of the range follows that. */
  method TryContinuation(e: Engine, w1: PossibleWord, w2: PossibleWord, q: nat) returns (followed: bool, good: bool)
    requires IsEngine(e) && w1 != w2 && w1.IsFresh(e) && w2.IsFresh(e) && q < RangeEnd(e)
    modifies w1, w2
    ensures w1.IsFresh(e) && w2.IsFresh(e)
    ensures followed <==> WordsAt(e, q) != []
    ensures good <==> GoesOn(e, q)
  {
    hide IsEngine;
    var n, pos := w1.Candidates(e, q);
    if n == 0 {
      return false, false;
    }
    ghost var ws := WordsAt(e, q);
    WordsFit(e, q);
    if pos >= RangeEnd(e) {
      return true, true;
    }
    while true
      invariant w1.IsFresh(e) && w2.IsFresh(e) && w1.offset == q
      invariant 0 <= w1.current < n && pos == q + ws[w1.current] < RangeEnd(e)
      invariant forall d :: w1.current < d < n ==> WordsAt(e, q + ws[d]) == []
      decreases w1.current
    {
      var m, _ := w2.Candidates(e, pos);
      if m != 0 {
        return true, true;
      }
      var backedUp;
      backedUp, pos := w1.BackUp(pos);
      if !backedUp {
        return true, false;
      }
    }
  }

  /** Accepts one of the words at p, if there are any; the text is left after it. */
  method FindWord(e: Engine, w0: PossibleWord, w1: PossibleWord, w2: PossibleWord, p: nat) returns (wordLength: nat, pos: nat)
    requires IsEngine(e) && w0 != w1 && w0 != w2 && w1 != w2 && p < RangeEnd(e)
    requires w0.IsFresh(e) && w1.IsFresh(e) && w2.IsFresh(e)
    modifies w0, w1, w2
    ensures w0.IsFresh(e) && w1.IsFresh(e) && w2.IsFresh(e)
    ensures IsAccepted(e, p, wordLength) && pos == p + wordLength <= RangeEnd(e)
    ensures wordLength == 0 <==> WordsAt(e, p) == []
  {
    var n;
    n, pos := w0.Candidates(e, p);
    wordLength := 0;
    WordsFit(e, p);
    if n == 1 {
      wordLength, pos := w0.AcceptMarked();
      OnlyChoice(e, p);
    } else if n > 1 {
      if pos < RangeEnd(e) {
        LookAhead(e, w0, w1, w2, p, pos);
      } else {
        assert IsChoice(e, p, n - 1);
      }
      wordLength, pos := w0.AcceptMarked();
    }
  }

  lemma WordsFit(e: Engine, p: nat)
    requires IsEngine(e)
    ensures forall k :: 0 <= k < |WordsAt(e, p)| ==> 1 <= WordsAt(e, p)[k] <= |e.text| - p
    ensures forall k :: 0 <= k < |WordsAt(e, p)| - 1 ==> p + WordsAt(e, p)[k] < |e.text|
  {
    if p < |e.text| {
      var ws := e.dict[p].lengths;
      assert AreLengths(ws, |e.text| - p);
      forall k | 0 <= k < |ws| - 1 ensures p + ws[k] < |e.text| {
        assert ws[k] < ws[|ws| - 1];
      }
    }
  }

  lemma OnlyChoice(e: Engine, p: nat)
    requires IsEngine(e) && |WordsAt(e, p)| == 1
    ensures IsChoice(e, p, 0)
  {
  }

  /** The candidates above k have been tried in vain; this is the one marked then. */
  ghost predicate IsMarkedAfter(e: Engine, p: nat, k: int, mark: int)
    requires IsEngine(e) && -1 <= k
  {
    var n := |WordsAt(e, p)|;
    && k < n && NoneGoesOn(e, p, k + 1, n)
    && (|| (NoneIsFollowed(e, p, k + 1, n) && mark == n - 1)
        || (k < mark < n && NoneIsFollowed(e, p, k + 1, mark) && WordsAt(e, p + WordsAt(e, p)[mark]) != []))
  }

  lemma MarkedIsChoice(e: Engine, p: nat, mark: int)
    requires IsEngine(e) && IsMarkedAfter(e, p, -1, mark) && WordsAt(e, p) != []
    ensures IsChoice(e, p, mark)
  {
    hide GoesOn;
  }

  lemma MarkedNext(e: Engine, p: nat, k: int, mark: int)
    requires IsEngine(e) && 0 <= k && IsMarkedAfter(e, p, k, mark) && !GoesOn(e, p + WordsAt(e, p)[k])
    ensures IsMarkedAfter(e, p, k - 1, if WordsAt(e, p + WordsAt(e, p)[k]) != [] then k else mark)
  {
    hide GoesOn, IsEngine;
    var n := |WordsAt(e, p)|;
    assert NoneGoesOn(e, p, k, n) by {
      OneMoreFails(e, p, k, n);
    }
    if WordsAt(e, p + WordsAt(e, p)[k]) != [] {
      assert NoneIsFollowed(e, p, k, k);
    } else if NoneIsFollowed(e, p, k + 1, n) && mark == n - 1 {
      OneMoreAlone(e, p, k, n);
    } else {
      OneMoreAlone(e, p, k, mark);
    }
  }

  lemma OneMoreFails(e: Engine, p: nat, k: int, n: int)
    requires IsEngine(e) && 0 <= k < n <= |WordsAt(e, p)| && NoneGoesOn(e, p, k + 1, n)
    requires !GoesOn(e, p + WordsAt(e, p)[k])
    ensures NoneGoesOn(e, p, k, n)
  {
    hide GoesOn, IsEngine;
  }

  lemma OneMoreAlone(e: Engine, p: nat, k: int, n: int)
    requires IsEngine(e) && 0 <= k < n <= |WordsAt(e, p)| && NoneIsFollowed(e, p, k + 1, n)
    requires WordsAt(e, p + WordsAt(e, p)[k]) == []
    ensures NoneIsFollowed(e, p, k, n)
  {
    hide IsEngine;
  }

  lemma GoodIsChoice(e: Engine, p: nat, k: int, mark: int)
    requires IsEngine(e) && 0 <= k && IsMarkedAfter(e, p, k, mark) && GoesOn(e, p + WordsAt(e, p)[k])
    ensures IsChoice(e, p, k)
  {
  }

  /** Marks the candidate that takes us forward the most words. */
  method LookAhead(e: Engine, w0: PossibleWord, w1: PossibleWord, w2: PossibleWord, p: nat, pos0: nat)
    requires IsEngine(e) && w0 != w1 && w0 != w2 && w1 != w2 && p < RangeEnd(e)
    requires w0.IsFresh(e) && w1.IsFresh(e) && w2.IsFresh(e)
    requires w0.offset == p && w0.current == w0.mark == |WordsAt(e, p)| - 1 && WordsAt(e, p) != []
    requires pos0 == p + WordsAt(e, p)[w0.current] < RangeEnd(e)
    modifies w0, w1, w2
    ensures w0.IsFresh(e) && w1.IsFresh(e) && w2.IsFresh(e) && w0.offset == p
    ensures IsChoice(e, p, w0.mark)
  {
    hide GoesOn, IsChoice, IsMarkedAfter, IsEngine;
    ghost var ws := WordsAt(e, p);
    WordsFit(e, p);
    NothingMarked(e, p);
    var pos := pos0;
    while true
      invariant w0.IsFresh(e) && w1.IsFresh(e) && w2.IsFresh(e) && w0.offset == p
      invariant 0 <= w0.current < |ws| && pos == p + ws[w0.current] < RangeEnd(e)
      invariant IsMarkedAfter(e, p, w0.current, w0.mark)
      decreases w0.current
    {
      var followed, good := TryContinuation(e, w1, w2, pos);
      if good {
        GoodIsChoice(e, p, w0.current, w0.mark);
      } else {
        MarkedNext(e, p, w0.current, w0.mark);
      }
      if followed {
        w0.MarkCurrent();
      }
      if good {
        GoodIsFollowed(e, pos);
        return;
      }
      var backedUp;
      backedUp, pos := w0.BackUp(pos);
      if !backedUp {
        MarkedIsChoice(e, p, w0.mark);
        return;
      }
    }
  }

  lemma NothingMarked(e: Engine, p: nat)
    requires IsEngine(e) && WordsAt(e, p) != []
    ensures IsMarkedAfter(e, p, |WordsAt(e, p)| - 1, |WordsAt(e, p)| - 1)
  {
  }

  lemma GoodIsFollowed(e: Engine, q: nat)
    requires IsEngine(e) && GoesOn(e, q) && q < RangeEnd(e)
    ensures WordsAt(e, q) != []
  {
  }

  // ---------- one iteration ----------

  /** Passes over characters until a word may begin. */
  method Resynchronize(e: Engine, w: PossibleWord, q: nat) returns (chars: nat)
    requires IsEngine(e) && w.IsFresh(e) && q < RangeEnd(e)
    modifies w
    ensures w.IsFresh(e) && IsResync(e, q, q + chars)
  {
    hide IsEngine;
    var remaining := RangeEnd(e) - q;
    var pos := q;
    chars := 0;
    while true
      invariant w.IsFresh(e) && pos == q + chars && remaining == RangeEnd(e) - pos > 0
      invariant forall k :: q < k <= pos ==> !IsPlausible(e, k)
      decreases remaining
    {
      var pc := e.text[pos];
      pos := pos + 1;
      chars := chars + 1;
      remaining := remaining - 1;
      if remaining <= 0 {
        break;
      }
      var uc := e.text[pos];
      if pc in e.enders && uc in e.beginners {
        var candidates, _ := w.Candidates(e, pos);
        if candidates > 0 {
          break;
        }
      }
    }
  }

  method SkipMarks(e: Engine, x: nat) returns (q: nat)
    requires x <= RangeEnd(e)
    ensures IsAfterMarks(e, x, q)
  {
    q := x;
    while q < RangeEnd(e) && e.text[q] in e.marks
      invariant x <= q <= RangeEnd(e)
      invariant forall k :: x <= k < q ==> e.text[k] in e.marks
    {
      q := q + 1;
    }
  }

  /** Looks for suffixes where no word follows. */
  method SkipSuffixes(e: Engine, slot: PossibleWord, y: nat) returns (q: nat)
    requires IsEngine(e) && slot.IsFresh(e) && 0 < y <= RangeEnd(e)
    modifies slot
    ensures slot.IsFresh(e) && q == SuffixEnd(e, y)
  {
    hide IsEngine;
    q := y;
    if e.isThai && q < RangeEnd(e) {
      var candidates, _ := slot.Candidates(e, q);
      var uc := e.text[q];
      if candidates == 0 && IsSuffix(uc) {
        if uc == THAI_PAIYANNOI {
          if !IsSuffix(e.text[q - 1]) {
            q := q + 1;
            uc := CharAt(e, q);
          }
        }
        if uc == THAI_MAIYAMOK {
          if e.text[q - 1] != THAI_MAIYAMOK {
            q := q + 1;
          }
        }
      }
    }
  }

  ghost predicate AreSlots(e: Engine, words: seq<PossibleWord>)
    requires IsEngine(e)
    reads words
  {
    && |words| == LOOKAHEAD && words[0] != words[1] && words[0] != words[2] && words[1] != words[2]
    && forall k :: 0 <= k < LOOKAHEAD ==> words[k].IsFresh(e)
  }

  /** Finds one word or skips a non-word; exactly one break comes of it, and it lies further on. */
  method Iterate(e: Engine, words: seq<PossibleWord>, wordsFound0: nat, current: nat) returns (wordsFound: nat, q: nat)
    requires IsEngine(e) && AreSlots(e, words) && current < RangeEnd(e)
    modifies words
    ensures AreSlots(e, words)
    ensures wordsFound == wordsFound0 + 1 && current < q <= RangeEnd(e) + 1 && (q > RangeEnd(e) ==> e.isThai)
    ensures IsIteration(e, current, q)
  {
    hide IsEngine, IsAccepted, IsCombined, IsAfterMarks, SuffixEnd;
    var wordLength, pos := FindWord(e, words[wordsFound0 % LOOKAHEAD], words[(wordsFound0 + 1) % LOOKAHEAD],
                                    words[(wordsFound0 + 2) % LOOKAHEAD], current);
    var x;
    wordsFound, x := Combine(e, words, wordsFound0, current, wordLength, pos);
    var y := SkipMarks(e, x);
    MarksStay(e, x, y);
    q := SkipSuffixes(e, words[wordsFound % LOOKAHEAD], y);
    SuffixStays(e, y);
    assert IsIterationBy(e, current, wordLength, x, y, q);
  }

  /** Joins a non-word with the word before it, if that is short, or makes it a word. */
  method Combine(e: Engine, words: seq<PossibleWord>, wordsFound0: nat, current: nat, wordLength: nat, pos: nat)
    returns (wordsFound: nat, x: nat)
    requires IsEngine(e) && AreSlots(e, words) && current < RangeEnd(e) && pos == current + wordLength <= RangeEnd(e)
    requires wordLength == 0 <==> WordsAt(e, current) == []
    modifies words
    ensures AreSlots(e, words)
    ensures wordsFound == wordsFound0 + 1 && current < x <= RangeEnd(e) && IsCombined(e, current, wordLength, x)
  {
    hide IsEngine, IsResync;
    wordsFound := wordsFound0;
    x := pos;
    if wordLength > 0 {
      wordsFound := wordsFound + 1;
    }
    if pos < RangeEnd(e) && wordLength < ROOT_COMBINE_THRESHOLD {
      var slot := words[wordsFound % LOOKAHEAD];
      var candidates, _ := slot.Candidates(e, pos);
      if candidates == 0 && (wordLength == 0 || slot.prefix < PREFIX_COMBINE_THRESHOLD) {
        var chars := Resynchronize(e, words[(wordsFound + 1) % LOOKAHEAD], pos);
        if wordLength == 0 {
          wordsFound := wordsFound + 1;
        }
        x := pos + chars;
      }
    }
    CombinedAdvances(e, current, wordLength, x);
  }

  lemma CombinedAdvances(e: Engine, p: nat, w: nat, x: nat)
    requires IsEngine(e) && p < RangeEnd(e) && p + w <= RangeEnd(e) && (w == 0 ==> WordsAt(e, p) == []) && IsCombined(e, p, w, x)
    ensures p < x <= RangeEnd(e)
  {
  }

  lemma MarksStay(e: Engine, x: nat, q: nat)
    requires IsAfterMarks(e, x, q)
    ensures x <= q <= RangeEnd(e)
  {
  }

  // ---------- the whole range ----------

  /** The ends of all iterations from start on, up to the end of the range or, with Thai suffixes, just past it. */
  ghost predicate AreIterations(e: Engine, start: nat, ends: seq<nat>)
    requires IsEngine(e)
    decreases |ends|
  {
    ends != [] ==>
      var n := |ends| - 1;
      var p := Last(start, ends[..n]);
      AreIterations(e, start, ends[..n]) && p < RangeEnd(e) && p < ends[n] <= RangeEnd(e) + 1 && IsIteration(e, p, ends[n])
  }

  function Last(start: nat, ends: seq<nat>): nat {
    if ends == [] then start else ends[|ends| - 1]
  }

  /** Pushes the breaks inside the range; the one at its end is popped again. */
  method DivideUpDictionaryRange(e: Engine, rangeStart: nat, foundBreaks: seq<int>)
    returns (n: nat, breaks: seq<int>, ghost ends: seq<nat>)
    requires IsEngine(e) && rangeStart <= RangeEnd(e)
    ensures IsTooShort(e, rangeStart) ==> n == 0 && breaks == foundBreaks
    ensures !IsTooShort(e, rangeStart) ==>
      && AreIterations(e, rangeStart, ends) && ends != [] && Last(rangeStart, ends) >= RangeEnd(e)
      && (Last(rangeStart, ends) > RangeEnd(e) ==> e.isThai)
      && n == |ends| - 1
      && breaks == foundBreaks + ends[..n]
      && (forall k :: 0 <= k < n ==> rangeStart < ends[k] < RangeEnd(e))
      && (forall k, l :: 0 <= k < l < n ==> ends[k] < ends[l])
  {
    hide IsEngine, AreIterations;
    if IsTooShort(e, rangeStart) {
      return 0, foundBreaks, [];
    }
    n, breaks, ends := FindBreaks(e, rangeStart, foundBreaks);
    if breaks[|breaks| - 1] >= RangeEnd(e) {
      breaks := breaks[..|breaks| - 1];
      n := n - 1;
    }
    EndsIncrease(e, rangeStart, ends);
  }

  /** All the iterations, with a break for each. */
  method FindBreaks(e: Engine, rangeStart: nat, foundBreaks: seq<int>)
    returns (wordsFound: nat, breaks: seq<int>, ghost ends: seq<nat>)
    requires IsEngine(e) && rangeStart < RangeEnd(e)
    ensures AreIterations(e, rangeStart, ends) && ends != [] && wordsFound == |ends| && breaks == foundBreaks + ends
    ensures RangeEnd(e) <= Last(rangeStart, ends) && (Last(rangeStart, ends) > RangeEnd(e) ==> e.isThai)
  {
    hide IsEngine, AreIterations, IsIteration, AreSlots;
    breaks, ends := foundBreaks, [];
    wordsFound := 0;
    var words := NewSlots(e);
    var current := rangeStart;
    NoIterations(e, rangeStart);
    while current < RangeEnd(e)
      invariant fresh(words) && AreSlots(e, words)
      invariant rangeStart <= current <= RangeEnd(e) + 1 && current == Last(rangeStart, ends)
      invariant current > RangeEnd(e) ==> e.isThai
      invariant wordsFound == |ends| && breaks == foundBreaks + ends
      invariant AreIterations(e, rangeStart, ends)
    {
      var q;
      wordsFound, q := Iterate(e, words, wordsFound, current);
      breaks := breaks + [q];
      ghost var before := ends;
      ends := ends + [q];
      IterationsExtend(e, rangeStart, before, q);
      current := q;
    }
  }

  lemma NoIterations(e: Engine, start: nat)
    requires IsEngine(e)
    ensures AreIterations(e, start, [])
  {
  }

  method NewSlots(e: Engine) returns (words: seq<PossibleWord>)
    requires IsEngine(e)
    ensures fresh(words) && AreSlots(e, words)
  {
    var a := new PossibleWord();
    var b := new PossibleWord();
    var c := new PossibleWord();
    words := [a, b, c];
  }

  lemma IterationsExtend(e: Engine, start: nat, ends: seq<nat>, q: nat)
    requires IsEngine(e) && AreIterations(e, start, ends)
    requires Last(start, ends) < RangeEnd(e) && Last(start, ends) < q <= RangeEnd(e) + 1 && IsIteration(e, Last(start, ends), q)
    ensures AreIterations(e, start, ends + [q])
  {
    hide IsIteration;
    assert (ends + [q])[..|ends|] == ends;
  }

  lemma {:induction false} EndsIncrease(e: Engine, start: nat, ends: seq<nat>)
    requires IsEngine(e) && AreIterations(e, start, ends)
    ensures forall k :: 0 <= k < |ends| ==> start < ends[k]
    ensures forall k, l :: 0 <= k < l < |ends| ==> ends[k] < ends[l]
    ensures forall k :: 0 <= k < |ends| - 1 ==> ends[k] < RangeEnd(e)
    decreases |ends|
  {
    hide IsIteration;
    if ends != [] {
      EndsIncrease(e, start, ends[..|ends| - 1]);
    }
  }
}
