/**
  * The dynamic program of CjkBreakEngine over BMP text in NFKC: the cheapest way
  * of cutting the range into dictionary words, single characters and Katakana runs.
  */
module CjkBreaks {
  import opened Basics

  const UINT32_MAX := 0xFFFF_FFFF
  const MAX_SNLP := 255
  const MAX_KATAKANA_LENGTH := 8
  const MAX_KATAKANA_GROUP_LENGTH := 20

  /** A dictionary word that starts at some position: its length and its cost. */
  datatype Match = Match(length: nat, value: nat)

  /** The text and, for each position, what the dictionary matcher reports there. */
  datatype Input = Input(text: seq<int>, words: seq<seq<Match>>)

  /** The contract of DictionaryMatcher::matches(): from shortest to longest, inside the text. */
  ghost predicate IsInput(x: Input) {
    && |x.words| == |x.text|
    && forall i :: 0 <= i < |x.text| ==> AreMatches(x.words[i], |x.text| - i)
  }

  ghost predicate AreMatches(ms: seq<Match>, limit: int) {
    && (forall k :: 0 <= k < |ms| ==> 1 <= ms[k].length <= limit)
    && (forall k, l :: 0 <= k < l < |ms| ==> ms[k].length < ms[l].length)
  }

  predicate IsHangul(c: int) {
    0xAC00 <= c <= 0xD7A3
  }

  predicate IsKatakana(c: int) {
    (0x30A1 <= c <= 0x30FE && c != 0x30FB) || 0xFF66 <= c <= 0xFF9F
  }

  function KatakanaCost(wordLength: nat): (r: nat)
    ensures r <= 8192
  {
    if wordLength > MAX_KATAKANA_LENGTH then 8192 else [8192, 984, 408, 240, 204, 252, 300, 372, 480][wordLength]
  }

  /** How many Katakana characters there are from i on. */
  function KatakanaRun(text: seq<int>, i: nat): (r: nat)
    requires i <= |text|
    ensures i + r <= |text|
    decreases |text| - i
  {
    if i < |text| && IsKatakana(text[i]) then 1 + KatakanaRun(text, i + 1) else 0
  }

  // ---------- the edges of the graph ----------

  predicate NeedsFallback(x: Input, i: nat)
    requires i < |x.text| && i < |x.words|
  {
    (x.words[i] == [] || x.words[i][0].length != 1) && !IsHangul(x.text[i])
  }

  /** The dictionary words at i, and the character itself if that is not one of them. */
  function Candidates(x: Input, i: nat): seq<Match>
    requires i < |x.text| && i < |x.words|
  {
    x.words[i] + if NeedsFallback(x, i) then [Match(1, MAX_SNLP)] else []
  }

  ghost predicate IsWordEdge(x: Input, i: nat, j: int, c: nat)
    requires i < |x.text| && i < |x.words| && i <= j
  {
    exists k :: 0 <= k < |Candidates(x, i)| && Candidates(x, i)[k] == Match(j - i, c)
  }

  /** A whole Katakana run, if it is not too long and the last visited character before it is not Katakana. */
  ghost predicate IsKatakanaEdge(x: Input, i: nat, j: int, c: nat)
    requires IsInput(x) && i < |x.text|
    decreases i, 2
  {
    var run := KatakanaRun(x.text, i);
    && IsKatakana(x.text[i]) && !AfterKatakana(x, i)
    && run < MAX_KATAKANA_GROUP_LENGTH && j == i + run && c == KatakanaCost(run)
  }

  /** One word from i to j at this cost. */
  ghost predicate IsEdge(x: Input, i: nat, j: int, c: nat)
    requires IsInput(x)
    decreases i, 3
  {
    i < j <= |x.text| && (IsWordEdge(x, i, j, c) || IsKatakanaEdge(x, i, j, c))
  }

  /** Some segmentation has a cut here; the loop skips all other positions. */
  ghost predicate IsVisited(x: Input, j: nat)
    requires IsInput(x)
    decreases j, 0
  {
    j == 0 || exists i: nat, c: nat :: i < j && IsVisited(x, i) && IsEdge(x, i, j, c)
  }

  /** Whether the last visited character before i is Katakana. */
  ghost predicate AfterKatakana(x: Input, i: nat)
    requires IsInput(x) && i <= |x.text|
    decreases i, 1
  {
    i > 0 && if IsVisited(x, i - 1) then IsKatakana(x.text[i - 1]) else AfterKatakana(x, i - 1)
  }

  /** Without Hangul every position is visited, so that the Katakana rule looks at the character just before. */
  lemma {:induction false} WithoutHangulAllAreVisited(x: Input, j: nat)
    requires IsInput(x) && j <= |x.text|
    requires forall i :: 0 <= i < j ==> !IsHangul(x.text[i])
    ensures IsVisited(x, j)
    ensures AfterKatakana(x, j) <==> j > 0 && IsKatakana(x.text[j - 1])
  {
    if j > 0 {
      WithoutHangulAllAreVisited(x, j - 1);
      var k := if NeedsFallback(x, j - 1) then |x.words[j - 1]| else 0;
      assert Candidates(x, j - 1)[k].length == 1;
      CandidateIsEdge(x, j - 1, k);
    }
  }

  /** What an engine is given: its character set has all Hangul syllables, for Korean, or none of them. */
  ghost predicate IsEngineText(text: seq<int>) {
    (forall i :: 0 <= i < |text| ==> !IsHangul(text[i])) || (forall i :: 0 <= i < |text| ==> IsHangul(text[i]))
  }

  lemma {:induction false} AllHangulHasNoKatakana(x: Input, j: nat)
    requires IsInput(x) && j <= |x.text|
    requires forall i :: 0 <= i < j ==> IsHangul(x.text[i])
    ensures !AfterKatakana(x, j)
  {
    if j > 0 {
      AllHangulHasNoKatakana(x, j - 1);
      assert IsHangul(x.text[j - 1]);
    }
  }

  /** In such text the Katakana rule looks at the character just before, although it remembers the last one visited. */
  lemma RuleLooksAtPrevious(x: Input, i: nat)
    requires IsInput(x) && i <= |x.text| && IsEngineText(x.text)
    ensures AfterKatakana(x, i) <==> i > 0 && IsKatakana(x.text[i - 1])
  {
    if forall i :: 0 <= i < |x.text| ==> !IsHangul(x.text[i]) {
      WithoutHangulAllAreVisited(x, i);
    } else {
      AllHangulHasNoKatakana(x, i);
      assert i > 0 ==> IsHangul(x.text[i - 1]);
    }
  }

  /** A run of Katakana characters that cannot be extended either way. */
  predicate IsRun(text: seq<int>, i: nat, j: int) {
    && i < j <= |text|
    && (forall k :: i <= k < j ==> IsKatakana(text[k]))
    && (i > 0 ==> !IsKatakana(text[i - 1]))
    && (j < |text| ==> !IsKatakana(text[j]))
  }

  lemma {:induction false} RunLength(text: seq<int>, i: nat, j: int)
    requires i <= j <= |text| && (j < |text| ==> !IsKatakana(text[j]))
    requires forall k :: i <= k < j ==> IsKatakana(text[k])
    ensures KatakanaRun(text, i) == j - i
    decreases j - i
  {
    if i < j {
      RunLength(text, i + 1, j);
    }
  }

  /** A whole run is tried exactly if it is shorter than 20; of a longer one no part is tried. */
  lemma RunIsTriedIff(x: Input, i: nat, j: int)
    requires IsInput(x) && IsEngineText(x.text) && IsRun(x.text, i, j)
    ensures IsVisited(x, i)
    ensures forall k: nat, l, c: nat :: i <= k < j ==>
      (IsKatakanaEdge(x, k, l, c) <==>
       j - i < MAX_KATAKANA_GROUP_LENGTH && k == i && l == j && c == KatakanaCost(j - i))
  {
    hide IsInput, AfterKatakana, IsVisited, KatakanaCost;
    assert IsKatakana(x.text[i]) && !IsHangul(x.text[i]);
    WithoutHangulAllAreVisited(x, i);
    forall k: nat | i <= k < j ensures AfterKatakana(x, k) <==> k > i {
      RuleLooksAtPrevious(x, k);
    }
    RunLength(x.text, i, j);
  }

  /** Nineteen Katakana characters are tried as one word, twenty are not. */
  lemma LongRunIsSkipped()
    ensures var x := Input(seq(19, _ => 0x30A2), seq(19, _ => [])); IsInput(x) && IsKatakanaEdge(x, 0, 19, 8192)
    ensures var x := Input(seq(20, _ => 0x30A2), seq(20, _ => []));
            IsInput(x) && forall i: nat, j, c: nat :: i < 20 ==> !IsKatakanaEdge(x, i, j, c)
  {
    hide KatakanaRun, AfterKatakana, IsVisited;
    RunIsTriedIff(Input(seq(19, _ => 0x30A2), seq(19, _ => [])), 0, 19);
    RunIsTriedIff(Input(seq(20, _ => 0x30A2), seq(20, _ => [])), 0, 20);
  }

  // ---------- the edges, by the text and the dictionary alone ----------

  ghost predicate HasWord(x: Input, i: nat, length: nat, value: nat)
    requires i < |x.words|
  {
    exists k :: 0 <= k < |x.words[i]| && x.words[i][k] == Match(length, value)
  }

  /** What a Katakana run of this length costs. */
  function RunCost(length: nat): int {
    match length
    case 1 => 984
    case 2 => 408
    case 3 => 240
    case 4 => 204
    case 5 => 252
    case 6 => 300
    case 7 => 372
    case 8 => 480
    case _ => 8192
  }

  /**
    * In the text an engine is given, an edge is a dictionary word at its own cost, a character that is no
    * Hangul syllable and no word of the dictionary at cost 255, or a Katakana run shorter than 20.
    */
  lemma EdgesAre(x: Input, i: nat, j: int, c: nat)
    requires IsInput(x) && IsEngineText(x.text) && i < |x.text|
    ensures IsEdge(x, i, j, c) <==>
      || (i < j && HasWord(x, i, j - i, c))
      || (j == i + 1 && c == 255 && !(0xAC00 <= x.text[i] <= 0xD7A3) && forall v: nat :: !HasWord(x, i, 1, v))
      || (IsRun(x.text, i, j) && j - i < 20 && c == RunCost(j - i))
  {
    hide IsKatakanaEdge, IsRun;
    if i < j <= |x.text| {
      WordEdgesAre(x, i, j, c);
      KatakanaEdgesAre(x, i, j, c);
    }
    WordsStay(x, i, j, c);
    RunStays(x.text, i, j);
  }

  lemma RunStays(text: seq<int>, i: nat, j: int)
    ensures IsRun(text, i, j) ==> i < j <= |text|
  {
  }

  lemma WordsStay(x: Input, i: nat, j: int, c: nat)
    requires IsInput(x) && i < |x.text|
    ensures i < j && HasWord(x, i, j - i, c) ==> j <= |x.text|
  {
    if i < j && HasWord(x, i, j - i, c) {
      var k :| 0 <= k < |x.words[i]| && x.words[i][k] == Match(j - i, c);
      assert AreMatches(x.words[i], |x.text| - i);
    }
  }

  lemma WordEdgesAre(x: Input, i: nat, j: int, c: nat)
    requires IsInput(x) && i < |x.text| && i < j
    ensures IsWordEdge(x, i, j, c) <==>
      || HasWord(x, i, j - i, c)
      || (j == i + 1 && c == 255 && !(0xAC00 <= x.text[i] <= 0xD7A3) && forall v: nat :: !HasWord(x, i, 1, v))
  {
    var ws, cs := x.words[i], Candidates(x, i);
    OneCharacterFirst(x, i);
    assert |cs| > |ws| ==> cs[|ws|] == Match(1, 255);
    if IsWordEdge(x, i, j, c) {
      var k :| 0 <= k < |cs| && cs[k] == Match(j - i, c);
      assert k < |ws| ==> ws[k] == Match(j - i, c);
    }
    if HasWord(x, i, j - i, c) {
      var k :| 0 <= k < |ws| && ws[k] == Match(j - i, c);
      assert cs[k] == Match(j - i, c);
    }
  }

  /** A word of one character is the first one reported. */
  lemma OneCharacterFirst(x: Input, i: nat)
    requires IsInput(x) && i < |x.text|
    ensures (exists v: nat :: HasWord(x, i, 1, v)) <==> x.words[i] != [] && x.words[i][0].length == 1
  {
    var ws := x.words[i];
    assert AreMatches(ws, |x.text| - i);
    if v: nat :| HasWord(x, i, 1, v) {
      var k :| 0 <= k < |ws| && ws[k] == Match(1, v);
    }
    if ws != [] && ws[0].length == 1 {
      assert ws[0] == Match(1, ws[0].value);
      assert HasWord(x, i, 1, ws[0].value);
    }
  }

  lemma KatakanaEdgesAre(x: Input, i: nat, j: int, c: nat)
    requires IsInput(x) && IsEngineText(x.text) && i < |x.text|
    ensures IsKatakanaEdge(x, i, j, c) <==> IsRun(x.text, i, j) && j - i < 20 && c == RunCost(j - i)
  {
    hide IsInput, AfterKatakana, IsVisited;
    RuleLooksAtPrevious(x, i);
    if IsRun(x.text, i, j) {
      RunLength(x.text, i, j);
      KatakanaCosts(j - i);
    }
    if IsKatakanaEdge(x, i, j, c) {
      RunEnds(x.text, i);
      KatakanaCosts(j - i);
    }
  }

  lemma KatakanaCosts(length: nat)
    requires length > 0
    ensures KatakanaCost(length) == RunCost(length)
  {
  }

  lemma {:induction false} RunEnds(text: seq<int>, i: nat)
    requires i <= |text|
    ensures var j := i + KatakanaRun(text, i);
            (forall k :: i <= k < j ==> IsKatakana(text[k])) && (j < |text| ==> !IsKatakana(text[j]))
    decreases |text| - i
  {
    if i < |text| && IsKatakana(text[i]) {
      RunEnds(text, i + 1);
    }
  }

  function Syllable(l: int, v: int, t: int): int {
    0xAC00 + (l * 21 + v) * 28 + t
  }

  /** The Hangul syllables are composed of 19 leading consonants, 21 vowels and 27 or no trailing consonants. */
  lemma HangulSyllables(c: int)
    ensures IsHangul(c) <==> exists l, v, t :: 0 <= l < 19 && 0 <= v < 21 && 0 <= t < 28 && c == Syllable(l, v, t)
  {
    if IsHangul(c) {
      var s := c - 0xAC00;
      assert c == Syllable(s / 28 / 21, s / 28 % 21, s % 28);
    }
  }

  /** Katakana letters, full and half width, and the prolonged sound and iteration marks, but not the middle dot. */
  lemma KatakanaCharacters(c: int)
    ensures IsKatakana(c) <==> 0x30A1 <= c <= 0x30FA || 0x30FC <= c <= 0x30FE || 0xFF66 <= c <= 0xFF9F
  {
  }

  // ---------- segmentations and their cost ----------

  function End(cuts: seq<nat>): nat {
    if cuts == [] then 0 else cuts[|cuts| - 1]
  }

  function Sum(costs: seq<nat>): nat {
    if costs == [] then 0 else Sum(costs[..|costs| - 1]) + costs[|costs| - 1]
  }

  /** Consecutive words from the start of the text, given by where each ends and what it costs. */
  ghost predicate IsSegmentation(x: Input, cuts: seq<nat>, costs: seq<nat>)
    requires IsInput(x)
    decreases |cuts|
  {
    && |cuts| == |costs|
    && (cuts != [] ==>
         var n := |cuts| - 1;
         IsSegmentation(x, cuts[..n], costs[..n]) && IsEdge(x, End(cuts[..n]), cuts[n], costs[n]))
  }

  // ---------- what the tables hold ----------

  /** No sum of word costs reaches the marker for "not visited". */
  ghost predicate CostsFit(x: Input, bound: nat)
    requires IsInput(x)
  {
    && 8192 <= bound && |x.text| * bound < UINT32_MAX
    && forall i, k :: 0 <= i < |x.text| && 0 <= k < |x.words[i]| ==> x.words[i][k].value <= bound
  }

  ghost predicate TablesFit(x: Input, best: seq<nat>, prev: seq<int>) {
    |best| == |prev| == |x.text| + 1
  }

  /** Every entry comes from an edge out of an earlier entry, processed before limit. */
  ghost predicate IsJustified(x: Input, bound: nat, best: seq<nat>, prev: seq<int>, limit: nat)
    requires IsInput(x) && TablesFit(x, best, prev)
  {
    && best[0] == 0
    && forall j :: 0 < j < |best| && best[j] != UINT32_MAX ==> EntryFrom(x, bound, best, prev, j) && prev[j] < limit
  }

  ghost predicate EntryFrom(x: Input, bound: nat, best: seq<nat>, prev: seq<int>, j: nat)
    requires IsInput(x) && TablesFit(x, best, prev) && j < |best|
  {
    && 0 <= prev[j] < j && best[prev[j]] <= best[j] <= j * bound
    && best[prev[j]] != UINT32_MAX
    && IsEdge(x, prev[j], j, best[j] - best[prev[j]])
  }

  /** No edge out of a position below limit leads to a cheaper way. */
  ghost predicate IsRelaxed(x: Input, best: seq<nat>, limit: nat)
    requires IsInput(x) && |best| == |x.text| + 1
  {
    forall i: nat, j, c: nat :: i < limit && i < j < |best| && best[i] != UINT32_MAX && IsEdge(x, i, j, c) ==>
      best[j] <= best[i] + c
  }

  lemma EdgeCostIsBounded(x: Input, bound: nat, i: nat, j: int, c: nat)
    requires IsInput(x) && CostsFit(x, bound) && IsEdge(x, i, j, c)
    ensures c <= bound
  {
    if IsWordEdge(x, i, j, c) {
      var k :| 0 <= k < |Candidates(x, i)| && Candidates(x, i)[k] == Match(j - i, c);
      if k < |x.words[i]| {
        assert x.words[i][k].value == c;
      }
    }
  }

  lemma EdgeStays(x: Input, i: nat, j: int, c: nat)
    requires IsInput(x) && IsEdge(x, i, j, c)
    ensures i < j <= |x.text|
  {
  }

  lemma CostFits(x: Input, bound: nat, i: nat)
    requires IsInput(x) && CostsFit(x, bound) && i <= |x.text|
    ensures i * bound < UINT32_MAX && (i > 0 ==> (i - 1) * bound + bound == i * bound)
  {
    MulMonotone(i, |x.text|, bound);
  }

  // ---------- every table entry is the minimum ----------

  /** No segmentation is cheaper than the entry where it ends. */
  lemma {:induction false} EntryIsLowerBound(x: Input, bound: nat, best: seq<nat>, prev: seq<int>, cuts: seq<nat>, costs: seq<nat>)
    requires IsInput(x) && CostsFit(x, bound) && TablesFit(x, best, prev)
    requires IsJustified(x, bound, best, prev, |x.text|) && IsRelaxed(x, best, |x.text|)
    requires IsSegmentation(x, cuts, costs)
    ensures End(cuts) <= |x.text| && best[End(cuts)] != UINT32_MAX && best[End(cuts)] <= Sum(costs)
    decreases |cuts|
  {
    hide IsEdge, CostsFit, IsInput;
    if cuts != [] {
      var n := |cuts| - 1;
      var i := End(cuts[..n]);
      EntryIsLowerBound(x, bound, best, prev, cuts[..n], costs[..n]);
      EdgeStays(x, i, cuts[n], costs[n]);
      EdgeCostIsBounded(x, bound, i, cuts[n], costs[n]);
      CostFits(x, bound, cuts[n]);
      CostFits(x, bound, i + 1);
      assert i == 0 || EntryFrom(x, bound, best, prev, i);
    }
  }

  /** Following prev from an entry gives a segmentation that costs just that. */
  function Chain(prev: seq<int>, j: int): (r: seq<nat>)
    requires 0 <= j < |prev|
    ensures End(r) == j
    decreases j
  {
    if j > 0 && 0 <= prev[j] < j then Chain(prev, prev[j]) + [j] else if j > 0 then [j] else []
  }

  function ChainCosts(best: seq<nat>, prev: seq<int>, j: int): seq<nat>
    requires 0 <= j < |prev| == |best|
    decreases j
  {
    if j > 0 && 0 <= prev[j] < j && best[prev[j]] <= best[j] then
      ChainCosts(best, prev, prev[j]) + [best[j] - best[prev[j]]]
    else []
  }

  lemma {:induction false} ChainAttainsEntry(x: Input, bound: nat, best: seq<nat>, prev: seq<int>, j: nat)
    requires IsInput(x) && TablesFit(x, best, prev) && IsJustified(x, bound, best, prev, |x.text|)
    requires j <= |x.text| && best[j] != UINT32_MAX
    ensures IsSegmentation(x, Chain(prev, j), ChainCosts(best, prev, j))
    ensures Sum(ChainCosts(best, prev, j)) == best[j]
    decreases j
  {
    hide IsEdge, IsInput;
    if j > 0 {
      assert EntryFrom(x, bound, best, prev, j);
      ChainAttainsEntry(x, bound, best, prev, prev[j]);
      var cuts, costs := Chain(prev, prev[j]), ChainCosts(best, prev, prev[j]);
      assert (cuts + [j])[..|cuts|] == cuts;
      assert (costs + [best[j] - best[prev[j]]])[..|costs|] == costs;
    }
  }

  lemma {:induction false} ChainIncreases(prev: seq<int>, j: int)
    requires 0 <= j < |prev|
    ensures forall k :: 0 <= k < |Chain(prev, j)| ==> 0 < Chain(prev, j)[k] <= j
    ensures forall k, l :: 0 <= k < l < |Chain(prev, j)| ==> Chain(prev, j)[k] < Chain(prev, j)[l]
    decreases j
  {
    if j > 0 && 0 <= prev[j] < j {
      ChainIncreases(prev, prev[j]);
    }
  }

  // ---------- the loop ----------

  lemma VisitedFrom(x: Input, j: nat) returns (i: nat, c: nat)
    requires IsInput(x) && IsVisited(x, j) && j > 0
    ensures i < j && IsVisited(x, i) && IsEdge(x, i, j, c)
  {
    i, c :| i < j && IsVisited(x, i) && IsEdge(x, i, j, c);
  }

  /** Exactly the visited positions have an entry by the time the loop gets to them. */
  lemma {:induction false} EntryMeansVisited(x: Input, bound: nat, best: seq<nat>, prev: seq<int>, limit: nat, j: nat)
    requires IsInput(x) && CostsFit(x, bound) && TablesFit(x, best, prev) && limit <= |x.text|
    requires IsJustified(x, bound, best, prev, limit) && IsRelaxed(x, best, limit)
    requires j <= limit
    ensures best[j] != UINT32_MAX <==> IsVisited(x, j)
    decreases j
  {
    hide IsEdge, CostsFit, IsInput;
    if best[j] != UINT32_MAX && j > 0 {
      assert EntryFrom(x, bound, best, prev, j);
      EntryMeansVisited(x, bound, best, prev, limit, prev[j]);
    }
    if IsVisited(x, j) && j > 0 {
      var i, c := VisitedFrom(x, j);
      EntryMeansVisited(x, bound, best, prev, limit, i);
      SumFits(x, bound, best, prev, limit, i, j, c);
    }
  }

  /** Adding one more word does not wrap around. */
  lemma SumFits(x: Input, bound: nat, best: seq<nat>, prev: seq<int>, limit: nat, i: nat, j: int, c: nat)
    requires IsInput(x) && CostsFit(x, bound) && TablesFit(x, best, prev)
    requires IsJustified(x, bound, best, prev, limit)
    requires i <= |x.text| && best[i] != UINT32_MAX && IsEdge(x, i, j, c)
    ensures i < j <= |x.text| && best[i] + c <= j * bound < UINT32_MAX
  {
    hide IsEdge, CostsFit, IsInput;
    assert i == 0 || EntryFrom(x, bound, best, prev, i);
    EdgeStays(x, i, j, c);
    EdgeCostIsBounded(x, bound, i, j, c);
    CostFits(x, bound, i + 1);
    CostFits(x, bound, j);
    MulMonotone(i + 1, j, bound);
  }

  /** Only later entries get better. */
  ghost predicate IsImproved(best: seq<nat>, best': seq<nat>, i: nat) {
    |best'| == |best| && i < |best| && (forall j :: 0 <= j <= i ==> best'[j] == best[j]) && (forall j :: 0 <= j < |best| ==> best'[j] <= best[j])
  }

  lemma ImprovementIsTransitive(a: seq<nat>, b: seq<nat>, c: seq<nat>, i: nat)
    requires IsImproved(a, b, i) && IsImproved(b, c, i)
    ensures IsImproved(a, c, i)
  {
  }

  lemma ImprovedIsRelaxed(x: Input, best: seq<nat>, best': seq<nat>, i: nat)
    requires IsInput(x) && |best| == |x.text| + 1 && IsRelaxed(x, best, i) && IsImproved(best, best', i)
    ensures IsRelaxed(x, best', i)
  {
    hide IsEdge;
  }

  lemma ImprovedIsJustified(x: Input, bound: nat, best: seq<nat>, prev: seq<int>, i: nat, j: nat, c: nat)
    requires IsInput(x) && TablesFit(x, best, prev) && IsJustified(x, bound, best, prev, i + 1)
    requires i < j <= |x.text| && IsEdge(x, i, j, c) && best[i] != UINT32_MAX
    requires best[i] + c < best[j] && best[i] + c <= j * bound
    ensures IsJustified(x, bound, best[j := best[i] + c], prev[j := i], i + 1)
  {
    hide IsEdge;
    var best', prev' := best[j := best[i] + c], prev[j := i];
    forall k | 0 < k < |best| && best'[k] != UINT32_MAX ensures EntryFrom(x, bound, best', prev', k) && prev'[k] < i + 1 {
      if k != j {
        assert EntryFrom(x, bound, best, prev, k);
      }
    }
  }

  /** Records the way to j through i, if it is better. */
  method Improve(x: Input, ghost bound: nat, best: seq<nat>, prev: seq<int>, i: nat, j: nat, c: nat)
    returns (best': seq<nat>, prev': seq<int>)
    requires IsInput(x) && CostsFit(x, bound) && TablesFit(x, best, prev)
    requires IsJustified(x, bound, best, prev, i + 1)
    requires i <= |x.text| && best[i] != UINT32_MAX && IsEdge(x, i, j, c)
    ensures TablesFit(x, best', prev') && IsJustified(x, bound, best', prev', i + 1)
    ensures IsImproved(best, best', i) && i < j < |best'| && best'[j] <= best[i] + c
  {
    hide IsEdge, CostsFit, IsInput, IsJustified;
    SumFits(x, bound, best, prev, i + 1, i, j, c);
    best', prev' := best, prev;
    var newSnlp := (best[i] + c) % 0x1_0000_0000;
    if newSnlp < best[j] {
      ImprovedIsJustified(x, bound, best, prev, i, j, c);
      best' := best'[j := newSnlp];
      prev' := prev'[j := i];
    }
  }

  /** The fallback for a single character always has a free slot in the match buffers. */
  lemma {:induction false} LengthsAreDistinct(ms: seq<Match>, limit: int, k: nat)
    requires AreMatches(ms, limit) && k < |ms|
    ensures ms[k].length >= ms[0].length + k
  {
    if k > 0 {
      LengthsAreDistinct(ms, limit, k - 1);
    }
  }

  lemma FallbackSlotExists(x: Input, i: nat)
    requires IsInput(x) && i < |x.text| && (x.words[i] == [] || x.words[i][0].length != 1)
    ensures |x.words[i]| < |x.text|
  {
    if x.words[i] != [] {
      LengthsAreDistinct(x.words[i], |x.text| - i, |x.words[i]| - 1);
    }
  }

  /** The words at i, with the fallback appended where the buffers, of one slot per character, have room. */
  method FillCandidates(x: Input, i: nat) returns (ms: seq<Match>)
    requires IsInput(x) && i < |x.text|
    ensures ms == Candidates(x, i)
  {
    ms := x.words[i];
    if (|ms| == 0 || ms[0].length != 1) && !IsHangul(x.text[i]) {
      FallbackSlotExists(x, i);
      if |ms| < |x.text| {
        ms := ms + [Match(1, MAX_SNLP)];
      }
    }
  }

  lemma CandidateIsEdge(x: Input, i: nat, k: nat)
    requires IsInput(x) && i < |x.text| && k < |Candidates(x, i)|
    ensures IsEdge(x, i, i + Candidates(x, i)[k].length, Candidates(x, i)[k].value)
  {
    var m := Candidates(x, i)[k];
    assert Candidates(x, i)[k] == Match(i + m.length - i, m.value);
    if k < |x.words[i]| {
      assert AreMatches(x.words[i], |x.text| - i);
    }
  }

  ghost predicate CandidatesDone(x: Input, best: seq<nat>, i: nat, n: nat)
    requires IsInput(x) && i < |x.text| && n <= |Candidates(x, i)| && |best| == |x.text| + 1
  {
    forall k :: 0 <= k < n ==>
      var m := Candidates(x, i)[k]; i + m.length < |best| && best[i + m.length] <= best[i] + m.value
  }

  /** Tries all the words at i. */
  method TryWords(x: Input, ghost bound: nat, best0: seq<nat>, prev0: seq<int>, i: nat)
    returns (best: seq<nat>, prev: seq<int>)
    requires IsInput(x) && CostsFit(x, bound) && TablesFit(x, best0, prev0)
    requires IsJustified(x, bound, best0, prev0, i + 1)
    requires i < |x.text| && best0[i] != UINT32_MAX
    ensures TablesFit(x, best, prev) && IsJustified(x, bound, best, prev, i + 1)
    ensures IsImproved(best0, best, i) && best[i] == best0[i] && CandidatesDone(x, best, i, |Candidates(x, i)|)
  {
    hide IsInput, CostsFit, IsEdge, IsJustified, Candidates;
    best, prev := best0, prev0;
    var ms := FillCandidates(x, i);
    for j := 0 to |ms|
      invariant TablesFit(x, best, prev) && IsJustified(x, bound, best, prev, i + 1)
      invariant IsImproved(best0, best, i) && CandidatesDone(x, best, i, j)
    {
      ghost var before := best;
      CandidateIsEdge(x, i, j);
      best, prev := Improve(x, bound, best, prev, i, i + ms[j].length, ms[j].value);
      ImprovementIsTransitive(best0, before, best, i);
    }
  }

  /** Tries the Katakana run that starts at i, if one does. */
  method TryKatakana(x: Input, ghost bound: nat, best0: seq<nat>, prev0: seq<int>, i: nat, isPrevKatakana: bool)
    returns (best: seq<nat>, prev: seq<int>)
    requires IsInput(x) && CostsFit(x, bound) && TablesFit(x, best0, prev0)
    requires IsJustified(x, bound, best0, prev0, i + 1)
    requires i < |x.text| && best0[i] != UINT32_MAX && isPrevKatakana == AfterKatakana(x, i)
    ensures TablesFit(x, best, prev) && IsJustified(x, bound, best, prev, i + 1)
    ensures IsImproved(best0, best, i)
    ensures forall j, c: nat :: 0 <= j < |best| && IsKatakanaEdge(x, i, j, c) ==> best[j] <= best[i] + c
  {
    hide IsInput, CostsFit, IsJustified, AfterKatakana;
    best, prev := best0, prev0;
    var katakanaRunLength := 1;
    if !isPrevKatakana && IsKatakana(x.text[i]) {
      var j := i + 1;
      while j < |x.text| && katakanaRunLength < MAX_KATAKANA_GROUP_LENGTH && IsKatakana(x.text[j])
        invariant i < j <= |x.text| && katakanaRunLength == j - i <= MAX_KATAKANA_GROUP_LENGTH
        invariant KatakanaRun(x.text, i) == katakanaRunLength + KatakanaRun(x.text, j)
      {
        j := j + 1;
        katakanaRunLength := katakanaRunLength + 1;
      }
      if katakanaRunLength < MAX_KATAKANA_GROUP_LENGTH {
        assert IsKatakanaEdge(x, i, j, KatakanaCost(katakanaRunLength));
        best, prev := Improve(x, bound, best, prev, i, j, KatakanaCost(katakanaRunLength));
      }
    }
  }

  lemma RelaxedNext(x: Input, best: seq<nat>, i: nat)
    requires IsInput(x) && |best| == |x.text| + 1 && IsRelaxed(x, best, i) && i < |x.text|
    requires best[i] != UINT32_MAX ==> CandidatesDone(x, best, i, |Candidates(x, i)|)
    requires best[i] != UINT32_MAX ==>
      forall j, c: nat :: 0 <= j < |best| && IsKatakanaEdge(x, i, j, c) ==> best[j] <= best[i] + c
    ensures IsRelaxed(x, best, i + 1)
  {
    forall p: nat, j, c: nat | p < i + 1 && p < j < |best| && best[p] != UINT32_MAX && IsEdge(x, p, j, c)
      ensures best[j] <= best[p] + c
    {
      if p == i {
        if IsWordEdge(x, i, j, c) {
          WordEdgeDone(x, best, i, j, c);
        } else {
          assert IsKatakanaEdge(x, i, j, c);
        }
      }
    }
  }

  lemma WordEdgeDone(x: Input, best: seq<nat>, i: nat, j: int, c: nat)
    requires IsInput(x) && |best| == |x.text| + 1 && i < |x.text| && i < j < |best|
    requires CandidatesDone(x, best, i, |Candidates(x, i)|) && IsWordEdge(x, i, j, c)
    ensures best[j] <= best[i] + c
  {
    var k :| 0 <= k < |Candidates(x, i)| && Candidates(x, i)[k] == Match(j - i, c);
    assert i + Candidates(x, i)[k].length == j;
  }

  lemma JustifiedNext(x: Input, bound: nat, best: seq<nat>, prev: seq<int>, i: nat)
    requires IsInput(x) && TablesFit(x, best, prev) && IsJustified(x, bound, best, prev, i)
    ensures IsJustified(x, bound, best, prev, i + 1)
  {
    hide EntryFrom;
  }

  /** Fills the tables: each entry is justified by an edge, and no edge improves on any. */
  method BestSegmentation(x: Input, ghost bound: nat) returns (best: seq<nat>, prev: seq<int>)
    requires IsInput(x) && CostsFit(x, bound)
    ensures TablesFit(x, best, prev)
    ensures IsJustified(x, bound, best, prev, |x.text|) && IsRelaxed(x, best, |x.text|)
  {
    hide IsInput, CostsFit, IsEdge, CandidatesDone, IsImproved, Candidates, IsKatakanaEdge, EntryFrom;
    best := [0] + seq(|x.text|, _ => UINT32_MAX);
    prev := seq(|x.text| + 1, _ => -1);
    var isPrevKatakana := false;
    for i := 0 to |x.text|
      invariant TablesFit(x, best, prev)
      invariant IsJustified(x, bound, best, prev, i) && IsRelaxed(x, best, i)
      invariant isPrevKatakana == AfterKatakana(x, i)
    {
      EntryMeansVisited(x, bound, best, prev, i, i);
      JustifiedNext(x, bound, best, prev, i);
      if best[i] == UINT32_MAX {
        RelaxedNext(x, best, i);
        continue;
      }
      ghost var before := best;
      best, prev := TryWords(x, bound, best, prev, i);
      ghost var between := best;
      best, prev := TryKatakana(x, bound, best, prev, i, isPrevKatakana);
      IterationRelaxes(x, before, between, best, i);
      isPrevKatakana := IsKatakana(x.text[i]);
    }
  }

  lemma IterationRelaxes(x: Input, before: seq<nat>, between: seq<nat>, best: seq<nat>, i: nat)
    requires IsInput(x) && |before| == |x.text| + 1 && IsRelaxed(x, before, i) && i < |x.text|
    requires IsImproved(before, between, i) && IsImproved(between, best, i)
    requires CandidatesDone(x, between, i, |Candidates(x, i)|)
    requires forall j, c: nat :: 0 <= j < |best| && IsKatakanaEdge(x, i, j, c) ==> best[j] <= best[i] + c
    ensures IsRelaxed(x, best, i + 1)
  {
    hide IsEdge, Candidates, IsKatakanaEdge, IsInput;
    ImprovedIsRelaxed(x, before, between, i);
    ImprovedIsRelaxed(x, between, best, i);
    RelaxedNext(x, best, i);
  }

  // ---------- the breaks ----------

  ghost predicate IsWholeSegmentation(x: Input, cuts: seq<nat>, costs: seq<nat>)
    requires IsInput(x)
  {
    IsSegmentation(x, cuts, costs) && End(cuts) == |x.text|
  }

  /** A cheapest segmentation of the whole text, or just its end if there is none. */
  ghost predicate IsBest(x: Input, cuts: seq<nat>)
    requires IsInput(x)
  {
    || (exists costs :: IsCheapest(x, cuts, costs))
    || (cuts == [|x.text|] && forall cuts', costs' :: !IsWholeSegmentation(x, cuts', costs'))
  }

  ghost predicate IsCheapest(x: Input, cuts: seq<nat>, costs: seq<nat>)
    requires IsInput(x)
  {
    && IsWholeSegmentation(x, cuts, costs)
    && forall cuts', costs' :: IsWholeSegmentation(x, cuts', costs') ==> Sum(costs) <= Sum(costs')
  }

  // ---------- Korean, and Chinese and Japanese ----------

  /** Dictionary words one after the other, up to the last cut. */
  ghost predicate AreWords(x: Input, cuts: seq<nat>, costs: seq<nat>)
    requires IsInput(x)
    decreases |cuts|
  {
    && |cuts| == |costs|
    && (cuts != [] ==>
         var n := |cuts| - 1;
         && AreWords(x, cuts[..n], costs[..n])
         && End(cuts[..n]) < |x.text| && End(cuts[..n]) < cuts[n] && HasWord(x, End(cuts[..n]), cuts[n] - End(cuts[..n]), costs[n]))
  }

  /** In Hangul text the words of a segmentation are words of the dictionary. */
  lemma {:induction false} HangulSegmentsAreWords(x: Input, cuts: seq<nat>, costs: seq<nat>)
    requires IsInput(x) && forall i :: 0 <= i < |x.text| ==> IsHangul(x.text[i])
    ensures IsSegmentation(x, cuts, costs) <==> AreWords(x, cuts, costs)
    decreases |cuts|
  {
    hide IsEdge, IsInput;
    if |cuts| == |costs| && cuts != [] {
      var n := |cuts| - 1;
      HangulSegmentsAreWords(x, cuts[..n], costs[..n]);
      var p := End(cuts[..n]);
      if p < |x.text| {
        EdgesAre(x, p, cuts[n], costs[n]);
        NoRunInHangul(x.text, p, cuts[n]);
      } else {
        NoEdgeAtEnd(x, p, cuts[n], costs[n]);
      }
    }
  }

  lemma NoRunInHangul(text: seq<int>, i: nat, j: int)
    requires forall i :: 0 <= i < |text| ==> IsHangul(text[i])
    ensures !IsRun(text, i, j)
  {
    if i < |text| { assert IsHangul(text[i]); }
  }

  lemma NoEdgeAtEnd(x: Input, i: nat, j: int, c: nat)
    requires IsInput(x) && i >= |x.text|
    ensures !IsEdge(x, i, j, c)
  {
  }

  /** Syllables that no dictionary words cover are left together. */
  lemma UncoveredHangulStaysTogether(x: Input, cuts: seq<nat>)
    requires IsInput(x) && (forall i :: 0 <= i < |x.text| ==> IsHangul(x.text[i])) && IsBest(x, cuts)
    ensures (forall cuts', costs' :: !(AreWords(x, cuts', costs') && End(cuts') == |x.text|)) ==> cuts == [|x.text|]
    ensures (exists cuts', costs' :: AreWords(x, cuts', costs') && End(cuts') == |x.text|) ==>
      exists costs :: AreWords(x, cuts, costs) && End(cuts) == |x.text|
  {
    hide IsSegmentation, AreWords, IsInput;
    forall cuts', costs' ensures IsSegmentation(x, cuts', costs') <==> AreWords(x, cuts', costs') {
      HangulSegmentsAreWords(x, cuts', costs');
    }
    if cuts', costs' :| AreWords(x, cuts', costs') && End(cuts') == |x.text| {
      assert IsWholeSegmentation(x, cuts', costs');
    }
    if costs :| IsCheapest(x, cuts, costs) {
      assert AreWords(x, cuts, costs) && End(cuts) == |x.text|;
    }
  }

  /** Without Hangul the text can always be cut into single characters, so that there is a cheapest segmentation. */
  lemma {:induction false} SingleCharacters(x: Input, n: nat) returns (cuts: seq<nat>, costs: seq<nat>)
    requires IsInput(x) && (forall i :: 0 <= i < |x.text| ==> !IsHangul(x.text[i])) && n <= |x.text|
    ensures IsSegmentation(x, cuts, costs) && End(cuts) == n && |cuts| == n && forall i :: 0 <= i < n ==> cuts[i] == i + 1
    ensures forall i :: 0 <= i < n ==> HasWord(x, i, 1, costs[i]) || (costs[i] == 255 && forall v: nat :: !HasWord(x, i, 1, v))
  {
    hide IsEdge, IsInput;
    if n == 0 {
      cuts, costs := [], [];
    } else {
      var m := n - 1;
      var before, beforeCosts := SingleCharacters(x, m);
      OnePerCharacter(x);
      var c: nat;
      if v: nat :| HasWord(x, m, 1, v) {
        c := v;
      } else {
        c := 255;
      }
      EdgesAre(x, m, n, c);
      cuts, costs := before + [n], beforeCosts + [c];
      assert cuts[..n - 1] == before && costs[..n - 1] == beforeCosts;
    }
  }

  lemma OnePerCharacter(x: Input)
    requires IsInput(x)
    ensures |x.words| == |x.text|
  {
  }

  lemma WithoutHangulThereIsACheapest(x: Input, cuts: seq<nat>)
    requires IsInput(x) && (forall i :: 0 <= i < |x.text| ==> !IsHangul(x.text[i])) && IsBest(x, cuts)
    ensures exists costs :: IsCheapest(x, cuts, costs)
  {
    hide IsSegmentation, IsInput;
    var single, costs := SingleCharacters(x, |x.text|);
    assert IsWholeSegmentation(x, single, costs);
  }

  /** Two syllables without any words stay together. */
  lemma TwoSyllables(cuts: seq<nat>)
    ensures var x := Input([0xAC00, 0xAC01], [[], []]); IsInput(x) && (IsBest(x, cuts) ==> cuts == [2])
  {
    var x := Input([0xAC00, 0xAC01], [[], []]);
    if IsBest(x, cuts) {
      forall cuts', costs' ensures !(AreWords(x, cuts', costs') && End(cuts') == 2) {
        NoWords(x, cuts', costs');
      }
      UncoveredHangulStaysTogether(x, cuts);
    }
  }

  lemma NoWords(x: Input, cuts: seq<nat>, costs: seq<nat>)
    requires x == Input([0xAC00, 0xAC01], [[], []])
    ensures !(AreWords(x, cuts, costs) && End(cuts) == 2)
  {
  }

  lemma TablesDecide(x: Input, bound: nat, best: seq<nat>, prev: seq<int>)
    requires IsInput(x) && CostsFit(x, bound) && TablesFit(x, best, prev)
    requires IsJustified(x, bound, best, prev, |x.text|) && IsRelaxed(x, best, |x.text|)
    ensures IsBest(x, if best[|x.text|] == UINT32_MAX then [|x.text|] else Chain(prev, |x.text|))
  {
    hide IsInput, CostsFit, IsJustified, IsRelaxed, IsSegmentation, Chain, ChainCosts;
    var n := |x.text|;
    forall cuts', costs' | IsWholeSegmentation(x, cuts', costs')
      ensures best[n] != UINT32_MAX && best[n] <= Sum(costs')
    {
      EntryIsLowerBound(x, bound, best, prev, cuts', costs');
    }
    if best[n] != UINT32_MAX {
      ChainAttainsEntry(x, bound, best, prev, n);
      assert IsCheapest(x, Chain(prev, n), ChainCosts(best, prev, n));
    }
  }

  predicate Increases(s: seq<int>) {
    forall i, j :: 0 <= i < j < |s| ==> s[i] < s[j]
  }

  function Reversed(s: seq<nat>): (r: seq<nat>)
    ensures |r| == |s| && forall i :: 0 <= i < |s| ==> r[i] == s[|s| - 1 - i]
  {
    seq(|s|, i requires 0 <= i < |s| => s[|s| - 1 - i])
  }

  function Shifted(s: seq<nat>, d: int): (r: seq<int>)
    ensures |r| == |s| && forall i :: 0 <= i < |s| ==> r[i] == s[i] + d
  {
    seq(|s|, i requires 0 <= i < |s| => s[i] + d)
  }

  /** Follows prev from the end of the text to its start. */
  method FollowBack(x: Input, ghost bound: nat, best: seq<nat>, prev: seq<int>) returns (boundary: seq<nat>)
    requires IsInput(x) && TablesFit(x, best, prev) && IsJustified(x, bound, best, prev, |x.text|)
    requires best[|x.text|] != UINT32_MAX
    ensures Reversed(boundary) == Chain(prev, |x.text|)
  {
    hide IsInput, IsEdge;
    boundary := [];
    var i: int := |x.text|;
    while i > 0
      invariant 0 <= i <= |x.text| && best[i] != UINT32_MAX
      invariant Chain(prev, i) + Reversed(boundary) == Chain(prev, |x.text|)
    {
      assert EntryFrom(x, bound, best, prev, i);
      ghost var before := boundary;
      boundary := boundary + [i];
      assert Reversed(boundary) == [i] + Reversed(before);
      i := prev[i];
    }
  }

  /** Pushes the breaks of a range of length |x.text| that starts at rangeStart; cuts are relative to it. */
  method DivideUpDictionaryRange(x: Input, rangeStart: int, foundBreaks: seq<int>, ghost bound: nat)
    returns (numBreaks: nat, breaks: seq<int>, ghost cuts: seq<nat>)
    requires IsInput(x) && CostsFit(x, bound)
    requires Increases(foundBreaks) && (foundBreaks != [] ==> foundBreaks[|foundBreaks| - 1] <= rangeStart)
    ensures x.text == [] ==> breaks == foundBreaks && numBreaks == 0
    ensures x.text != [] ==>
      && IsBest(x, cuts)
      && breaks == foundBreaks + (StartBreak(foundBreaks, rangeStart) + Shifted(cuts, rangeStart))
      && |breaks| == |foundBreaks| + numBreaks && breaks[|breaks| - 1] == rangeStart + |x.text|
    ensures Increases(breaks)
  {
    hide *;
    breaks, cuts := foundBreaks, [];
    if |x.text| == 0 {
      numBreaks := 0;
      return;
    }
    var boundary;
    boundary, cuts := FindCuts(x, bound);
    numBreaks := |boundary|;
    ghost var before := boundary;
    if foundBreaks == [] || foundBreaks[|foundBreaks| - 1] < rangeStart {
      boundary := boundary + [0];
      numBreaks := numBreaks + 1;
    }
    breaks := PushReversed(boundary, rangeStart, foundBreaks);
    StartIsPushedFirst(foundBreaks, rangeStart, before, boundary);
    BreaksIncrease(foundBreaks, rangeStart, cuts, |x.text|);
  }

  /** The cuts of a best segmentation, last one first. */
  method FindCuts(x: Input, ghost bound: nat) returns (boundary: seq<nat>, ghost cuts: seq<nat>)
    requires IsInput(x) && CostsFit(x, bound) && x.text != []
    ensures cuts == Reversed(boundary) && |boundary| == |cuts| && IsBest(x, cuts) && AreCuts(cuts, |x.text|)
  {
    hide IsInput, CostsFit, IsBest, IsJustified, IsRelaxed, Chain, AreCuts;
    OneCut(|x.text|);
    var best, prev := BestSegmentation(x, bound);
    TablesDecide(x, bound, best, prev);
    if best[|x.text|] == UINT32_MAX {
      boundary := [|x.text|];
      cuts := Reversed(boundary);
      assert cuts == [|x.text|];
    } else {
      boundary := FollowBack(x, bound, best, prev);
      ChainAreCuts(prev, |x.text|);
      cuts := Chain(prev, |x.text|);
    }
  }

  ghost predicate AreCuts(cuts: seq<nat>, n: nat) {
    && cuts != [] && cuts[|cuts| - 1] == n
    && (forall k :: 0 <= k < |cuts| ==> 0 < cuts[k])
    && (forall k, l :: 0 <= k < l < |cuts| ==> cuts[k] < cuts[l])
  }

  lemma OneCut(n: nat)
    requires n > 0
    ensures AreCuts([n], n)
  {
  }

  lemma ChainAreCuts(prev: seq<int>, n: nat)
    requires 0 < n < |prev|
    ensures AreCuts(Chain(prev, n), n)
  {
    ChainIncreases(prev, n);
  }

  lemma StartIsPushedFirst(foundBreaks: seq<int>, rangeStart: int, cuts: seq<nat>, boundary: seq<nat>)
    requires boundary ==
      if foundBreaks == [] || foundBreaks[|foundBreaks| - 1] < rangeStart then cuts + [0] else cuts
    ensures Shifted(Reversed(boundary), rangeStart) ==
            StartBreak(foundBreaks, rangeStart) + Shifted(Reversed(cuts), rangeStart)
  {
  }

  lemma BreaksIncrease(foundBreaks: seq<int>, rangeStart: int, cuts: seq<nat>, n: nat)
    requires Increases(foundBreaks) && (foundBreaks != [] ==> foundBreaks[|foundBreaks| - 1] <= rangeStart)
    requires AreCuts(cuts, n)
    ensures var breaks := foundBreaks + (StartBreak(foundBreaks, rangeStart) + Shifted(cuts, rangeStart));
            Increases(breaks) && breaks[|breaks| - 1] == rangeStart + n
  {
    hide Increases;
    var start, rest := StartBreak(foundBreaks, rangeStart), Shifted(cuts, rangeStart);
    CutsIncrease(cuts, rangeStart, n);
    ConcatIncreases(start, rest);
    ConcatIncreases(foundBreaks, start + rest);
  }

  lemma CutsIncrease(cuts: seq<nat>, rangeStart: int, n: nat)
    requires AreCuts(cuts, n)
    ensures Increases(Shifted(cuts, rangeStart)) && Increases([rangeStart]) && Increases([])
  {
  }

  lemma ConcatIncreases(a: seq<int>, b: seq<int>)
    requires Increases(a) && Increases(b) && (a != [] && b != [] ==> a[|a| - 1] < b[0])
    ensures Increases(a + b)
  {
    forall i, j | 0 <= i < |a| && 0 <= j < |b| ensures a[i] < b[j] {
      assert a[i] <= a[|a| - 1] && b[0] <= b[j];
    }
  }

  /** A break for the start of the range, unless there is one already. */
  function StartBreak(foundBreaks: seq<int>, rangeStart: int): seq<int> {
    if foundBreaks == [] || foundBreaks[|foundBreaks| - 1] < rangeStart then [rangeStart] else []
  }

  method PushReversed(boundary: seq<nat>, rangeStart: int, foundBreaks: seq<int>) returns (breaks: seq<int>)
    ensures breaks == foundBreaks + Shifted(Reversed(boundary), rangeStart)
  {
    breaks := foundBreaks;
    var i := |boundary| - 1;
    while i >= 0
      invariant -1 <= i < |boundary|
      invariant breaks == foundBreaks + Shifted(Reversed(boundary), rangeStart)[..|boundary| - 1 - i]
    {
      breaks := breaks + [boundary[i] + rangeStart];
      i := i - 1;
    }
  }
}
