/** What the dictionary matcher reports meets the contracts that the break engines rely on. */
module BreakDictionaries {
  import opened Basics
  import opened Tries
  import opened DictionaryMatchers
  import LookAheadBreaks
  import CjkBreaks

  function LengthsOf(words: seq<Word>): seq<nat> {
    seq(|words|, i requires 0 <= i < |words| => words[i].length)
  }

  function MatchesOf(words: seq<Word>): seq<CjkBreaks.Match>
    requires forall i :: 0 <= i < |words| ==> words[i].value >= 0
  {
    seq(|words|, i requires 0 <= i < |words| => CjkBreaks.Match(words[i].length, words[i].value))
  }

  /** For the look-ahead engines: at most 20 candidates, ascending, inside the range. */
  lemma LookAheadContractHolds(t: Trie, s: seq<int>, hi: nat)
    requires hi <= |s|
    ensures var all := Words(t, s, 1, hi);
            LookAheadBreaks.AreLengths(LengthsOf(all[..Min(LookAheadBreaks.POSSIBLE_WORD_LIST_MAX, |all|)]), hi)
  {
    WordsAreOrdered(t, s, 1, hi);
  }

  /** For the CJK engine, with one buffer slot for each character: no match is dropped for lack of room. */
  lemma CjkContractHolds(t: Trie, s: seq<int>, hi: nat, limit: nat)
    requires hi <= |s| && hi <= limit
    requires forall i :: 0 <= i < |Words(t, s, 1, hi)| ==> Words(t, s, 1, hi)[i].value >= 0
    ensures var all := Words(t, s, 1, hi);
            |all| <= limit && all[..Min(limit, |all|)] == all && CjkBreaks.AreMatches(MatchesOf(all), hi)
  {
    WordsAreOrdered(t, s, 1, hi);
    FewWords(t, s, 1, hi);
  }

  lemma {:induction false} FewWords(t: Trie, s: seq<int>, lo: nat, hi: nat)
    requires hi <= |s| && lo <= hi + 1
    ensures |Words(t, s, lo, hi)| <= hi + 1 - lo
    decreases hi + 1 - lo
  {
    if lo <= hi {
      FewWords(t, s, lo + 1, hi);
    }
  }
}
