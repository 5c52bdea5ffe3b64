/** The flat list of parts of a pattern, with absolute indexes. */
module MessageParts {
  import opened MessageGrammar
  import opened MessageEvents
  import opened MessageSoundness
  import opened MessageQuoting

  datatype Part = Part(kind: PartType, index: int, length: int, value: int, limitPartIndex: int)

  function PartOf(e: Event, index: int, number: int): seq<Part> {
    match e.mark
    case None => []
    case Some(m) => [Part(m.kind, index + e.at, m.length, m.value, if m.span == 0 then 0 else number + m.span)]
  }

  /** The parts of events whose text starts at index, numbered from first on. */
  function PartsOf(events: seq<Event>, index: int, first: int): (r: seq<Part>)
    ensures |r| == PartCount(events)
  {
    if events == [] then []
    else
      var n := |events| - 1;
      PartsOf(events[..n], index, first) + PartOf(events[n], index + |TextOf(events[..n])|, first + PartCount(events[..n]))
  }

  lemma {:induction false} PartCountConcat(a: seq<Event>, b: seq<Event>)
    ensures PartCount(a + b) == PartCount(a) + PartCount(b)
  {
    MarksConcat(a, b);
    MarksCount(a + b);
    MarksCount(a);
    MarksCount(b);
  }

  lemma {:induction false} PartsConcat(a: seq<Event>, b: seq<Event>, index: int, first: int)
    ensures PartsOf(a + b, index, first) ==
            PartsOf(a, index, first) + PartsOf(b, index + |TextOf(a)|, first + PartCount(a))
  {
    hide TextOf, PartOf;
    if b == [] {
      assert a + b == a;
    } else {
      var n := |b| - 1;
      assert (a + b)[..|a + b| - 1] == a + b[..n];
      PartsConcat(a, b[..n], index, first);
      TextOfConcat(a, b[..n]);
      PartCountConcat(a, b[..n]);
      Assoc(PartsOf(a, index, first), PartsOf(b[..n], index + |TextOf(a)|, first + PartCount(a)),
            PartOf(b[n], index + |TextOf(a)| + |TextOf(b[..n])|, first + PartCount(a) + PartCount(b[..n])));
    }
  }

  lemma PartsOfOne(e: Event, index: int, first: int)
    ensures PartsOf([e], index, first) == PartOf(e, index, first)
  {
    assert [e][..0] == [];
  }

  /** The marks, one by one, with their indexes. */
  lemma {:induction false} PartsAreMarks(events: seq<Event>, index: int, first: int, k: nat)
    requires k < |PartsOf(events, index, first)| && InText(events)
    ensures |Marks(events)| == |PartsOf(events, index, first)|
    ensures var p, m := PartsOf(events, index, first)[k], Marks(events)[k];
            && p.kind == m.kind && p.length == m.length && p.value == m.value
            && p.limitPartIndex == (if m.span == 0 then 0 else first + k + m.span)
            && index <= p.index <= index + |TextOf(events)|
    ensures forall j :: k < j < |PartsOf(events, index, first)| ==>
              PartsOf(events, index, first)[k].index <= PartsOf(events, index, first)[j].index
    decreases |events|
  {
    MarksCount(events);
    var n := |events| - 1;
    var init := events[..n];
    assert events == init + [events[n]];
    TextOfConcat(init, [events[n]]);
    TextOfOne(events[n]);
    MarksCount(init);
    if k < PartCount(init) {
      PartsAreMarks(init, index, first, k);
    }
  }

  // ---------- nesting ----------

  predicate IsStartPart(p: Part) {
    p.kind == MSG_START || p.kind == ARG_START
  }

  predicate IsLimitPart(p: Part) {
    p.kind == MSG_LIMIT || p.kind == ARG_LIMIT
  }

  predicate AreMatchedParts(a: Part, b: Part) {
    && ((a.kind == MSG_START && b.kind == MSG_LIMIT) || (a.kind == ARG_START && b.kind == ARG_LIMIT))
    && a.value == b.value
  }

  /** Each start names its limit, of the same kind, level and type; starts between have their limits between. */
  ghost predicate AreNested(parts: seq<Part>) {
    && (forall j :: 0 <= j < |parts| && IsStartPart(parts[j]) ==>
         var l := parts[j].limitPartIndex;
         && j < l < |parts| && AreMatchedParts(parts[j], parts[l])
         && forall k :: j < k < l && IsStartPart(parts[k]) ==> parts[k].limitPartIndex < l)
    && (forall l :: 0 <= l < |parts| && IsLimitPart(parts[l]) ==>
         exists j :: 0 <= j < l && IsStartPart(parts[j]) && parts[j].limitPartIndex == l)
  }

  ghost predicate IndexesIncrease(parts: seq<Part>, limit: int) {
    && (forall j :: 0 <= j < |parts| ==> 0 <= parts[j].index <= limit)
    && (forall j, k :: 0 <= j < k < |parts| ==> parts[j].index <= parts[k].index)
  }

  /** The parts of every pattern that parses are nested, and their indexes never go back. */
  lemma PartsAreNested(cx: Context, s: Text)
    requires cx.inMessage && ParsePattern(cx, s).Ok?
    ensures var parts := PartsOf(ParsePattern(cx, s).events, 0, 0); AreNested(parts) && IndexesIncrease(parts, |s|)
  {
    hide ParseMessage, PartsOf, TextOf;
    var r := ParsePattern(cx, s);
    MessageIsSound(cx, s, 0, 0, NONE, 0);
    SoundPartsAreNested(r.events, s);
  }

  lemma SoundPartsAreNested(events: seq<Event>, s: Text)
    requires IsSound(s, events, [])
    ensures AreNested(PartsOf(events, 0, 0)) && IndexesIncrease(PartsOf(events, 0, 0), |s|)
  {
    hide PartsOf, TextOf;
    var parts := PartsOf(events, 0, 0);
    var ms := Marks(events);
    MarksCount(events);
    forall k | 0 <= k < |parts|
      ensures parts[k].kind == ms[k].kind && parts[k].value == ms[k].value
      ensures parts[k].limitPartIndex == (if ms[k].span == 0 then 0 else k + ms[k].span)
      ensures 0 <= parts[k].index <= |s|
      ensures forall j :: k < j < |parts| ==> parts[k].index <= parts[j].index
    {
      PartsAreMarks(events, 0, 0, k);
    }
    MarksNestParts(ms, parts);
  }

  lemma MarksNestParts(ms: seq<Mark>, parts: seq<Part>)
    requires IsNested(ms) && |ms| == |parts|
    requires forall k :: 0 <= k < |parts| ==> parts[k].kind == ms[k].kind && parts[k].value == ms[k].value
    requires forall k :: 0 <= k < |parts| ==> parts[k].limitPartIndex == if ms[k].span == 0 then 0 else k + ms[k].span
    ensures AreNested(parts)
  {
    forall j | 0 <= j < |parts| && IsStartPart(parts[j])
      ensures var l := parts[j].limitPartIndex;
              && j < l < |parts| && AreMatchedParts(parts[j], parts[l])
              && forall k :: j < k < l && IsStartPart(parts[k]) ==> parts[k].limitPartIndex < l
    {
      assert StartIsNested(ms, j);
      var l := parts[j].limitPartIndex;
      forall k | j < k < l && IsStartPart(parts[k]) ensures parts[k].limitPartIndex < l {
        assert IsStart(ms[k]);
      }
    }
    forall l | 0 <= l < |parts| && IsLimitPart(parts[l])
      ensures exists j :: 0 <= j < l && IsStartPart(parts[j]) && parts[j].limitPartIndex == l
    {
      assert LimitHasStart(ms, l);
      var j :| 0 <= j < l && IsStart(ms[j]) && j + ms[j].span == l;
      assert IsStartPart(parts[j]) && parts[j].limitPartIndex == l;
    }
  }

  // ---------- inserting the missing apostrophes ----------

  /** The pattern with the characters of all INSERT_CHAR parts from i on inserted, the last one first. */
  function Inserted(s: Text, parts: seq<Part>, i: nat): Text
    requires i <= |parts|
    decreases |parts| - i
  {
    if i == |parts| then s
    else
      var t := Inserted(s, parts, i + 1);
      if parts[i].kind == INSERT_CHAR && 0 <= parts[i].index <= |t| then
        t[..parts[i].index] + [parts[i].value] + t[parts[i].index..]
      else t
  }

  lemma {:induction false} InsertedAfter(s: Text, a: seq<Part>, b: seq<Part>, i: nat)
    requires i <= |b|
    ensures Inserted(s, a + b, |a| + i) == Inserted(s, b, i)
    decreases |b| - i
  {
    if i < |b| {
      InsertedAfter(s, a, b, i + 1);
      assert (a + b)[|a| + i] == b[i];
    }
  }

  /** Inserting by part index and quoting the events give the same pattern. */
  lemma {:induction false} InsertedIsRequoted(before: Text, events: seq<Event>, first: int)
    requires InText(events)
    ensures Inserted(before + TextOf(events), PartsOf(events, |before|, first), 0) == before + TextOf(AllRequoted(events))
    decreases |events|
  {
    hide Inserted, PartsOf, Requoted, PartOf, PartCount, AllRequoted;
    if events == [] {
      NothingInserted(before, first);
    } else {
      var e, rest := events[0], events[1..];
      assert events == [e] + rest;
      var s := before + TextOf(events);
      Assoc(before, e.text, TextOf(rest));
      InsertedIsRequoted(before + e.text, rest, first + PartCount([e]));
      PartsConcat([e], rest, |before|, first);
      PartsOfOne(e, |before|, first);
      TextOfOne(e);
      var p, q := PartOf(e, |before|, first), PartsOf(rest, |before + e.text|, first + PartCount([e]));
      InsertedAfter(s, p, q, 0);
      RequotedText(e, rest);
      assert (p + q)[..|p|] == p;
      InsertOne(before, e, TextOf(AllRequoted(rest)), s, p + q, first);
    }
  }

  lemma NothingInserted(before: Text, first: int)
    ensures Inserted(before + TextOf([]), PartsOf([], |before|, first), 0) == before + TextOf(AllRequoted([]))
  {
  }

  lemma RequotedText(e: Event, rest: seq<Event>)
    ensures TextOf(AllRequoted([e] + rest)) == Requoted(e).text + TextOf(AllRequoted(rest))
  {
    hide TextOf, Requoted;
    RequotedConcat([e], rest);
    TextOfConcat([Requoted(e)], AllRequoted(rest));
    TextOfOne(Requoted(e));
    assert AllRequoted([e]) == [Requoted(e)];
  }

  lemma InsertOne(before: Text, e: Event, after: Text, s: Text, parts: seq<Part>, first: int)
    requires e.at <= |e.text|
    requires var p := PartOf(e, |before|, first); |p| <= |parts| && parts[..|p|] == p
    requires Inserted(s, parts, |PartOf(e, |before|, first)|) == before + e.text + after
    ensures Inserted(s, parts, 0) == before + (Requoted(e).text + after)
  {
    var p := PartOf(e, |before|, first);
    if p != [] {
      assert parts[0] == parts[..1][0] == p[0];
      var t := before + e.text + after;
      var i := |before| + e.at;
      assert t[..i] == before + e.text[..e.at] && t[i..] == e.text[e.at..] + after;
    }
    Assoc(before, e.text, after);
  }

  /**
    * Re-parsing the auto-quoted pattern succeeds and gives the same parts, each
    * INSERT_CHAR turned into SKIP_SYNTAX, with nothing left to insert.
    */
  lemma AutoQuotedParsesAlike(cx: Context, s: Text)
    requires cx.inMessage && ParsePattern(cx, s).Ok?
    ensures var r := ParsePattern(cx, s);
            var quoted := Inserted(s, PartsOf(r.events, 0, 0), 0);
            && ParsePattern(cx, quoted) == Ok(AllRequoted(r.events), [], r.doubles)
            && NoInserts(AllRequoted(r.events))
  {
    hide PartsOf, Inserted, ParseMessage, TextOf;
    var r := ParsePattern(cx, s);
    MessageIsSound(cx, s, 0, 0, NONE, 0);
    InsertedIsRequoted([], r.events, 0);
    assert [] + TextOf(r.events) == s && TextOf(r.events) + [] == TextOf(r.events);
    MessageRequotes(cx, s, 0, 0, NONE, 0, []);
    var quoted := TextOf(AllRequoted(r.events));
    assert [] + quoted == quoted && quoted + [] == quoted;
  }

  /** How many INSERT_CHAR parts there are before part k. */
  function InsertsBefore(parts: seq<Part>, k: nat): nat
    requires k <= |parts|
  {
    if k == 0 then 0 else InsertsBefore(parts, k - 1) + if parts[k - 1].kind == INSERT_CHAR then 1 else 0
  }

  lemma {:induction false} InsertsBeforePrefix(a: seq<Part>, b: seq<Part>, k: nat)
    requires k <= |a|
    ensures InsertsBefore(a + b, k) == InsertsBefore(a, k)
  {
    if k > 0 {
      InsertsBeforePrefix(a, b, k - 1);
    }
  }

  lemma {:induction false} RequotedLength(events: seq<Event>, index: int, first: int)
    requires InText(events)
    ensures |TextOf(AllRequoted(events))| ==
            |TextOf(events)| + InsertsBefore(PartsOf(events, index, first), |PartsOf(events, index, first)|)
    decreases |events|
  {
    hide TextOf, PartCount, PartOf, Requoted, IsInsert;
    if events == [] {
      assert AllRequoted(events) == [];
    } else {
      var n := |events| - 1;
      var init, e := events[..n], events[n];
      RequotedLength(init, index, first);
      assert events == init + [e];
      TextOfConcat(init, [e]);
      TextOfOne(e);
      RequotedConcat(init, [e]);
      assert AllRequoted([e]) == [Requoted(e)];
      TextOfConcat(AllRequoted(init), [Requoted(e)]);
      TextOfOne(Requoted(e));
      LastInsert(PartsOf(init, index, first), e, index + |TextOf(init)|, first + PartCount(init));
    }
  }

  lemma LastInsert(p: seq<Part>, e: Event, index: int, first: int)
    requires e.at <= |e.text|
    ensures var q := PartOf(e, index, first);
            InsertsBefore(p + q, |p + q|) + |e.text| == InsertsBefore(p, |p|) + |Requoted(e).text|
  {
    InsertsBeforePrefix(p, PartOf(e, index, first), |p|);
  }

  /** A part of the quoted pattern: the same as before, moved by the insertions before it. */
  predicate IsShifted(p: Part, p': Part, inserts: nat) {
    && p'.index == p.index + inserts && p'.limitPartIndex == p.limitPartIndex
    && if p.kind == INSERT_CHAR then p'.kind == SKIP_SYNTAX && p'.length == 1 && p'.value == 0
       else p'.kind == p.kind && p'.length == p.length && p'.value == p.value
  }

  predicate InsertsHaveNoSpan(events: seq<Event>) {
    forall i :: 0 <= i < |events| && IsInsert(events[i]) ==> events[i].mark.value.span == 0
  }

  lemma {:induction false} RequotedParts(events: seq<Event>, index: int, first: int, k: nat)
    requires InText(events) && InsertsHaveNoSpan(events)
    requires k < |PartsOf(events, index, first)|
    ensures |PartsOf(AllRequoted(events), index, first)| == |PartsOf(events, index, first)|
    ensures var parts := PartsOf(events, index, first);
            IsShifted(parts[k], PartsOf(AllRequoted(events), index, first)[k], InsertsBefore(parts, k))
    decreases |events|
  {
    hide *;
    NoParts(index, first);
    InTextSnoc(events);
    var n := |events| - 1;
    var init, e := events[..n], events[n];
    var index1, index2, number := index + |TextOf(init)|, index + |TextOf(AllRequoted(init))|, first + PartCount(init);
    PartsSnoc(init, e, index, first);
    PartsSnoc(AllRequoted(init), Requoted(e), index, first);
    RequotedCount(init);
    RequotedSnoc(events);
    PartOfCount(e, Requoted(e), index1, index2, number);
    var p, q := PartsOf(init, index, first), PartOf(e, index1, number);
    InsertsBeforePrefix(p, q, if k < |p| then k else |p|);
    if k < |p| {
      RequotedParts(init, index, first, k);
    } else {
      RequotedLength(init, index, first);
      RequotedPart(e, index1, index2, number);
    }
  }

  lemma NoParts(index: int, first: int)
    ensures PartsOf([], index, first) == []
  {
  }

  lemma PartsSnoc(init: seq<Event>, e: Event, index: int, first: int)
    ensures PartsOf(init + [e], index, first) ==
            PartsOf(init, index, first) + PartOf(e, index + |TextOf(init)|, first + PartCount(init))
  {
    hide TextOf, PartCount, PartOf;
    assert (init + [e])[..|init|] == init;
  }

  lemma InTextSnoc(events: seq<Event>)
    requires InText(events) && InsertsHaveNoSpan(events)
    ensures events != [] ==>
      var n := |events| - 1;
      && events == events[..n] + [events[n]]
      && InText(events[..n]) && InsertsHaveNoSpan(events[..n])
      && events[n].at <= |events[n].text| && (IsInsert(events[n]) ==> events[n].mark.value.span == 0)
  {
  }

  lemma RequotedSnoc(events: seq<Event>)
    requires events != []
    ensures var n := |events| - 1; AllRequoted(events) == AllRequoted(events[..n]) + [Requoted(events[n])]
  {
  }

  lemma PartOfCount(e: Event, e': Event, index: int, index': int, number: int)
    requires e' == Requoted(e)
    ensures |PartOf(e, index, number)| == |PartOf(e', index', number)| <= 1
    ensures PartOf(e, index, number) != [] ==> e.mark.Some?
  {
  }

  lemma RequotedPart(e: Event, index: int, index': int, number: int)
    requires e.mark.Some? && e.at <= |e.text| && (IsInsert(e) ==> e.mark.value.span == 0) && index <= index'
    ensures |PartOf(e, index, number)| == |PartOf(Requoted(e), index', number)| == 1
    ensures IsShifted(PartOf(e, index, number)[0], PartOf(Requoted(e), index', number)[0], index' - index)
  {
  }

  lemma {:induction false} MarkIsIn(events: seq<Event>, i: nat)
    requires i < |events| && events[i].mark.Some?
    ensures events[i].mark.value in Marks(events)
    decreases |events|
  {
    var n := |events| - 1;
    if i < n {
      MarkIsIn(events[..n], i);
    } else {
      assert MarkOf(events[n]) == [events[n].mark.value];
      assert events[n].mark.value in MarkOf(events[n]);
    }
  }

  lemma SoundInsertsHaveNoSpan(events: seq<Event>)
    requires IsNested(Marks(events))
    ensures InsertsHaveNoSpan(events)
  {
    forall i | 0 <= i < |events| && IsInsert(events[i]) ensures events[i].mark.value.span == 0 {
      MarkIsIn(events, i);
      var k :| 0 <= k < |Marks(events)| && Marks(events)[k] == events[i].mark.value;
      assert StartIsNested(Marks(events), k);
    }
  }

  /** Part by part: re-parsing the auto-quoted pattern moves the parts and turns INSERT_CHAR into SKIP_SYNTAX. */
  lemma AutoQuotedPartsAreShifted(cx: Context, s: Text, k: nat)
    requires cx.inMessage && ParsePattern(cx, s).Ok?
    requires k < |PartsOf(ParsePattern(cx, s).events, 0, 0)|
    ensures var parts := PartsOf(ParsePattern(cx, s).events, 0, 0);
            var again := ParsePattern(cx, Inserted(s, parts, 0));
            && again.Ok?
            && var parts' := PartsOf(again.events, 0, 0);
            && |parts'| == |parts| && IsShifted(parts[k], parts'[k], InsertsBefore(parts, k))
            && parts'[k].kind != INSERT_CHAR
  {
    hide PartsOf, Inserted, ParseMessage, TextOf, InsertsBefore;
    var r := ParsePattern(cx, s);
    MessageIsSound(cx, s, 0, 0, NONE, 0);
    AutoQuotedParsesAlike(cx, s);
    SoundInsertsHaveNoSpan(r.events);
    RequotedParts(r.events, 0, 0, k);
  }
}
