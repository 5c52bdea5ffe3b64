/** The recursive descent parser over a mutable list of parts, proved to find the parts that the grammar gives. */
module MessageParser {
  import opened Basics
  import opened MessageGrammar
  import opened MessageEvents
  import opened MessageSoundness
  import opened MessageQuoting
  import opened MessageParts
  import MessageSyntax
  import MessageReading

  // ---------- gluing events ----------

  lemma PrependNothing(p: Parsed)
    ensures Prepend([], p) == p
  {
    if p.Ok? {
      assert [] + p.events == p.events;
    }
  }

  /** parts holds what was there before and then the parts of these events. */
  ghost predicate Emits(before: seq<Part>, parts: seq<Part>, index: int, events: seq<Event>) {
    parts == before + PartsOf(events, index, |before|)
  }

  /** The state after these events: their parts have been added and the quoting flag set if one asks for it. */
  ghost predicate Got(before: seq<Part>, parts: seq<Part>, start: int, quoting: bool, quoting': bool, events: seq<Event>, index: int) {
    && Emits(before, parts, start, events) && index == start + |TextOf(events)|
    && (quoting' <==> quoting || !NoInserts(events))
  }

  lemma GotMore(before: seq<Part>, parts: seq<Part>, parts': seq<Part>, start: int, index: int, index': int,
                q0: bool, q1: bool, q2: bool, a: seq<Event>, b: seq<Event>)
    requires Got(before, parts, start, q0, q1, a, index) && Got(parts, parts', index, q1, q2, b, index')
    ensures Got(before, parts', start, q0, q2, a + b, index')
  {
    hide Emits, TextOf, NoInserts;
    EmitsMore(before, parts, start, a, parts', b);
    NoInsertsConcat(a, b);
  }

  /** More events after some text that has no part. */
  lemma GotBetween(before: seq<Part>, parts: seq<Part>, parts': seq<Part>, start: int, index: int, at: int, index': int,
                   q0: bool, q1: bool, q2: bool, a: seq<Event>, text: Text, b: seq<Event>)
    requires Got(before, parts, start, q0, q1, a, index) && at == index + |text| && Got(parts, parts', at, q1, q2, b, index')
    ensures Got(before, parts', start, q0, q2, a + ([Plain(text)] + b), index')
  {
    hide Got;
    GotPlain(parts, index, q1, text);
    GotMore(parts, parts, parts', index, at, index', q1, q1, q2, [Plain(text)], b);
    GotMore(before, parts, parts', start, index, index', q0, q1, q2, a, [Plain(text)] + b);
  }

  lemma GotPlain(before: seq<Part>, start: int, quoting: bool, text: Text)
    ensures Got(before, before, start, quoting, quoting, [Plain(text)], start + |text|)
  {
    EmitsPlain(before, start, text);
  }

  lemma GotKeeps(before: seq<Part>, parts: seq<Part>, start: int, quoting: bool, quoting': bool, events: seq<Event>, index: int)
    requires Got(before, parts, start, quoting, quoting', events, index)
    ensures start <= index && |before| <= |parts| && (before != [] ==> parts[0] == before[0])
  {
    EmitsKeeps(before, parts, start, events);
  }

  lemma EmitsKeeps(before: seq<Part>, parts: seq<Part>, index: int, events: seq<Event>)
    requires Emits(before, parts, index, events)
    ensures |before| <= |parts| && (before != [] ==> parts[0] == before[0])
  {
  }

  lemma EmitsNothing(before: seq<Part>, index: int)
    ensures Emits(before, before, index, [])
  {
  }

  lemma EmitsMore(before: seq<Part>, parts: seq<Part>, index: int, a: seq<Event>, parts': seq<Part>, b: seq<Event>)
    requires Emits(before, parts, index, a) && Emits(parts, parts', index + |TextOf(a)|, b)
    ensures Emits(before, parts', index, a + b)
    ensures |TextOf(a + b)| == |TextOf(a)| + |TextOf(b)|
  {
    hide PartsOf, TextOf;
    PartsConcat(a, b, index, |before|);
    TextOfConcat(a, b);
    Assoc(before, PartsOf(a, index, |before|), PartsOf(b, index + |TextOf(a)|, |parts|));
  }

  lemma EmitsOne(before: seq<Part>, index: int, e: Event)
    ensures Emits(before, before + PartOf(e, index, |before|), index, [e]) && |TextOf([e])| == |e.text|
  {
    PartsOfOne(e, index, |before|);
    TextOfOne(e);
  }

  lemma EmitsPlain(before: seq<Part>, index: int, text: Text)
    ensures Emits(before, before, index, [Plain(text)]) && |TextOf([Plain(text)])| == |text|
  {
    EmitsOne(before, index, Plain(text));
  }

  /** One event per character. */
  function Plains(s: Text): (r: seq<Event>)
    ensures |r| == |s| && forall i :: 0 <= i < |s| ==> r[i] == Plain([s[i]])
  {
    seq(|s|, i requires 0 <= i < |s| => Plain([s[i]]))
  }

  lemma {:induction false} EmitsPlains(before: seq<Part>, index: int, s: Text)
    ensures Emits(before, before, index, Plains(s)) && |TextOf(Plains(s))| == |s| && NoInserts(Plains(s))
    decreases |s|
  {
    if s == [] {
      assert Plains(s) == [];
    } else {
      var n := |s| - 1;
      EmitsPlains(before, index, s[..n]);
      assert Plains(s) == Plains(s[..n]) + [Plain([s[n]])];
      EmitsPlain(before, index + n, [s[n]]);
      EmitsMore(before, before, index, Plains(s[..n]), before, [Plain([s[n]])]);
    }
  }

  lemma NoInsertsConcat(a: seq<Event>, b: seq<Event>)
    ensures NoInserts(a + b) <==> NoInserts(a) && NoInserts(b)
  {
    if NoInserts(a + b) {
      assert forall i :: 0 <= i < |a| ==> a[i] == (a + b)[i];
      assert forall i :: 0 <= i < |b| ==> b[i] == (a + b)[|a| + i];
    }
  }

  // ---------- numbers ----------

  lemma {:induction false} DigitsGrow(s: Text, i: nat, j: nat)
    requires i <= j <= |s| && AllDigits(s)
    ensures 0 <= DigitsValue(s[..i]) <= DigitsValue(s[..j])
    decreases j
  {
    if i < j {
      DigitsGrow(s, i, j - 1);
      assert s[..j][..j - 1] == s[..j - 1];
    } else if j > 0 {
      DigitsGrow(s, j - 1, j - 1);
      assert s[..j][..j - 1] == s[..j - 1];
    }
  }

  lemma DigitsNext(s: Text, i: nat)
    requires i < |s|
    ensures DigitsValue(s[..i + 1]) == DigitsValue(s[..i]) * 10 + (s[i] - 0x30)
  {
    assert s[..i + 1][..i] == s[..i];
  }

  /** parseArgNumber(): digits without a leading zero, or a name. */
  method ParseArgNumber(s: Text) returns (r: int)
    ensures r == ArgNumber(s)
  {
    if s == [] {
      return ARG_NAME_NOT_VALID;
    }
    var c := s[0];
    var number;
    var badNumber;
    assert s[..0] == [] && s[..|s|] == s;
    DigitsNext(s, 0);
    if c == 0x30 {
      if |s| == 1 {
        assert AllDigits(s) && s[..|s| - 1] == [];
        return 0;
      }
      number := 0;
      badNumber := true;
    } else if 0x31 <= c <= 0x39 {
      number := c - 0x30;
      badNumber := false;
    } else {
      assert !IsDigit(s[0]);
      return ARG_NAME_NOT_NUMBER;
    }
    var start := 1;
    while start < |s|
      invariant 1 <= start <= |s| && AllDigits(s[..start])
      invariant number == DigitsValue(s[..start])
      invariant badNumber <==> (s[0] == 0x30 && |s| > 1) || DigitsValue(s[..start - 1]) >= INT32_MAX / 10
    {
      c := s[start];
      if 0x30 <= c <= 0x39 {
        DigitsNext(s, start);
        DigitsGrow(s[..start], start - 1, start);
        assert s[..start][..start - 1] == s[..start - 1] && s[..start][..start] == s[..start];
        assert s[..start + 1] == s[..start] + [c];
        if number >= INT32_MAX / 10 {
          badNumber := true;
        }
        number := number * 10 + (c - 0x30);
        start := start + 1;
      } else {
        assert !IsDigit(s[start]);
        return ARG_NAME_NOT_NUMBER;
      }
    }
    if badNumber {
      return ARG_NAME_NOT_VALID;
    }
    DigitsGrow(s, |s|, |s|);
    return number;
  }

  /** What parseDouble() finds: a small integer, a double, or neither. */
  method ReadNumber(cx: Context, s: Text, allowInfinity: bool) returns (r: Number)
    requires s != []
    ensures r == NumberOf(cx, s, allowInfinity)
  {
    hide AllDigits, DigitsValue;
    var isNegative := 0;
    var index := 0;
    var c := s[index];
    if c == MINUS {
      isNegative := 1;
      index := index + 1;
      if index == |s| {
        return Bad;
      }
    } else if c == PLUS {
      index := index + 1;
      if index == |s| {
        return Bad;
      }
    }
    SignIs(s);
    if s[index] == INFINITY {
      return if allowInfinity && index + 1 == |s| then Double else Bad;
    }
    var small := SmallInteger(s, index, isNegative);
    if small.Some? {
      return Int(if isNegative == 1 then -small.value else small.value);
    }
    if |s| >= 128 || !cx.isDouble(s) {
      return Bad;
    }
    return Double;
  }

  lemma SmallNumber(cx: Context, s: Text, allowInfinity: bool)
    requires s != [] && NumberOf(cx, s, allowInfinity).Int?
    ensures -MAX_VALUE - 1 <= NumberOf(cx, s, allowInfinity).value <= MAX_VALUE
  {
    SignIs(s);
    DigitsArePositive(if HasSign(s) then s[1..] else s);
  }

  /** The digits of a small integer, or None if there is another character or too large a value. */
  method SmallInteger(s: Text, start: nat, negative: nat) returns (r: Option<int>)
    requires start < |s| && negative <= 1
    ensures var digits := s[start..];
            r == if AllDigits(digits) && DigitsValue(digits) <= MAX_VALUE + negative then Some(DigitsValue(digits)) else None
  {
    var digits := s[start..];
    assert digits[..0] == [] && digits[..|digits|] == digits;
    var value := 0;
    var i := 0;
    while i < |digits|
      invariant 0 <= i <= |digits| && AllDigits(digits[..i])
      invariant value == DigitsValue(digits[..i]) <= MAX_VALUE + negative
    {
      var c := digits[i];
      if !(0x30 <= c <= 0x39) {
        assert !IsDigit(digits[i]);
        return None;
      }
      DigitsNext(digits, i);
      assert digits[..i + 1] == digits[..i] + [c];
      value := value * 10 + (c - 0x30);
      i := i + 1;
      if value > MAX_VALUE + negative {
        if AllDigits(digits) {
          DigitsGrow(digits, i, |digits|);
        }
        return None;
      }
    }
    return Some(value);
  }

  // ---------- text ----------

  lemma ContentToken(cx: Context, s: Text, level: nat, parent: ArgType, quoted: bool, doubles: nat)
    requires (level > 0 || cx.inMessage) && s != [] && TokenAt(cx, s, level, parent, quoted).Token?
    ensures var t := TokenAt(cx, s, level, parent, quoted);
            ParseContent(cx, s, level, parent, quoted, doubles) ==
            Prepend([t.event], ParseContent(cx, s[|t.event.text|..], level, parent, t.quoted, doubles))
  {
    hide TokenAt;
  }

  /** Quoted text up to the next apostrophe. */
  lemma {:induction false} QuotedRun(cx: Context, s: Text, k: nat, level: nat, parent: ArgType, doubles: nat)
    requires (level > 0 || cx.inMessage) && k <= |s| && forall i :: 0 <= i < k ==> s[i] != APOS
    ensures ParseContent(cx, s, level, parent, true, doubles) ==
            Prepend(Plains(s[..k]), ParseContent(cx, s[k..], level, parent, true, doubles))
    decreases k
  {
    hide ParseContent;
    if k == 0 {
      assert Plains(s[..0]) == [] && s[0..] == s;
      PrependNothing(ParseContent(cx, s, level, parent, true, doubles));
    } else {
      ContentToken(cx, s, level, parent, true, doubles);
      QuotedRun(cx, s[1..], k - 1, level, parent, doubles);
      assert s[1..][k - 1..] == s[k..];
      assert Plains(s[..k]) == [Plain([s[0]])] + Plains(s[1..][..k - 1]);
      PrependTwice([Plain([s[0]])], Plains(s[1..][..k - 1]), ParseContent(cx, s[k..], level, parent, true, doubles));
    }
  }

  /** Quoted text up to the end of the pattern. */
  lemma QuotedToEnd(cx: Context, level: nat, parent: ArgType, doubles: nat)
    requires level > 0 || cx.inMessage
    ensures ParseContent(cx, [], level, parent, true, doubles) ==
            Prepend([MISSING_APOS], ParseContent(cx, [], level, parent, false, doubles))
  {
    PrependNothing(ParseEnd(cx, level, parent, doubles));
  }

  /** Where a token leaves the parser, in terms of the content that is left. */
  ghost predicate Continues(cx: Context, msg: Text, level: nat, parent: ArgType, doubles: nat,
                            start: nat, quoted: bool, events: seq<Event>, index: nat, quoted': bool)
    requires (level > 0 || cx.inMessage) && start <= |msg| && index <= |msg|
  {
    && ParseContent(cx, msg[start..], level, parent, quoted, doubles) ==
       Prepend(events, ParseContent(cx, msg[index..], level, parent, quoted', doubles))
    && index == start + |TextOf(events)|
  }

  lemma ContinuesIndex(cx: Context, msg: Text, level: nat, parent: ArgType, doubles: nat,
                       start: nat, quoted: bool, events: seq<Event>, index: nat, quoted': bool)
    requires (level > 0 || cx.inMessage) && start <= |msg| && index <= |msg|
    requires Continues(cx, msg, level, parent, doubles, start, quoted, events, index, quoted')
    ensures index == start + |TextOf(events)|
  {
  }

  lemma ContinuesOn(cx: Context, msg: Text, level: nat, parent: ArgType, doubles: nat,
                    start: nat, q0: bool, a: seq<Event>, i: nat, q1: bool, b: seq<Event>, j: nat, q2: bool)
    requires (level > 0 || cx.inMessage) && start <= |msg| && i <= |msg| && j <= |msg|
    requires Continues(cx, msg, level, parent, doubles, start, q0, a, i, q1)
    requires Continues(cx, msg, level, parent, doubles, i, q1, b, j, q2)
    ensures Continues(cx, msg, level, parent, doubles, start, q0, a + b, j, q2)
  {
    hide ParseContent, TextOf;
    PrependTwice(a, b, ParseContent(cx, msg[j..], level, parent, q2, doubles));
    TextOfConcat(a, b);
  }

  lemma ContinuesToken(cx: Context, msg: Text, level: nat, parent: ArgType, doubles: nat, start: nat, quoted: bool)
    requires (level > 0 || cx.inMessage) && start < |msg| && TokenAt(cx, msg[start..], level, parent, quoted).Token?
    ensures var t := TokenAt(cx, msg[start..], level, parent, quoted);
            var index := start + |t.event.text|;
            index <= |msg| && Continues(cx, msg, level, parent, doubles, start, quoted, [t.event], index, t.quoted)
  {
    hide ParseContent, TokenAt;
    var t := TokenAt(cx, msg[start..], level, parent, quoted);
    ContentToken(cx, msg[start..], level, parent, quoted, doubles);
    TextOfOne(t.event);
    assert msg[start..][|t.event.text|..] == msg[start + |t.event.text|..];
  }

  lemma ContinuesRun(cx: Context, msg: Text, level: nat, parent: ArgType, doubles: nat, start: nat, index: nat)
    requires (level > 0 || cx.inMessage) && start <= index <= |msg| && forall k :: start <= k < index ==> msg[k] != APOS
    ensures Continues(cx, msg, level, parent, doubles, start, true, Plains(msg[start..index]), index, true)
  {
    hide ParseContent, TextOf;
    QuotedRun(cx, msg[start..], index - start, level, parent, doubles);
    assert msg[start..][index - start..] == msg[index..] && msg[start..][..index - start] == msg[start..index];
    EmitsPlains([], 0, msg[start..index]);
  }

  class MessagePattern {
    const cx: Context
    var msg: Text
    var parts: seq<Part>
    var numericValuesLength: nat
    var needsAutoQuoting: bool

    constructor (context: Context)
      requires context.inMessage
      ensures cx == context && msg == [] && parts == []
    {
      cx, msg, parts, numericValuesLength := context, [], [], 0;
      needsAutoQuoting := false;
    }

    /** The length and the value of a part are stored in 16 bits each. */
    method AddPart(kind: PartType, index: int, length: nat, value: int)
      requires length <= MAX_LENGTH && -0x8000 <= value <= MAX_VALUE
      modifies this`parts
      ensures parts == old(parts) + [Part(kind, index, length, value, 0)]
    {
      var wrapped := (value + 0x8000) % 0x10000 - 0x8000;
      parts := parts + [Part(kind, index, length % 0x10000, wrapped, 0)];
    }

    method AddLimitPart(start: nat, kind: PartType, index: int, length: nat, value: int)
      requires start < |parts| && length <= MAX_LENGTH && -0x8000 <= value <= MAX_VALUE
      modifies this`parts
      ensures parts == old(parts)[start := old(parts)[start].(limitPartIndex := |old(parts)|)] + [Part(kind, index, length, value, 0)]
    {
      parts := parts[start := parts[start].(limitPartIndex := |parts|)];
      AddPart(kind, index, length, value);
    }

    /** Adds the part of an event that starts at index. */
    method AddEvent(ghost before: seq<Part>, ghost start: nat, ghost events: seq<Event>, e: Event, index: nat)
      requires e.mark.Some? && e.mark.value.span == 0 && e.mark.value.length <= MAX_LENGTH && -0x8000 <= e.mark.value.value <= MAX_VALUE
      requires Emits(before, parts, start, events) && index == start + |TextOf(events)|
      modifies this`parts
      ensures Emits(before, parts, start, events + [e]) && index + |e.text| == start + |TextOf(events + [e])|
    {
      hide PartsOf, TextOf;
      ghost var parts0 := parts;
      AddPart(e.mark.value.kind, index + e.at, e.mark.value.length, e.mark.value.value);
      EmitsOne(parts0, index, e);
      EmitsMore(before, parts0, start, events, parts, [e]);
    }

    /** The position of the first apostrophe from start on, or a negative number. */
    method IndexOfApos(start: nat) returns (r: int)
      requires start <= |msg|
      ensures r < 0 ==> forall k :: start <= k < |msg| ==> msg[k] != APOS
      ensures r >= 0 ==> start <= r < |msg| && msg[r] == APOS && forall k :: start <= k < r ==> msg[k] != APOS
    {
      var i := start;
      while i < |msg|
        invariant start <= i <= |msg| && forall k :: start <= k < i ==> msg[k] != APOS
      {
        if msg[i] == APOS {
          return i;
        }
        i := i + 1;
      }
      return -1;
    }

    /** Finds the end of quoted literal text whose first character is at start. */
    method ParseQuoted(start: nat, parent: ArgType, ghost level: nat, ghost doubles: nat) returns (index: nat, ghost events: seq<Event>)
      requires (level > 0 || cx.inMessage) && start < |msg| && msg[start] != APOS
      modifies this`parts, this`needsAutoQuoting
      ensures start < index <= |msg| && Continues(cx, msg, level, parent, doubles, start, true, events, index, false)
      ensures Emits(old(parts), parts, start, events)
      ensures needsAutoQuoting <==> old(needsAutoQuoting) || !NoInserts(events)
    {
      hide ParseContent, Emits, TextOf, PartsOf, TokenAt, NoInserts, Continues, Plains, IsInsert;
      index, events := start, [];
      ghost var from := start;
      StartQuoted(cx, msg, level, parent, doubles, start, parts);
      while true
        invariant start <= from <= index + 1 <= |msg| && forall k :: from <= k <= index ==> msg[k] != APOS
        invariant Continues(cx, msg, level, parent, doubles, start, true, events, from, true)
        invariant Emits(old(parts), parts, start, events) && NoInserts(events)
        invariant needsAutoQuoting == old(needsAutoQuoting)
        decreases |msg| - index
      {
        ContinuesIndex(cx, msg, level, parent, doubles, start, true, events, from, true);
        var i := IndexOfApos(index + 1);
        ghost var limit := if i >= 0 then i else |msg|;
        ghost var run := Plains(msg[from..limit]);
        ContinuesRun(cx, msg, level, parent, doubles, from, limit);
        ContinuesOn(cx, msg, level, parent, doubles, start, true, events, from, true, run, limit, true);
        EmitsPlains(parts, from, msg[from..limit]);
        EmitsMore(old(parts), parts, start, events, parts, run);
        NoInsertsConcat(events, run);
        events := events + run;
        ContinuesIndex(cx, msg, level, parent, doubles, start, true, events, limit, true);
        if i >= 0 {
          index := i;
          QuoteToken(cx, msg, level, parent, doubles, index);
          if index + 1 < |msg| && msg[index + 1] == APOS {
            AddEvent(old(parts), start, events, DOUBLE_APOS, index);
            ContinuesOn(cx, msg, level, parent, doubles, start, true, events, index, true, [DOUBLE_APOS], index + 2, true);
            NoInsertsConcat(events, [DOUBLE_APOS]);
            events := events + [DOUBLE_APOS];
            index := index + 1;
            from := index + 1;
          } else {
            AddEvent(old(parts), start, events, QUOTE, index);
            ContinuesOn(cx, msg, level, parent, doubles, start, true, events, index, true, [QUOTE], index + 1, false);
            NoInsertsConcat(events, [QUOTE]);
            events := events + [QUOTE];
            index := index + 1;
            return;
          }
        } else {
          index := |msg|;
          AddEvent(old(parts), start, events, MISSING_APOS, index);
          MissingToken(cx, msg, level, parent, doubles);
          ContinuesOn(cx, msg, level, parent, doubles, start, true, events, index, true, [MISSING_APOS], index, false);
          NoInsertsConcat(events, [MISSING_APOS]);
          events := events + [MISSING_APOS];
          needsAutoQuoting := true;
          return;
        }
      }
    }

    /** Handles an apostrophe at start, with the quoted text that it may begin. */
    method ParseApostrophe(start: nat, parent: ArgType, ghost level: nat, ghost doubles: nat) returns (index: nat, ghost events: seq<Event>)
      requires (level > 0 || cx.inMessage) && start < |msg| && msg[start] == APOS
      modifies this`parts, this`needsAutoQuoting
      ensures start < index <= |msg| && Continues(cx, msg, level, parent, doubles, start, false, events, index, false)
      ensures Emits(old(parts), parts, start, events)
      ensures needsAutoQuoting <==> old(needsAutoQuoting) || !NoInserts(events)
    {
      hide ParseContent, Emits, TextOf, PartsOf, TokenAt, NoInserts, StartsQuote, Continues;
      index := start + 1;
      AposToken(cx, msg, level, parent, doubles, start);
      NothingYet(parts, start);
      if index == |msg| {
        events := [LONE_APOS];
        AddEvent(old(parts), start, [], LONE_APOS, start);
        assert [] + [LONE_APOS] == [LONE_APOS];
        needsAutoQuoting := true;
        return;
      }
      var c := msg[index];
      if c == APOS {
        events := [DOUBLE_APOS];
        AddEvent(old(parts), start, [], DOUBLE_APOS, start);
        assert [] + [DOUBLE_APOS] == [DOUBLE_APOS];
        index := index + 1;
      } else if StartsQuote(cx, parent, c) {
        AddEvent(old(parts), start, [], QUOTE, start);
        assert [] + [QUOTE] == [QUOTE];
        ghost var parts1 := parts;
        TextOfOne(QUOTE);
        index, events := ParseQuoted(index, parent, level, doubles);
        ContinuesOn(cx, msg, level, parent, doubles, start, false, [QUOTE], start + 1, true, events, index, false);
        EmitsMore(old(parts), parts1, start, [QUOTE], parts, events);
        NoInsertsConcat([QUOTE], events);
        events := [QUOTE] + events;
      } else {
        events := [LONE_APOS];
        AddEvent(old(parts), start, [], LONE_APOS, start);
        assert [] + [LONE_APOS] == [LONE_APOS];
        needsAutoQuoting := true;
      }
    }

    /** The outcome of a parsing method is what the grammar says. */
    ghost predicate Agrees(r: Parsed, before: seq<Part>, start: int, quoting: bool, index: int, err: Option<Error>)
      reads this
    {
      if r.Err? then err == Some(r.error)
      else
        && err == None && 0 <= index <= |msg| && r.rest == msg[index..] && numericValuesLength == r.doubles
        && Got(before, parts, start, quoting, needsAutoQuoting, r.events, index)
    }

    ghost predicate InMessage()
      reads this
    {
      cx.inMessage && parts != [] && parts[0].kind == MSG_START
    }

    /** Parses a message, whose first msgStartLength characters open it. */
    method ParseMessage(start: nat, msgStartLength: nat, nestingLevel: nat, parentType: ArgType) returns (index: nat, err: Option<Error>)
      requires cx.inMessage && (parts == [] || parts[0].kind == MSG_START)
      requires start + msgStartLength <= |msg| && msgStartLength <= 1
      modifies this`parts, this`numericValuesLength, this`needsAutoQuoting
      ensures Agrees(MessageGrammar.ParseMessage(cx, msg[start..], msgStartLength, nestingLevel, parentType, old(numericValuesLength)),
                     old(parts), start, old(needsAutoQuoting), index, err)
      ensures err == None ==> InMessage()
      decreases |msg| - start, 3
    {
      hide ParseContent, Emits, TextOf, PartsOf, NoInserts, Continues, ContinuesWith, MessageGrammar.ParseMessage,
        MessageGrammar.ParseArg, PartCount;
      ghost var content := start + msgStartLength;
      ghost var doubles := numericValuesLength;
      MessageIs(cx, msg, start, msgStartLength, nestingLevel, parentType, doubles);
      if nestingLevel > MAX_VALUE {
        return 0, Some(INDEX_OUTOFBOUNDS_ERROR);
      }
      var msgStart := |parts|;
      AddPart(MSG_START, start, msgStartLength, nestingLevel);
      ghost var outer := parts;
      index := start + msgStartLength;
      ghost var events: seq<Event> := [];
      NothingYet(parts, content);
      ContinuesStart(cx, msg, nestingLevel, parentType, content, doubles);
      NoInsertsInNothing();
      while index < |msg|
        invariant content <= index <= |msg| && InMessage()
        invariant ContinuesWith(cx, msg, nestingLevel, parentType, content, doubles, events, index, numericValuesLength)
        invariant Emits(outer, parts, content, events)
        invariant needsAutoQuoting <==> old(needsAutoQuoting) || !NoInserts(events)
        decreases |msg| - index
      {
        var c := msg[index];
        if EndsMessage(nestingLevel, parentType, c) {
          index := FinishMessage(start, msgStartLength, nestingLevel, parentType, index, msgStart,
                                 doubles, events, old(parts), old(needsAutoQuoting));
          return index, None;
        }
        index, err, events := ParseNext(index, nestingLevel, parentType, content, doubles, events, outer, old(needsAutoQuoting));
        if err != None {
          return 0, err;
        }
        EmitsKeeps(outer, parts, content, events);
      }
      index, err := EndMessage(start, msgStartLength, nestingLevel, parentType, msgStart, doubles, events, old(parts), old(needsAutoQuoting));
    }

    /** Finishes a message at the end of the pattern. */
    method EndMessage(start: nat, msgStartLength: nat, nestingLevel: nat, parentType: ArgType, msgStart: nat,
                      ghost doubles: nat, ghost events: seq<Event>, ghost before: seq<Part>, ghost quoting: bool)
      returns (index: nat, err: Option<Error>)
      requires cx.inMessage && start + msgStartLength <= |msg| && msgStartLength <= 1 && nestingLevel <= MAX_VALUE
      requires msgStart == |before| && InMessage()
      requires ContinuesWith(cx, msg, nestingLevel, parentType, start + msgStartLength, doubles, events, |msg|, numericValuesLength)
      requires Emits(before + [Part(MSG_START, start, msgStartLength, nestingLevel, 0)], parts, start + msgStartLength, events)
      requires needsAutoQuoting <==> quoting || !NoInserts(events)
      modifies this`parts
      ensures Agrees(MessageGrammar.ParseMessage(cx, msg[start..], msgStartLength, nestingLevel, parentType, doubles),
                     before, start, quoting, index, err)
      ensures err == None ==> InMessage()
    {
      hide ParseContent, Emits, TextOf, PartsOf, NoInserts, ContinuesWith, MessageGrammar.ParseMessage, PartCount;
      ghost var content := start + msgStartLength;
      index := |msg|;
      MessageIs(cx, msg, start, msgStartLength, nestingLevel, parentType, doubles);
      assert msg[|msg|..] == [];
      ContentIndex(cx, msg, nestingLevel, parentType, content, doubles, events, index, numericValuesLength);
      ContentEnds(cx, msg, nestingLevel, parentType, content, doubles, events, index, numericValuesLength);
      if nestingLevel > 0 && !(nestingLevel == 1 && parentType == CHOICE && parts[0].kind != MSG_START) {
        return 0, Some(UNMATCHED_BRACES);
      }
      MessageCloses(cx, msg, start, msgStartLength, nestingLevel, before, parts, events, LimitEvent([], 0, nestingLevel));
      AddLimitPart(msgStart, MSG_LIMIT, index, 0, nestingLevel);
      err := None;
    }

    /** Finishes a message before its terminator. */
    method FinishMessage(start: nat, msgStartLength: nat, nestingLevel: nat, parentType: ArgType, index: nat, msgStart: nat,
                         ghost doubles: nat, ghost events: seq<Event>, ghost before: seq<Part>, ghost quoting: bool)
      returns (next: nat)
      requires cx.inMessage && start + msgStartLength <= index < |msg| && msgStartLength <= 1 && nestingLevel <= MAX_VALUE
      requires EndsMessage(nestingLevel, parentType, msg[index]) && msgStart == |before|
      requires ContinuesWith(cx, msg, nestingLevel, parentType, start + msgStartLength, doubles, events, index, numericValuesLength)
      requires Emits(before + [Part(MSG_START, start, msgStartLength, nestingLevel, 0)], parts, start + msgStartLength, events)
      requires needsAutoQuoting <==> quoting || !NoInserts(events)
      modifies this`parts
      ensures Agrees(MessageGrammar.ParseMessage(cx, msg[start..], msgStartLength, nestingLevel, parentType, doubles),
                     before, start, quoting, next, None)
      ensures |parts| > |before| && (if before == [] then parts[0].kind == MSG_START else parts[0] == before[0])
    {
      hide ParseContent, Emits, TextOf, PartsOf, NoInserts, MessageGrammar.ParseMessage, PartCount;
      MessageIs(cx, msg, start, msgStartLength, nestingLevel, parentType, doubles);
      ContentEnds(cx, msg, nestingLevel, parentType, start + msgStartLength, doubles, events, index, numericValuesLength);
      var c := msg[index];
      var limitLength := if parentType == CHOICE && c == RIGHT_CURLY then 0 else 1;
      ghost var limit := LimitEvent(if parentType == CHOICE then [] else [c], limitLength, nestingLevel);
      ghost var inner := parts;
      MessageCloses(cx, msg, start, msgStartLength, nestingLevel, before, inner, events, limit);
      AddLimitPart(msgStart, MSG_LIMIT, index, limitLength, nestingLevel);
      if parentType == CHOICE {
        next := index;
      } else {
        next := index + 1;
      }
    }

    /** One apostrophe, number sign, argument or literal character. */
    method ParseNext(start: nat, nestingLevel: nat, parentType: ArgType,
                     ghost content: nat, ghost doubles: nat, ghost before: seq<Event>, ghost outer: seq<Part>, ghost quoting: bool)
      returns (index: nat, err: Option<Error>, ghost events: seq<Event>)
      requires InMessage() && content <= start < |msg| && !EndsMessage(nestingLevel, parentType, msg[start])
      requires ContinuesWith(cx, msg, nestingLevel, parentType, content, doubles, before, start, numericValuesLength)
      requires Emits(outer, parts, content, before)
      requires needsAutoQuoting <==> quoting || !NoInserts(before)
      modifies this`parts, this`numericValuesLength, this`needsAutoQuoting
      ensures err == None ==>
        && start < index <= |msg|
        && ContinuesWith(cx, msg, nestingLevel, parentType, content, doubles, events, index, numericValuesLength)
        && Emits(outer, parts, content, events)
        && (needsAutoQuoting <==> quoting || !NoInserts(events))
      ensures err != None ==> ParseContent(cx, msg[content..], nestingLevel, parentType, false, doubles) == Err(err.value)
      decreases |msg| - start, 1
    {
      hide ParseContent, Emits, TextOf, PartsOf, NoInserts, Continues, ContinuesWith, MessageGrammar.ParseArg, HasPluralStyle;
      var c := msg[start];
      ghost var parts0, n := parts, numericValuesLength;
      ghost var here;
      events := [];
      ContentIndex(cx, msg, nestingLevel, parentType, content, doubles, before, start, n);
      if c == APOS {
        index, here := ParseApostrophe(start, parentType, nestingLevel, n);
        ContinuesStep(cx, msg, nestingLevel, parentType, content, doubles, before, start, n, here, index);
      } else if HasPluralStyle(parentType) && c == POUND {
        here := [NUMBER_SIGN];
        index := start + 1;
        AddPart(REPLACE_NUMBER, start, 1, 0);
        EmitsOne(parts0, start, NUMBER_SIGN);
        ContinuesChar(cx, msg, nestingLevel, parentType, n, start);
        ContinuesStep(cx, msg, nestingLevel, parentType, content, doubles, before, start, n, here, index);
      } else if c == LEFT_CURLY {
        index, err := ParseArg(start, 1, nestingLevel);
        if err != None {
          ArgFails(cx, msg, nestingLevel, parentType, content, doubles, before, start, n);
          return;
        }
        here := MessageGrammar.ParseArg(cx, msg[start..], nestingLevel, n).events;
        ContinuesArg(cx, msg, nestingLevel, parentType, content, doubles, before, start, n, index);
      } else {
        here := [Plain([c])];
        index := start + 1;
        EmitsPlain(parts0, start, [c]);
        ContinuesChar(cx, msg, nestingLevel, parentType, n, start);
        ContinuesStep(cx, msg, nestingLevel, parentType, content, doubles, before, start, n, here, index);
      }
      EmitsMore(outer, parts0, content, before, parts, here);
      NoInsertsConcat(before, here);
      events := before + here;
      err := None;
    }

    /** Parses an argument, from its opening brace to after its closing one. */
    method ParseArg(start: nat, argStartLength: nat, nestingLevel: nat) returns (index: nat, err: Option<Error>)
      requires InMessage() && start < |msg| && msg[start] == LEFT_CURLY && argStartLength == 1
      modifies this`parts, this`numericValuesLength, this`needsAutoQuoting
      ensures Agrees(MessageGrammar.ParseArg(cx, msg[start..], nestingLevel, old(numericValuesLength)),
                     old(parts), start, old(needsAutoQuoting), index, err)
      ensures err == None ==> start < index
      decreases |msg| - start, 0
    {
      hide Got, Emits, TextOf, PartsOf, NoInserts, MessageGrammar.ParseArg, PartCount, ParseHeader, MessageGrammar.ParseStyle, ArgEvents;
      ghost var s := msg[start..];
      ghost var doubles, q0 := numericValuesLength, needsAutoQuoting;
      ArgIs(cx, s, nestingLevel, doubles);
      ghost var name := start + 1;
      assert s[1..] == msg[name..];
      ghost var h := ParseHeader(cx, msg[name..]);
      var argStart := |parts|;
      AddPart(ARG_START, start, argStartLength, TypeValue(NONE));
      var argType, hasStyle;
      index, argType, hasStyle, err := ParseArgHead(start + argStartLength);
      if err != None {
        return 0, err;
      }
      // change the ARG_START type from NONE to argType
      ghost var start1 := old(parts) + [Part(ARG_START, start, 1, TypeValue(argType), 0)];
      GotPatched(old(parts), Part(ARG_START, start, 1, TypeValue(NONE), 0), Part(ARG_START, start, 1, TypeValue(argType), 0),
                 parts, name, q0, h.events, index);
      parts := parts[argStart := parts[argStart].(value := TypeValue(argType))];
      ghost var inner := h.events;
      assert s[2 + h.length..] == msg[index + 1..];
      if hasStyle {
        ghost var parts2, at := parts, index;
        GotKeeps(start1, parts2, name, q0, q0, h.events, index);
        index := index + 1;
        index, err := ParseStyle(argType, index, nestingLevel);
        ghost var style := MessageGrammar.ParseStyle(cx, argType, msg[at + 1..], nestingLevel, doubles);
        if err != None {
          return 0, err;
        }
        GotBetween(start1, parts2, parts, name, at, at + 1, index, q0, q0, needsAutoQuoting, h.events, [COMMA], style.events);
        inner := h.events + ([Plain([COMMA])] + style.events);
        assert style.rest[1..] == msg[index + 1..];
      }
      // Argument parsing stopped on the '}'.
      ArgCloses(old(parts), parts, argType, inner, start, index, q0, needsAutoQuoting);
      AddLimitPart(argStart, ARG_LIMIT, index, 1, TypeValue(argType));
      index := index + 1;
      err := None;
    }

    /** The name and the type of an argument. */
    method ParseArgHead(start: nat) returns (index: nat, argType: ArgType, hasStyle: bool, err: Option<Error>)
      requires start <= |msg|
      modifies this`parts
      ensures var h := ParseHeader(cx, msg[start..]);
              if h.BadHeader? then err == Some(h.error)
              else
                && err == None && index == start + h.length && argType == h.argType && hasStyle == h.hasStyle
                && Got(old(parts), parts, start, needsAutoQuoting, needsAutoQuoting, h.events, index)
    {
      hide Emits, TextOf, PartsOf, NoInserts, ParseHeader, ParseAfterName, NameEvents, WordAt;
      argType, hasStyle := NONE, false;
      ghost var s := msg[start..];
      HeaderParts(cx, s);
      index, err := ParseName(start);
      if err != None {
        return;
      }
      ghost var w := WordAt(cx.isWhiteSpace, cx.isIdentifierPart, s);
      ghost var nameEvents := [Plain(s[..w.start])] + NameEvents(s[w.start..w.end], s[w.end..w.next]).events;
      ghost var parts1, typeIndex := parts, index;
      assert s[w.next..] == msg[index..];
      index, argType, hasStyle, err := ParseArgType(index);
      if err != None {
        return;
      }
      EmitsMore(old(parts), parts1, start, nameEvents, parts, ParseAfterName(cx, msg[typeIndex..]).events);
      HeaderHasNoInserts(cx, s);
    }

    /** White space, an argument name or number, and white space. */
    method ParseName(start: nat) returns (index: nat, err: Option<Error>)
      requires start <= |msg|
      modifies this`parts
      ensures var s := msg[start..];
              var w := WordAt(cx.isWhiteSpace, cx.isIdentifierPart, s);
              var name := NameEvents(s[w.start..w.end], s[w.end..w.next]);
              if w.start == |s| then err == Some(UNMATCHED_BRACES)
              else if name.BadHeader? then err == Some(name.error)
              else
                && err == None && index == start + w.next
                && Emits(old(parts), parts, start, [Plain(s[..w.start])] + name.events)
                && |TextOf([Plain(s[..w.start])] + name.events)| == w.next
    {
      hide Emits, TextOf, PartsOf, PrefixLength, ArgNumber, WordAt;
      ghost var w := WordAt(cx.isWhiteSpace, cx.isIdentifierPart, msg[start..]);
      WordPositions(cx.isWhiteSpace, cx.isIdentifierPart, msg, start);
      var nameIndex := start + PrefixLength(cx.isWhiteSpace, msg[start..]);
      if nameIndex == |msg| {
        return 0, Some(UNMATCHED_BRACES);
      }
      index := nameIndex + PrefixLength(cx.isIdentifierPart, msg[nameIndex..]);
      var name := msg[nameIndex..index];
      var number := ParseArgNumber(name);
      ghost var white, white1 := msg[start..][..w.start], msg[start..][w.end..w.next];
      ghost var e;
      if number >= 0 {
        if |name| > MAX_LENGTH || number > MAX_VALUE {
          return 0, Some(INDEX_OUTOFBOUNDS_ERROR);
        }
        e := Marked(name, ARG_NUMBER, |name|, number);
        AddPart(ARG_NUMBER, nameIndex, |name|, number);
      } else if number == ARG_NAME_NOT_NUMBER {
        if |name| > MAX_LENGTH {
          return 0, Some(INDEX_OUTOFBOUNDS_ERROR);
        }
        e := Marked(name, ARG_NAME, |name|, 0);
        AddPart(ARG_NAME, nameIndex, |name|, 0);
      } else {
        return 0, Some(PATTERN_SYNTAX_ERROR);
      }
      EmitsWord(old(parts), parts, start, white, e, white1);
      assert [Plain(white)] + [e, Plain(white1)] == [Plain(white), e, Plain(white1)];
      index := index + PrefixLength(cx.isWhiteSpace, msg[index..]);
      err := None;
    }

    /** After the name: the closing brace, or a comma and the argument type. */
    method ParseArgType(start: nat) returns (index: nat, argType: ArgType, hasStyle: bool, err: Option<Error>)
      requires start <= |msg|
      modifies this`parts
      ensures var h := ParseAfterName(cx, msg[start..]);
              if h.BadHeader? then err == Some(h.error)
              else
                && err == None && index == start + h.length && argType == h.argType && hasStyle == h.hasStyle
                && Emits(old(parts), parts, start, h.events) && |TextOf(h.events)| == h.length
    {
      hide Emits, TextOf, PartsOf, PrefixLength, ParseType;
      ghost var s := msg[start..];
      index, argType, hasStyle := start, NONE, false;
      if index == |msg| {
        return index, argType, hasStyle, Some(UNMATCHED_BRACES);
      }
      var c := msg[index];
      if c == RIGHT_CURLY {
        NothingYet(parts, start);
        return index, argType, hasStyle, None;
      }
      if c != COMMA {
        return index, argType, hasStyle, Some(PATTERN_SYNTAX_ERROR);
      }
      assert s[1..] == msg[start + 1..];
      EmitsPlain(parts, start, [COMMA]);
      ghost var parts0 := parts;
      index, argType, hasStyle, err := ParseTypeName(start + 1);
      if err == None {
        EmitsMore(parts0, parts0, start, [Plain([COMMA])], parts, ParseType(cx, msg[start + 1..]).events);
      }
    }

    method ParseTypeName(start: nat) returns (index: nat, argType: ArgType, hasStyle: bool, err: Option<Error>)
      requires start <= |msg|
      modifies this`parts
      ensures var h := ParseType(cx, msg[start..]);
              if h.BadHeader? then err == Some(h.error)
              else
                && err == None && index == start + h.length && argType == h.argType && hasStyle == h.hasStyle
                && Emits(old(parts), parts, start, h.events) && |TextOf(h.events)| == h.length
    {
      hide Emits, TextOf, PartsOf, PrefixLength, TypeAt, WordAt, ParseType;
      ghost var w := WordAt(cx.isWhiteSpace, IsArgTypeChar, msg[start..]);
      WordPositions(cx.isWhiteSpace, IsArgTypeChar, msg, start);
      TypeIs(cx, msg[start..]);
      argType, hasStyle := NONE, false;
      var typeIndex := start + PrefixLength(cx.isWhiteSpace, msg[start..]);
      index := typeIndex + PrefixLength(IsArgTypeChar, msg[typeIndex..]);
      var name := msg[typeIndex..index];
      ghost var white, white1 := msg[start..][..w.start], msg[start..][w.end..w.next];
      index := index + PrefixLength(cx.isWhiteSpace, msg[index..]);
      if index == |msg| {
        err := Some(UNMATCHED_BRACES);
        return;
      }
      argType, hasStyle, err := ParseTypeAt(name, msg[index], typeIndex, start, white, white1);
      TypeAtLength(white, name, white1, msg[index]);
    }

    /** The type of this name, if the character after it fits. */
    method ParseTypeAt(name: Text, c: int, typeIndex: nat, ghost start: nat, ghost white: Text, ghost white1: Text)
      returns (argType: ArgType, hasStyle: bool, err: Option<Error>)
      requires typeIndex == start + |white|
      modifies this`parts
      ensures var h := TypeAt(white, name, white1, c);
              if h.BadHeader? then err == Some(h.error)
              else
                && err == None && argType == h.argType && hasStyle == h.hasStyle
                && Emits(old(parts), parts, start, h.events) && |TextOf(h.events)| == h.length
    {
      hide Emits, TextOf, PartsOf, TypeOf;
      argType, hasStyle := NONE, false;
      if |name| == 0 || (c != COMMA && c != RIGHT_CURLY) {
        err := Some(PATTERN_SYNTAX_ERROR);
        return;
      }
      if |name| > MAX_LENGTH {
        err := Some(INDEX_OUTOFBOUNDS_ERROR);
        return;
      }
      argType := TypeOf(name);
      ghost var e := Plain(name);
      if argType == SIMPLE {
        e := Marked(name, ARG_TYPE, |name|, 0);
        AddPart(ARG_TYPE, typeIndex, |name|, 0);
      }
      if c == RIGHT_CURLY && argType != SIMPLE {
        err := Some(PATTERN_SYNTAX_ERROR);
        return;
      }
      EmitsWord(old(parts), parts, start, white, e, white1);
      hasStyle := c == COMMA;
      err := None;
    }

    method ParseStyle(argType: ArgType, start: nat, nestingLevel: nat) returns (index: nat, err: Option<Error>)
      requires InMessage() && start <= |msg|
      modifies this`parts, this`numericValuesLength, this`needsAutoQuoting
      ensures Agrees(MessageGrammar.ParseStyle(cx, argType, msg[start..], nestingLevel, old(numericValuesLength)),
                     old(parts), start, old(needsAutoQuoting), index, err)
      decreases |msg| - start, 9
    {
      hide Got, MessageGrammar.ParseChoiceStyle, MessageGrammar.ParseSimpleStyle, MessageGrammar.ParsePluralOrSelectStyle;
      if argType == CHOICE {
        index, err := ParseChoiceStyle(start, nestingLevel);
      } else if argType == NONE || argType == SIMPLE {
        index, err := ParseSimpleStyle(start);
      } else {
        index, err := ParsePluralOrSelectStyle(argType, start, nestingLevel);
      }
    }

    /** The style text up to the brace that closes the argument. */
    method ParseSimpleStyle(start: nat) returns (index: nat, err: Option<Error>)
      requires start <= |msg|
      modifies this`parts
      ensures Agrees(MessageGrammar.ParseSimpleStyle(msg[start..], numericValuesLength), old(parts), start, needsAutoQuoting, index, err)
    {
      hide Emits, TextOf, PartsOf, SimpleStyleLength, NoInserts;
      var nestedBraces := 0;
      index := start;
      NothingLonger(SimpleStyleLength(msg[start..], 0, false));
      while index < |msg|
        invariant start <= index <= |msg| && 0 <= nestedBraces && parts == old(parts)
        invariant SimpleStyleLength(msg[start..], 0, false) == Longer(index - start, SimpleStyleLength(msg[index..], nestedBraces, false))
      {
        var c := msg[index];
        StyleChar(msg, index, nestedBraces);
        index := index + 1;
        if c == APOS {
          var i := IndexOfApos(index);
          StyleQuote(msg, index, i, nestedBraces);
          if i < 0 {
            return 0, Some(PATTERN_SYNTAX_ERROR);
          }
          index := i + 1;
        } else if c == LEFT_CURLY {
          nestedBraces := nestedBraces + 1;
        } else if c == RIGHT_CURLY {
          if nestedBraces > 0 {
            nestedBraces := nestedBraces - 1;
          } else {
            index := index - 1;
            err := FinishSimpleStyle(start, index);
            return;
          }
        }
      }
      StyleEnds(msg, nestedBraces);
      return 0, Some(UNMATCHED_BRACES);
    }

    method FinishSimpleStyle(start: nat, index: nat) returns (err: Option<Error>)
      requires start <= index <= |msg| && SimpleStyleLength(msg[start..], 0, false) == Style(index - start)
      modifies this`parts
      ensures Agrees(MessageGrammar.ParseSimpleStyle(msg[start..], numericValuesLength), old(parts), start, needsAutoQuoting, index, err)
    {
      hide Emits, TextOf, PartsOf, SimpleStyleLength, NoInserts;
      var length := index - start;
      if length > MAX_LENGTH {
        return Some(INDEX_OUTOFBOUNDS_ERROR);
      }
      assert msg[start..][..length] == msg[start..index] && msg[start..][length..] == msg[index..];
      ghost var e := Marked(msg[start..index], ARG_STYLE, length, 0);
      EmitsOne(parts, start, e);
      OneMarkedHasNoInserts(e);
      AddPart(ARG_STYLE, start, length, 0);
      return None;
    }

    method AddArgDoublePart(start: nat, length: nat) returns (err: Option<Error>)
      requires length <= MAX_LENGTH
      modifies this`parts, this`numericValuesLength
      ensures err == if old(numericValuesLength) > MAX_VALUE then Some(INDEX_OUTOFBOUNDS_ERROR) else None
      ensures err == None ==>
        && parts == old(parts) + [Part(ARG_DOUBLE, start, length, old(numericValuesLength), 0)]
        && numericValuesLength == old(numericValuesLength) + 1
    {
      var numericIndex := numericValuesLength;
      if numericIndex > MAX_VALUE {
        return Some(INDEX_OUTOFBOUNDS_ERROR);
      }
      numericValuesLength := numericValuesLength + 1;
      AddPart(ARG_DOUBLE, start, length, numericIndex);
      return None;
    }

    /** Parses a number and adds an ARG_INT or ARG_DOUBLE part for it. */
    method ParseDouble(start: nat, limit: nat, allowInfinity: bool) returns (err: Option<Error>)
      requires start < limit <= |msg| && limit - start <= MAX_LENGTH
      modifies this`parts, this`numericValuesLength
      ensures var r := MessageGrammar.ParseDouble(cx, msg[start..limit], allowInfinity, old(numericValuesLength));
              if r.Err? then err == Some(r.error)
              else
                && err == None && numericValuesLength == r.doubles
                && Got(old(parts), parts, start, needsAutoQuoting, needsAutoQuoting, r.events, limit)
    {
      hide Got, NumberOf;
      var s := msg[start..limit];
      var number := ReadNumber(cx, s, allowInfinity);
      GotOne(parts, start, needsAutoQuoting, Marked(s, ARG_DOUBLE, |s|, numericValuesLength));
      match number
      case Int(value) =>
        GotOne(parts, start, needsAutoQuoting, Marked(s, ARG_INT, |s|, value));
        SmallNumber(cx, s, allowInfinity);
        AddPart(ARG_INT, start, |s|, value);
        err := None;
      case Double =>
        err := AddArgDoublePart(start, |s|);
      case Bad =>
        err := Some(PATTERN_SYNTAX_ERROR);
    }

    /** How many characters from start on can be in a number. */
    method SkipDouble(start: nat) returns (index: nat)
      requires start <= |msg|
      ensures index == start + PrefixLength(IsDoubleChar, msg[start..])
    {
      index := start;
      while index < |msg|
        invariant start <= index <= |msg|
        invariant PrefixLength(IsDoubleChar, msg[start..]) == index - start + PrefixLength(IsDoubleChar, msg[index..])
      {
        var c := msg[index];
        if (c < 0x30 && c != PLUS && c != MINUS && c != DOT) || (c > 0x39 && c != 0x65 && c != 0x45 && c != INFINITY) {
          return;
        }
        assert msg[index..][1..] == msg[index + 1..];
        index := index + 1;
      }
    }

    /** A number and a separator. */
    method ParseChoiceFront(start: nat) returns (index: nat, err: Option<Error>)
      requires start <= |msg|
      modifies this`parts, this`numericValuesLength
      ensures var f := ChoiceFront(cx, msg[start..], old(numericValuesLength));
              if f.BadFront? then err == Some(f.error)
              else
                && err == None && index == start + f.length && numericValuesLength == f.doubles
                && Got(old(parts), parts, start, needsAutoQuoting, needsAutoQuoting, f.events, index)
    {
      hide Got, PrefixLength, MessageGrammar.ParseDouble, ChoiceFront;
      ghost var doubles := numericValuesLength;
      ChoiceFrontIs(cx, msg, start, doubles);
      index := SkipDouble(start);
      if index == start {
        return 0, Some(PATTERN_SYNTAX_ERROR);
      }
      if index - start > MAX_LENGTH {
        return 0, Some(INDEX_OUTOFBOUNDS_ERROR);
      }
      err := ParseDouble(start, index, true);
      if err != None {
        return 0, err;
      }
      ghost var number := MessageGrammar.ParseDouble(cx, msg[start..index], true, doubles).events;
      ghost var white := index;
      index := index + PrefixLength(cx.isWhiteSpace, msg[index..]);
      if index == |msg| {
        return 0, Some(PATTERN_SYNTAX_ERROR);
      }
      var c := msg[index];
      if !(c == POUND || c == LESS_THAN || c == LESS_OR_EQUAL) {
        return 0, Some(PATTERN_SYNTAX_ERROR);
      }
      GotFront(old(parts), parts, start, needsAutoQuoting, number, white, msg[white..index], c);
      AddPart(ARG_SELECTOR, index, 1, 0);
      index := index + 1;
      err := None;
    }

    /** Choices separated by vertical bars. */
    method ParseChoiceStyle(start: nat, nestingLevel: nat) returns (index: nat, err: Option<Error>)
      requires InMessage() && start <= |msg|
      modifies this`parts, this`numericValuesLength, this`needsAutoQuoting
      ensures Agrees(MessageGrammar.ParseChoiceStyle(cx, msg[start..], nestingLevel, old(numericValuesLength)),
                     old(parts), start, old(needsAutoQuoting), index, err)
      decreases |msg| - start, 6
    {
      hide PrefixLength, ParseChoices, Got;
      ghost var s := msg[start..];
      ghost var whole := MessageGrammar.ParseChoiceStyle(cx, s, nestingLevel, numericValuesLength);
      index := start + PrefixLength(cx.isWhiteSpace, msg[start..]);
      if index == |msg| || msg[index] == RIGHT_CURLY {
        return 0, Some(PATTERN_SYNTAX_ERROR);
      }
      ghost var w := index - start;
      assert s[w..] == msg[index..] && s[w] == msg[index];
      ghost var events := [Plain(s[..w])];
      GotPlain(parts, start, needsAutoQuoting, s[..w]);
      while true
        invariant start <= index <= |msg| && InMessage()
        invariant whole == Prepend(events, ParseChoices(cx, msg[index..], nestingLevel, numericValuesLength))
        invariant Got(old(parts), parts, start, old(needsAutoQuoting), needsAutoQuoting, events, index)
        decreases |msg| - index
      {
        var done;
        index, done, err, events := ParseChoice(index, nestingLevel, old(parts), start, events, old(needsAutoQuoting), whole);
        if err != None {
          return 0, err;
        }
        if done {
          return;
        }
        GotKeeps(old(parts), parts, start, old(needsAutoQuoting), needsAutoQuoting, events, index);
      }
    }

    /** One number, separator and message, and a vertical bar if there is one. */
    method ParseChoice(start: nat, nestingLevel: nat, ghost before: seq<Part>, ghost style: nat, ghost events0: seq<Event>,
                       ghost quoting: bool, ghost whole: Parsed)
      returns (index: nat, done: bool, err: Option<Error>, ghost events: seq<Event>)
      requires InMessage() && style <= start <= |msg|
      requires whole == Prepend(events0, ParseChoices(cx, msg[start..], nestingLevel, numericValuesLength))
      requires Got(before, parts, style, quoting, needsAutoQuoting, events0, start)
      modifies this`parts, this`numericValuesLength, this`needsAutoQuoting
      ensures err != None ==> whole == Err(err.value)
      ensures err == None && done ==> Agrees(whole, before, style, quoting, index, None)
      ensures err == None && !done ==>
        && start < index <= |msg|
        && whole == Prepend(events, ParseChoices(cx, msg[index..], nestingLevel, numericValuesLength))
        && Got(before, parts, style, quoting, needsAutoQuoting, events, index)
      decreases |msg| - start, 5
    {
      hide PrefixLength, ParseChoices, ParseMoreChoices, Got;
      done := false;
      index, err, events := ParseChoiceMessage(start, nestingLevel, before, style, events0, quoting, whole);
      if err != None {
        return;
      }
      ghost var n := numericValuesLength;
      MoreChoicesAre(cx, msg, index, nestingLevel, n);
      if index == |msg| || msg[index] == RIGHT_CURLY {
        // in a message format pattern, since parts[0] is a MSG_START
        done := true;
        assert events + [] == events;
        return;
      }
      ghost var bar := index;
      index := index + 1 + PrefixLength(cx.isWhiteSpace, msg[index + 1..]);
      ghost var white := Plain(msg[bar..index]);
      GotPlain(parts, bar, needsAutoQuoting, msg[bar..index]);
      GotMore(before, parts, parts, style, bar, index, quoting, needsAutoQuoting, needsAutoQuoting, events, [white]);
      PrependTwice(events, [white], ParseChoices(cx, msg[index..], nestingLevel, n));
      events := events + [white];
    }

    method ParseChoiceMessage(start: nat, nestingLevel: nat, ghost before: seq<Part>, ghost style: nat, ghost events0: seq<Event>,
                              ghost quoting: bool, ghost whole: Parsed)
      returns (index: nat, err: Option<Error>, ghost events: seq<Event>)
      requires InMessage() && style <= start <= |msg|
      requires whole == Prepend(events0, ParseChoices(cx, msg[start..], nestingLevel, numericValuesLength))
      requires Got(before, parts, style, quoting, needsAutoQuoting, events0, start)
      modifies this`parts, this`numericValuesLength, this`needsAutoQuoting
      ensures err != None ==> whole == Err(err.value)
      ensures err == None ==>
        && start < index <= |msg| && IsAfterContent(cx, nestingLevel + 1, CHOICE, msg[index..])
        && whole == Prepend(events, ParseMoreChoices(cx, msg[index..], nestingLevel, numericValuesLength))
        && Got(before, parts, style, quoting, needsAutoQuoting, events, index)
      decreases |msg| - start, 4
    {
      hide PrefixLength, ParseChoices, ChoiceFront, MessageGrammar.ParseMessage, ParseMoreChoices, Got;
      events := events0;
      ghost var doubles := numericValuesLength;
      ChoicesAre(cx, msg[start..], nestingLevel, doubles);
      ghost var f := ChoiceFront(cx, msg[start..], doubles);
      ghost var parts0, q0 := parts, needsAutoQuoting;
      index, err := ParseChoiceFront(start);
      if err != None {
        return;
      }
      GotKeeps(parts0, parts, start, q0, q0, f.events, index);
      assert msg[start..][f.length..] == msg[index..];
      ghost var parts1, at := parts, index;
      ghost var message := MessageGrammar.ParseMessage(cx, msg[index..], 0, nestingLevel + 1, CHOICE, numericValuesLength);
      index, err := ParseMessage(index, 0, nestingLevel + 1, CHOICE);
      if err != None {
        return;
      }
      GotKeeps(parts1, parts, at, q0, needsAutoQuoting, message.events, index);
      GotMore(parts0, parts1, parts, start, at, index, q0, q0, needsAutoQuoting, f.events, message.events);
      GotMore(before, parts0, parts, style, start, index, quoting, q0, needsAutoQuoting, events0, f.events + message.events);
      PrependTwice(events0, f.events + message.events, ParseMoreChoices(cx, msg[index..], nestingLevel, numericValuesLength));
      events := events0 + (f.events + message.events);
    }

    method ParsePluralOrSelectStyle(argType: ArgType, start: nat, nestingLevel: nat) returns (index: nat, err: Option<Error>)
      requires InMessage() && start <= |msg| && argType != NONE && argType != SIMPLE && argType != CHOICE
      modifies this`parts, this`numericValuesLength, this`needsAutoQuoting
      ensures Agrees(MessageGrammar.ParsePluralOrSelectStyle(cx, argType, msg[start..], nestingLevel, true, false, old(numericValuesLength)),
                     old(parts), start, old(needsAutoQuoting), index, err)
      decreases |msg| - start, 7
    {
      hide PrefixLength, MessageGrammar.ParsePluralOrSelectStyle, Got;
      ghost var whole := MessageGrammar.ParsePluralOrSelectStyle(cx, argType, msg[start..], nestingLevel, true, false, numericValuesLength);
      var isEmpty, hasOther := true, false;
      index := start;
      ghost var events: seq<Event> := [];
      PrependNothing(whole);
      GotNothing(parts, start, needsAutoQuoting);
      while true
        invariant start <= index <= |msg| && InMessage()
        invariant whole == Prepend(events, MessageGrammar.ParsePluralOrSelectStyle(cx, argType, msg[index..], nestingLevel, isEmpty, hasOther, numericValuesLength))
        invariant Got(old(parts), parts, start, old(needsAutoQuoting), needsAutoQuoting, events, index)
        decreases |msg| - index
      {
        var done;
        index, done, isEmpty, hasOther, err, events :=
          ParseSelection(argType, index, nestingLevel, isEmpty, hasOther, old(parts), start, events, old(needsAutoQuoting), whole);
        if err != None {
          return 0, err;
        }
        if done {
          return;
        }
        GotKeeps(old(parts), parts, start, old(needsAutoQuoting), needsAutoQuoting, events, index);
      }
    }

    /** The end of the style, or an offset, or a selector and its message. */
    method ParseSelection(argType: ArgType, start: nat, nestingLevel: nat, isEmpty0: bool, hasOther0: bool,
                          ghost before: seq<Part>, ghost style: nat, ghost events0: seq<Event>, ghost quoting: bool, ghost whole: Parsed)
      returns (index: nat, done: bool, isEmpty: bool, hasOther: bool, err: Option<Error>, ghost events: seq<Event>)
      requires InMessage() && style <= start <= |msg|
      requires whole == Prepend(events0, MessageGrammar.ParsePluralOrSelectStyle(cx, argType, msg[start..], nestingLevel, isEmpty0, hasOther0, numericValuesLength))
      requires Got(before, parts, style, quoting, needsAutoQuoting, events0, start)
      modifies this`parts, this`numericValuesLength, this`needsAutoQuoting
      ensures err != None ==> whole == Err(err.value)
      ensures err == None && done ==> Agrees(whole, before, style, quoting, index, None)
      ensures err == None && !done ==>
        && start < index <= |msg|
        && whole == Prepend(events, MessageGrammar.ParsePluralOrSelectStyle(cx, argType, msg[index..], nestingLevel, isEmpty, hasOther, numericValuesLength))
        && Got(before, parts, style, quoting, needsAutoQuoting, events, index)
      decreases |msg| - start, 6
    {
      hide PrefixLength, MessageGrammar.ParsePluralOrSelectStyle, ParseSelector, Got;
      isEmpty, hasOther, done, events := isEmpty0, hasOther0, false, events0;
      PluralStyleIs(cx, argType, msg, start, nestingLevel, isEmpty0, hasOther0, numericValuesLength);
      index := start + PrefixLength(cx.isWhiteSpace, msg[start..]);
      ghost var white := Plain(msg[start..index]);
      GotPlain(parts, start, needsAutoQuoting, msg[start..index]);
      GotMore(before, parts, parts, style, start, index, quoting, needsAutoQuoting, needsAutoQuoting, events0, [white]);
      var eos := index == |msg|;
      if eos || msg[index] == RIGHT_CURLY {
        if eos == (nestingLevel > 0 || parts[0].kind == MSG_START) {
          err := Some(PATTERN_SYNTAX_ERROR);
          return;
        }
        if !hasOther {
          err := Some(DEFAULT_KEYWORD_MISSING);
          return;
        }
        err := None;
        done := true;
        return;
      }
      PrependTwice(events0, [white], ParseSelector(cx, argType, msg[index..], nestingLevel, isEmpty0, hasOther0, numericValuesLength));
      index, isEmpty, hasOther, err, events :=
        ParseSelectorAndMessage(argType, index, nestingLevel, isEmpty0, hasOther0, before, style, events0 + [white], quoting, whole);
    }

    method ParseSelectorAndMessage(argType: ArgType, start: nat, nestingLevel: nat, isEmpty0: bool, hasOther0: bool,
                                   ghost before: seq<Part>, ghost style: nat, ghost events0: seq<Event>, ghost quoting: bool, ghost whole: Parsed)
      returns (index: nat, isEmpty: bool, hasOther: bool, err: Option<Error>, ghost events: seq<Event>)
      requires InMessage() && style <= start < |msg|
      requires whole == Prepend(events0, ParseSelector(cx, argType, msg[start..], nestingLevel, isEmpty0, hasOther0, numericValuesLength))
      requires Got(before, parts, style, quoting, needsAutoQuoting, events0, start)
      modifies this`parts, this`numericValuesLength, this`needsAutoQuoting
      ensures err != None ==> whole == Err(err.value)
      ensures err == None ==>
        && start < index <= |msg|
        && whole == Prepend(events, MessageGrammar.ParsePluralOrSelectStyle(cx, argType, msg[index..], nestingLevel, isEmpty, hasOther, numericValuesLength))
        && Got(before, parts, style, quoting, needsAutoQuoting, events, index)
      decreases |msg| - start, 5
    {
      hide PrefixLength, MessageGrammar.ParsePluralOrSelectStyle, ParseSelector, SelectorFront, Got, ParseSelected;
      isEmpty, hasOther, events := false, hasOther0, events0;
      ghost var f := SelectorFront(cx, argType, msg[start..], isEmpty0, numericValuesLength);
      SelectorIs(cx, argType, msg[start..], nestingLevel, isEmpty0, hasOther0, numericValuesLength);
      ghost var parts0, q0 := parts, needsAutoQuoting;
      var isOffset, isOther;
      index, isOffset, isOther, err := ParseSelectorFront(argType, start, isEmpty0);
      if err != None {
        return;
      }
      GotKeeps(parts0, parts, start, q0, q0, f.events, index);
      GotMore(before, parts0, parts, style, start, index, quoting, q0, q0, events0, f.events);
      events := events0 + f.events;
      assert msg[start..][f.length..] == msg[index..];
      if isOffset {
        PrependTwice(events0, f.events,
                     MessageGrammar.ParsePluralOrSelectStyle(cx, argType, msg[index..], nestingLevel, false, hasOther, numericValuesLength));
        return;
      }
      hasOther := hasOther || isOther;
      PrependTwice(events0, f.events, ParseSelected(cx, argType, msg[index..], nestingLevel, hasOther, numericValuesLength));
      index, err, events := ParseSelectedMessage(argType, index, nestingLevel, hasOther, before, style, events, quoting, whole);
    }

    /** The message after a selector. */
    method ParseSelectedMessage(argType: ArgType, start: nat, nestingLevel: nat, ghost hasOther: bool,
                                ghost before: seq<Part>, ghost style: nat, ghost events0: seq<Event>, ghost quoting: bool, ghost whole: Parsed)
      returns (index: nat, err: Option<Error>, ghost events: seq<Event>)
      requires InMessage() && style <= start <= |msg|
      requires whole == Prepend(events0, ParseSelected(cx, argType, msg[start..], nestingLevel, hasOther, numericValuesLength))
      requires Got(before, parts, style, quoting, needsAutoQuoting, events0, start)
      modifies this`parts, this`numericValuesLength, this`needsAutoQuoting
      ensures err != None ==> whole == Err(err.value)
      ensures err == None ==>
        && start < index <= |msg|
        && whole == Prepend(events, MessageGrammar.ParsePluralOrSelectStyle(cx, argType, msg[index..], nestingLevel, false, hasOther, numericValuesLength))
        && Got(before, parts, style, quoting, needsAutoQuoting, events, index)
      decreases |msg| - start, 4
    {
      hide PrefixLength, MessageGrammar.ParsePluralOrSelectStyle, MessageGrammar.ParseMessage, ParseSelected, Got;
      events := events0;
      SelectedIs(cx, argType, msg, start, nestingLevel, hasOther, numericValuesLength);
      index := start + PrefixLength(cx.isWhiteSpace, msg[start..]);
      if index == |msg| || msg[index] != LEFT_CURLY {
        err := Some(PATTERN_SYNTAX_ERROR);
        return;
      }
      ghost var white := Plain(msg[start..index]);
      ghost var parts0, q0, at := parts, needsAutoQuoting, index;
      ghost var message := MessageGrammar.ParseMessage(cx, msg[index..], 1, nestingLevel + 1, argType, numericValuesLength);
      index, err := ParseMessage(index, 1, nestingLevel + 1, argType);
      if err != None {
        return;
      }
      GotKeeps(parts0, parts, at, q0, needsAutoQuoting, message.events, index);
      MessageAdvances(cx, msg, at, nestingLevel, argType, message.doubles, message.rest, index);
      GotBetween(before, parts0, parts, style, start, at, index, quoting, q0, needsAutoQuoting, events0, msg[start..at], message.events);
      PrependTwice(events0, [white] + message.events,
                   MessageGrammar.ParsePluralOrSelectStyle(cx, argType, msg[index..], nestingLevel, false, hasOther, numericValuesLength));
      events := events0 + ([white] + message.events);
    }

    /** An explicit value, an offset, or a word. */
    method ParseSelectorFront(argType: ArgType, start: nat, isEmpty: bool)
      returns (index: nat, isOffset: bool, isOther: bool, err: Option<Error>)
      requires start < |msg|
      modifies this`parts, this`numericValuesLength
      ensures var f := SelectorFront(cx, argType, msg[start..], isEmpty, old(numericValuesLength));
              if f.BadFront? then err == Some(f.error)
              else
                && err == None && index == start + f.length && numericValuesLength == f.doubles
                && isOffset == f.isOffset && isOther == f.isOther
                && Got(old(parts), parts, start, needsAutoQuoting, needsAutoQuoting, f.events, index)
    {
      hide PrefixLength, MessageGrammar.ParseDouble, OffsetFront, Got, SelectorFront, HasPluralStyle;
      SelectorFrontIs(cx, argType, msg, start, isEmpty, numericValuesLength);
      index, isOffset, isOther := start, false, false;
      if HasPluralStyle(argType) && msg[start] == EQUAL {
        index, err := ParseExplicitValue(start);
      } else {
        index := start + PrefixLength(cx.isIdentifierPart, msg[start..]);
        var length := index - start;
        if length == 0 {
          err := Some(PATTERN_SYNTAX_ERROR);
          return;
        }
        if HasPluralStyle(argType) && length == 6 && OFFSET_COLON <= msg[start..] {
          if !isEmpty {
            err := Some(PATTERN_SYNTAX_ERROR);
            return;
          }
          index, err := ParseOffset(start);
          isOffset := true;
        } else {
          if length > MAX_LENGTH {
            err := Some(INDEX_OUTOFBOUNDS_ERROR);
            return;
          }
          GotOne(parts, start, needsAutoQuoting, Marked(msg[start..index], ARG_SELECTOR, length, 0));
          AddPart(ARG_SELECTOR, start, length, 0);
          isOther := msg[start..index] == OTHER_NAME;
          err := None;
        }
      }
    }

    /** An equal sign and a number. */
    method ParseExplicitValue(start: nat) returns (index: nat, err: Option<Error>)
      requires start < |msg| && msg[start] == EQUAL
      modifies this`parts, this`numericValuesLength
      ensures var a := start + 1 + PrefixLength(IsDoubleChar, msg[start + 1..]);
              var number := MessageGrammar.ParseDouble(cx, msg[start + 1..a], false, old(numericValuesLength));
              if a == start + 1 then err == Some(PATTERN_SYNTAX_ERROR)
              else if a - start > MAX_LENGTH then err == Some(INDEX_OUTOFBOUNDS_ERROR)
              else if number.Err? then err == Some(number.error)
              else
                && err == None && index == a && numericValuesLength == number.doubles
                && Got(old(parts), parts, start, needsAutoQuoting, needsAutoQuoting, [Marked([EQUAL], ARG_SELECTOR, a - start, 0)] + number.events, index)
    {
      hide PrefixLength, MessageGrammar.ParseDouble, Got;
      ghost var doubles := numericValuesLength;
      index := SkipDouble(start + 1);
      var length := index - start;
      if length == 1 {
        err := Some(PATTERN_SYNTAX_ERROR);
        return;
      }
      if length > MAX_LENGTH {
        err := Some(INDEX_OUTOFBOUNDS_ERROR);
        return;
      }
      ghost var e := Marked([EQUAL], ARG_SELECTOR, length, 0);
      GotOne(parts, start, needsAutoQuoting, e);
      AddPart(ARG_SELECTOR, start, length, 0);
      ghost var parts1 := parts;
      err := ParseDouble(start + 1, index, false);
      if err == None {
        GotMore(old(parts), parts1, parts, start, start + 1, index, needsAutoQuoting, needsAutoQuoting, needsAutoQuoting, [e],
                MessageGrammar.ParseDouble(cx, msg[start + 1..index], false, doubles).events);
      }
    }

    /** The keyword offset, a colon and a number. */
    method ParseOffset(start: nat) returns (index: nat, err: Option<Error>)
      requires start + 7 <= |msg|
      modifies this`parts, this`numericValuesLength
      ensures var f := OffsetFront(cx, msg[start..start + 7], msg[start + 7..], old(numericValuesLength));
              if f.BadFront? then err == Some(f.error)
              else
                && err == None && index == start + f.length && numericValuesLength == f.doubles
                && Got(old(parts), parts, start, needsAutoQuoting, needsAutoQuoting, f.events, index)
    {
      hide PrefixLength, MessageGrammar.ParseDouble, OffsetFront, Got;
      ghost var doubles := numericValuesLength;
      OffsetFrontIs(cx, msg, start, doubles);
      var valueIndex := start + 7 + PrefixLength(cx.isWhiteSpace, msg[start + 7..]);
      index := SkipDouble(valueIndex);
      if index == valueIndex {
        err := Some(PATTERN_SYNTAX_ERROR);
        return;
      }
      if index - valueIndex > MAX_LENGTH {
        err := Some(INDEX_OUTOFBOUNDS_ERROR);
        return;
      }
      ghost var keyword, white := Plain(msg[start..start + 7]), Plain(msg[start + 7..valueIndex]);
      ghost var q := needsAutoQuoting;
      GotPlain(parts, start, q, keyword.text);
      GotPlain(parts, start + 7, q, white.text);
      err := ParseDouble(valueIndex, index, false);
      if err == None {
        ghost var number := MessageGrammar.ParseDouble(cx, msg[valueIndex..index], false, doubles).events;
        GotMore(old(parts), old(parts), parts, start + 7, valueIndex, index, q, q, q, [white], number);
        GotMore(old(parts), old(parts), parts, start, start + 7, index, q, q, q, [keyword], [white] + number);
      }
    }

    /** Parses a whole pattern: the parts are those that the grammar finds. */
    method Parse(pattern: Text) returns (err: Option<Error>)
      requires cx.inMessage
      modifies this
      ensures msg == pattern
      ensures var r := ParsePattern(cx, pattern);
              if r.Err? then err == Some(r.error)
              else
                && err == None && parts == PartsOf(r.events, 0, 0)
                && (needsAutoQuoting <==> !NoInserts(r.events))
                && AreNested(parts) && IndexesIncrease(parts, |pattern|)
      ensures MessageSyntax.IsPatternContext(cx) ==>
              && (err == None <==> exists m :: MessageSyntax.IsPattern(cx, m) && MessageSyntax.Print(m) == pattern)
              && forall m :: MessageSyntax.IsPattern(cx, m) && MessageSyntax.Print(m) == pattern ==> parts == MessageSyntax.PatternParts(m)
    {
      hide MessageSyntax.IsPatternContext, MessageSyntax.IsPattern, MessageSyntax.Print, MessageSyntax.PatternParts;
      hide MessageGrammar.ParseMessage, PartsOf, NoInserts, AreNested, IndexesIncrease, TextOf;
      msg := pattern;
      needsAutoQuoting := false;
      parts, numericValuesLength := [], 0;
      var index;
      index, err := ParseMessage(0, 0, 0, NONE);
      assert pattern[0..] == pattern;
      if err == None {
        PartsAreNested(cx, pattern);
        assert [] + PartsOf(ParsePattern(cx, pattern).events, 0, 0) == PartsOf(ParsePattern(cx, pattern).events, 0, 0);
      }
      if MessageSyntax.IsPatternContext(cx) {
        MessageReading.ParsesIffPattern(cx, pattern);
      }
    }

    /** Inserts the missing apostrophes, from the last one to the first so that the indexes stay right. */
    method AutoQuoteApostropheDeep() returns (modified: Text)
      requires cx.inMessage && ParsePattern(cx, msg).Ok? && parts == PartsOf(ParsePattern(cx, msg).events, 0, 0)
      requires needsAutoQuoting <==> !NoInserts(ParsePattern(cx, msg).events)
      ensures modified == Inserted(msg, parts, 0)
      ensures ParsePattern(cx, modified) == Ok(AllRequoted(ParsePattern(cx, msg).events), [], ParsePattern(cx, msg).doubles)
      ensures NoInserts(AllRequoted(ParsePattern(cx, msg).events))
    {
      hide ParsePattern, PartsOf, NoInserts, AllRequoted;
      AutoQuotedParsesAlike(cx, msg);
      if !needsAutoQuoting {
        NothingToInsert(cx, msg);
        return msg;
      }
      modified := msg;
      var i := |parts|;
      while i > 0
        invariant 0 <= i <= |parts| && modified == Inserted(msg, parts, i)
      {
        i := i - 1;
        var part := parts[i];
        if part.kind == INSERT_CHAR && 0 <= part.index <= |modified| {
          modified := modified[..part.index] + [part.value] + modified[part.index..];
        }
      }
    }
  }

  lemma StartQuoted(cx: Context, msg: Text, level: nat, parent: ArgType, doubles: nat, start: nat, parts: seq<Part>)
    requires (level > 0 || cx.inMessage) && start <= |msg|
    ensures Continues(cx, msg, level, parent, doubles, start, true, [], start, true)
    ensures Continues(cx, msg, level, parent, doubles, start, false, [], start, false)
    ensures Emits(parts, parts, start, []) && NoInserts([])
  {
    PrependNothing(ParseContent(cx, msg[start..], level, parent, true, doubles));
    PrependNothing(ParseContent(cx, msg[start..], level, parent, false, doubles));
    EmitsNothing(parts, start);
  }

  lemma QuoteToken(cx: Context, msg: Text, level: nat, parent: ArgType, doubles: nat, index: nat)
    requires (level > 0 || cx.inMessage) && index < |msg| && msg[index] == APOS
    ensures if index + 1 < |msg| && msg[index + 1] == APOS then
              Continues(cx, msg, level, parent, doubles, index, true, [DOUBLE_APOS], index + 2, true)
            else Continues(cx, msg, level, parent, doubles, index, true, [QUOTE], index + 1, false)
    ensures NoInserts([DOUBLE_APOS]) && NoInserts([QUOTE])
  {
    hide ParseContent;
    var s := msg[index..];
    assert |s| > 1 ==> s[1] == msg[index + 1];
    ContinuesToken(cx, msg, level, parent, doubles, index, true);
  }

  lemma MissingToken(cx: Context, msg: Text, level: nat, parent: ArgType, doubles: nat)
    requires level > 0 || cx.inMessage
    ensures Continues(cx, msg, level, parent, doubles, |msg|, true, [MISSING_APOS], |msg|, false)
    ensures !NoInserts([MISSING_APOS])
  {
    hide ParseContent;
    assert msg[|msg|..] == [];
    QuotedToEnd(cx, level, parent, doubles);
    TextOfOne(MISSING_APOS);
    assert IsInsert([MISSING_APOS][0]);
  }

  lemma NothingYet(parts: seq<Part>, start: nat)
    ensures Emits(parts, parts, start, []) && |TextOf([])| == 0
  {
    EmitsNothing(parts, start);
  }

  lemma AposToken(cx: Context, msg: Text, level: nat, parent: ArgType, doubles: nat, start: nat)
    requires (level > 0 || cx.inMessage) && start < |msg| && msg[start] == APOS
    ensures if start + 1 == |msg| then Continues(cx, msg, level, parent, doubles, start, false, [LONE_APOS], start + 1, false)
            else if msg[start + 1] == APOS then
              Continues(cx, msg, level, parent, doubles, start, false, [DOUBLE_APOS], start + 2, false)
            else if StartsQuote(cx, parent, msg[start + 1]) then
              Continues(cx, msg, level, parent, doubles, start, false, [QUOTE], start + 1, true)
            else Continues(cx, msg, level, parent, doubles, start, false, [LONE_APOS], start + 1, false)
    ensures NoInserts([DOUBLE_APOS]) && NoInserts([QUOTE]) && !NoInserts([LONE_APOS])
  {
    hide ParseContent, StartsQuote;
    var s := msg[start..];
    assert |s| > 1 ==> s[1] == msg[start + 1];
    ContinuesToken(cx, msg, level, parent, doubles, start, false);
    assert IsInsert([LONE_APOS][0]);
  }

  // ---------- closing messages and arguments ----------

  function StartPart(start: Event, index: int): Part
    requires start.mark.Some?
  {
    Part(start.mark.value.kind, index, start.mark.value.length, start.mark.value.value, 0)
  }

  /** Setting the start's limit index and adding the limit gives the parts of the whole. */
  lemma EmitsClosed(before: seq<Part>, parts: seq<Part>, start: Event, inner: seq<Event>, limit: Event, index: int)
    requires start.mark.Some? && start.at == 0 && start.mark.value.span == PartCount(inner) + 1
    requires limit.mark.Some? && limit.at == 0 && limit.mark.value.span == 0
    requires Emits(before + [StartPart(start, index)], parts, index + |start.text|, inner)
    ensures |before| < |parts| && parts[|before|] == StartPart(start, index)
    ensures Emits(before,
                  parts[|before| := StartPart(start, index).(limitPartIndex := |parts|)] +
                  [StartPart(limit, index + |start.text| + |TextOf(inner)|)],
                  index, [start] + inner + [limit])
  {
    hide TextOf, PartsOf;
    var p := StartPart(start, index);
    var outer := before + [p];
    var q := PartsOf(inner, index + |start.text|, |outer|);
    assert parts == before + [p] + q;
    var p' := p.(limitPartIndex := |parts|);
    assert parts[|before| := p'] == before + ([p'] + q);
    PartsConcat([start] + inner, [limit], index, |before|);
    PartsConcat([start], inner, index, |before|);
    PartsOfOne(start, index, |before|);
    TextOfOne(start);
    TextOfConcat([start], inner);
    PartCountConcat([start], inner);
    MarksCount([start]);
    MarksOfOne(start);
    PartsOfOne(limit, index + |start.text| + |TextOf(inner)|, |before| + 1 + PartCount(inner));
    var l := StartPart(limit, index + |start.text| + |TextOf(inner)|);
    Assoc(before, [p'] + q, [l]);
  }

  /** The content so far, and the number of doubles before and after it. */
  ghost predicate ContinuesWith(cx: Context, msg: Text, level: nat, parent: ArgType,
                                start: nat, doubles: nat, events: seq<Event>, index: nat, doubles': nat)
    requires (level > 0 || cx.inMessage) && start <= |msg| && index <= |msg|
  {
    && ParseContent(cx, msg[start..], level, parent, false, doubles) ==
       Prepend(events, ParseContent(cx, msg[index..], level, parent, false, doubles'))
    && index == start + |TextOf(events)|
  }

  lemma ContinuesStart(cx: Context, msg: Text, level: nat, parent: ArgType, start: nat, doubles: nat)
    requires (level > 0 || cx.inMessage) && start <= |msg|
    ensures ContinuesWith(cx, msg, level, parent, start, doubles, [], start, doubles)
  {
    PrependNothing(ParseContent(cx, msg[start..], level, parent, false, doubles));
  }

  lemma ContinuesStep(cx: Context, msg: Text, level: nat, parent: ArgType, start: nat, doubles: nat,
                      a: seq<Event>, i: nat, doubles': nat, b: seq<Event>, j: nat)
    requires (level > 0 || cx.inMessage) && start <= |msg| && i <= |msg| && j <= |msg|
    requires ContinuesWith(cx, msg, level, parent, start, doubles, a, i, doubles')
    requires Continues(cx, msg, level, parent, doubles', i, false, b, j, false)
    ensures ContinuesWith(cx, msg, level, parent, start, doubles, a + b, j, doubles')
  {
    hide ParseContent, TextOf;
    PrependTwice(a, b, ParseContent(cx, msg[j..], level, parent, false, doubles'));
    TextOfConcat(a, b);
  }

  /** After an argument. */
  lemma ContinuesArg(cx: Context, msg: Text, level: nat, parent: ArgType, start: nat, doubles: nat,
                     a: seq<Event>, i: nat, doubles': nat, j: nat)
    requires (level > 0 || cx.inMessage) && start <= |msg| && i < |msg| && msg[i] == LEFT_CURLY
    requires ContinuesWith(cx, msg, level, parent, start, doubles, a, i, doubles')
    requires var r := ParseArg(cx, msg[i..], level, doubles');
             r.Ok? && j == i + |TextOf(r.events)| && j <= |msg| && r.rest == msg[j..]
    ensures var r := ParseArg(cx, msg[i..], level, doubles');
            ContinuesWith(cx, msg, level, parent, start, doubles, a + r.events, j, r.doubles)
  {
    hide ParseArg, TextOf, ParseContent;
    var r := ParseArg(cx, msg[i..], level, doubles');
    ContentArg(cx, msg[i..], level, parent, doubles');
    PrependTwice(a, r.events, ParseContent(cx, msg[j..], level, parent, false, r.doubles));
    TextOfConcat(a, r.events);
  }

  lemma ContentArg(cx: Context, s: Text, level: nat, parent: ArgType, doubles: nat)
    requires (level > 0 || cx.inMessage) && s != [] && s[0] == LEFT_CURLY
    ensures var r := ParseArg(cx, s, level, doubles);
            ParseContent(cx, s, level, parent, false, doubles) ==
            if r.Err? then r else Prepend(r.events, ParseContent(cx, r.rest, level, parent, false, r.doubles))
  {
    hide ParseArg;
  }

  lemma ArgFails(cx: Context, msg: Text, level: nat, parent: ArgType, start: nat, doubles: nat,
                 a: seq<Event>, i: nat, doubles': nat)
    requires (level > 0 || cx.inMessage) && start <= |msg| && i < |msg| && msg[i] == LEFT_CURLY
    requires ContinuesWith(cx, msg, level, parent, start, doubles, a, i, doubles')
    requires ParseArg(cx, msg[i..], level, doubles').Err?
    ensures ParseContent(cx, msg[start..], level, parent, false, doubles) == ParseArg(cx, msg[i..], level, doubles')
  {
    hide ParseArg, TextOf, ParseContent;
    ContentArg(cx, msg[i..], level, parent, doubles');
  }

  /** A character that is not syntax, or a number sign. */
  lemma ContinuesChar(cx: Context, msg: Text, level: nat, parent: ArgType, doubles: nat, start: nat)
    requires (level > 0 || cx.inMessage) && start < |msg| && msg[start] != APOS
    requires (HasPluralStyle(parent) && msg[start] == POUND) || (msg[start] != LEFT_CURLY && !EndsMessage(level, parent, msg[start]))
    ensures var e := if HasPluralStyle(parent) && msg[start] == POUND then NUMBER_SIGN else Plain([msg[start]]);
            Continues(cx, msg, level, parent, doubles, start, false, [e], start + 1, false) && NoInserts([e])
  {
    hide ParseContent;
    ContinuesToken(cx, msg, level, parent, doubles, start, false);
  }

  /** The end of a message: at a terminator, or at the end of the pattern. */
  lemma ContentEnds(cx: Context, msg: Text, level: nat, parent: ArgType, start: nat, doubles: nat, a: seq<Event>, i: nat, doubles': nat)
    requires (level > 0 || cx.inMessage) && start <= |msg| && i <= |msg|
    requires ContinuesWith(cx, msg, level, parent, start, doubles, a, i, doubles')
    requires i == |msg| || (msg[i] != APOS && !(HasPluralStyle(parent) && msg[i] == POUND) && msg[i] != LEFT_CURLY && EndsMessage(level, parent, msg[i]))
    ensures ParseContent(cx, msg[start..], level, parent, false, doubles) ==
            if i == |msg| then Prepend(a, ParseEnd(cx, level, parent, doubles'))
            else if parent == CHOICE then
              Ok(a + [LimitEvent([], if msg[i] == RIGHT_CURLY then 0 else 1, level)], msg[i..], doubles')
            else Ok(a + [LimitEvent([msg[i]], 1, level)], msg[i + 1..], doubles')
  {
    hide TextOf;
    var s := msg[i..];
    if i == |msg| {
      assert s == [];
      PrependNothing(ParseEnd(cx, level, parent, doubles'));
    } else {
      assert s[0] == msg[i] && s[1..] == msg[i + 1..];
      assert TokenAt(cx, s, level, parent, false) == LimitToken;
    }
  }

  lemma NoInsertsInNothing()
    ensures NoInserts([])
  {
  }

  /** A message in terms of its content. */
  lemma MessageIs(cx: Context, msg: Text, start: nat, startLength: nat, level: nat, parent: ArgType, doubles: nat)
    requires (level > 0 || cx.inMessage) && start + startLength <= |msg|
    ensures var p := ParseContent(cx, msg[start + startLength..], level, parent, false, doubles);
            MessageGrammar.ParseMessage(cx, msg[start..], startLength, level, parent, doubles) ==
            if level > MAX_VALUE then Err(INDEX_OUTOFBOUNDS_ERROR)
            else if p.Err? then p
            else Ok([MessageStart(msg, start, startLength, level, p.events)] + p.events, p.rest, p.doubles)
  {
    hide ParseContent;
    assert msg[start..][startLength..] == msg[start + startLength..] && msg[start..][..startLength] == msg[start..start + startLength];
  }

  function MessageStart(msg: Text, start: nat, startLength: nat, level: nat, events: seq<Event>): Event
    requires start + startLength <= |msg|
  {
    Event(msg[start..start + startLength], 0, Some(Mark(MSG_START, startLength, level, PartCount(events))))
  }

  lemma MessageCloses(cx: Context, msg: Text, start: nat, startLength: nat, level: nat,
                      before: seq<Part>, inner: seq<Part>, events: seq<Event>, limit: Event)
    requires start + startLength <= |msg| && limit.mark.Some? && limit.at == 0 && limit.mark.value.span == 0 && !IsInsert(limit)
    requires Emits(before + [Part(MSG_START, start, startLength, level, 0)], inner, start + startLength, events)
    ensures |before| < |inner| && inner[|before|] == Part(MSG_START, start, startLength, level, 0)
    ensures before != [] ==> inner[0] == before[0]
    ensures var all := [MessageStart(msg, start, startLength, level, events + [limit])] + (events + [limit]);
            && Emits(before,
                     inner[|before| := inner[|before|].(limitPartIndex := |inner|)] +
                     [StartPart(limit, start + startLength + |TextOf(events)|)],
                     start, all)
            && |TextOf(all)| == startLength + |TextOf(events)| + |limit.text|
            && (NoInserts(all) <==> NoInserts(events))
  {
    hide TextOf, PartsOf, Emits;
    var e := MessageStart(msg, start, startLength, level, events + [limit]);
    EmitsKeeps(before + [Part(MSG_START, start, startLength, level, 0)], inner, start + startLength, events);
    PartCountConcat(events, [limit]);
    MarksCount([limit]);
    MarksOfOne(limit);
    EmitsClosed(before, inner, e, events, limit, start);
    Assoc([e], events, [limit]);
    TextOfConcat([e], events + [limit]);
    TextOfConcat(events, [limit]);
    TextOfOne(e);
    TextOfOne(limit);
    NoInsertsConcat([e], events + [limit]);
    NoInsertsConcat(events, [limit]);
    assert NoInserts([e]) && NoInserts([limit]);
  }

  lemma ContentIndex(cx: Context, msg: Text, level: nat, parent: ArgType, content: nat, doubles: nat, events: seq<Event>, start: nat, n: nat)
    requires (level > 0 || cx.inMessage) && content <= |msg| && start <= |msg|
    requires ContinuesWith(cx, msg, level, parent, content, doubles, events, start, n)
    ensures start == content + |TextOf(events)|
  {
  }

  /** An argument in terms of its header and style. */
  lemma ArgIs(cx: Context, s: Text, level: nat, doubles: nat)
    requires s != [] && s[0] == LEFT_CURLY && (level > 0 || cx.inMessage)
    ensures var h := ParseHeader(cx, s[1..]);
            MessageGrammar.ParseArg(cx, s, level, doubles) ==
            if h.BadHeader? then Err(h.error)
            else if !h.hasStyle then Ok(ArgEvents(h.argType, h.events), s[2 + h.length..], doubles)
            else
              var style := MessageGrammar.ParseStyle(cx, h.argType, s[2 + h.length..], level, doubles);
              if style.Err? then style
              else Ok(ArgEvents(h.argType, h.events + ([Plain([COMMA])] + style.events)), style.rest[1..], style.doubles)
  {
    hide ParseHeader, MessageGrammar.ParseStyle, ArgEvents;
  }

  lemma HeaderParts(cx: Context, s: Text)
    ensures var w := WordAt(cx.isWhiteSpace, cx.isIdentifierPart, s);
            var name := NameEvents(s[w.start..w.end], s[w.end..w.next]);
            var t := ParseAfterName(cx, s[w.next..]);
            ParseHeader(cx, s) ==
            if w.start == |s| then BadHeader(UNMATCHED_BRACES)
            else if name.BadHeader? then name
            else if t.BadHeader? then t
            else Header(([Plain(s[..w.start])] + name.events) + t.events, t.argType, t.hasStyle, w.next + t.length)
  {
    hide WordAt, NameEvents, ParseAfterName;
  }

  lemma GotPatched(before: seq<Part>, p: Part, p': Part, parts: seq<Part>, start: int, quoting: bool, events: seq<Event>, index: int)
    requires Got(before + [p], parts, start, quoting, quoting, events, index)
    ensures |before| < |parts| && parts[|before|] == p
    ensures Got(before + [p'], parts[|before| := p'], start, quoting, quoting, events, index)
  {
    hide PartsOf, TextOf, NoInserts;
    assert parts[|before| := p'] == before + [p'] + PartsOf(events, start, |before| + 1);
  }

  lemma ArgCloses(before: seq<Part>, inner: seq<Part>, argType: ArgType, events: seq<Event>, start: nat, index: int, quoting: bool, quoting': bool)
    requires Got(before + [Part(ARG_START, start, 1, TypeValue(argType), 0)], inner, start + 1, quoting, quoting', events, index)
    ensures |before| < |inner| && inner[|before|] == Part(ARG_START, start, 1, TypeValue(argType), 0)
    ensures Got(before,
                inner[|before| := inner[|before|].(limitPartIndex := |inner|)] + [Part(ARG_LIMIT, index, 1, TypeValue(argType), 0)],
                start, quoting, quoting', ArgEvents(argType, events), index + 1)
    ensures -0x8000 <= TypeValue(argType) <= MAX_VALUE
  {
    hide TextOf, PartsOf, Emits;
    var a := Event([LEFT_CURLY], 0, Some(Mark(ARG_START, 1, TypeValue(argType), PartCount(events) + 1)));
    var b := Marked([RIGHT_CURLY], ARG_LIMIT, 1, TypeValue(argType));
    EmitsClosed(before, inner, a, events, b, start);
    ArgEventsAgain(argType, events, []);
    NoInsertsConcat([a] + events, [b]);
    NoInsertsConcat([a], events);
    assert NoInserts([a]) && NoInserts([b]);
    assert TextOf(ArgEvents(argType, events)) + [] == TextOf(ArgEvents(argType, events));
  }

  lemma TypeIs(cx: Context, s: Text)
    ensures var w := WordAt(cx.isWhiteSpace, IsArgTypeChar, s);
            ParseType(cx, s) ==
            if w.next == |s| then BadHeader(UNMATCHED_BRACES)
            else TypeAt(s[..w.start], s[w.start..w.end], s[w.end..w.next], s[w.next])
  {
    hide WordAt, TypeAt;
  }

  /** Where a word and the white space around it are in the whole pattern. */
  lemma WordPositions(isWhiteSpace: int -> bool, isPart: int -> bool, msg: Text, start: nat)
    requires start <= |msg|
    ensures var w := WordAt(isWhiteSpace, isPart, msg[start..]);
            var s, a, b, c := msg[start..], start + w.start, start + w.end, start + w.next;
            && a <= b <= c <= |msg| && |s| == |msg| - start
            && PrefixLength(isWhiteSpace, msg[start..]) == w.start
            && PrefixLength(isPart, msg[a..]) == w.end - w.start
            && PrefixLength(isWhiteSpace, msg[b..]) == w.next - w.end
            && s[w.start..w.end] == msg[a..b] && s[w.next..] == msg[c..] && (c < |msg| ==> s[w.next] == msg[c])
  {
    hide PrefixLength;
    var w := WordAt(isWhiteSpace, isPart, msg[start..]);
    assert msg[start..][w.start..] == msg[start + w.start..];
    assert msg[start..][w.end..] == msg[start + w.end..];
  }

  /** A word that may have a part, between white space that has none. */
  lemma TypeAtLength(white: Text, name: Text, white1: Text, c: int)
    ensures var h := TypeAt(white, name, white1, c); h.Header? ==> h.length == |white| + |name| + |white1|
  {
  }

  lemma EmitsWord(before: seq<Part>, parts: seq<Part>, start: nat, white: Text, e: Event, white1: Text)
    requires parts == before + PartOf(e, start + |white|, |before|)
    ensures Emits(before, parts, start, [Plain(white), e, Plain(white1)])
    ensures |TextOf([Plain(white), e, Plain(white1)])| == |white| + |e.text| + |white1|
  {
    hide Emits, TextOf;
    EmitsPlain(before, start, white);
    EmitsOne(before, start + |white|, e);
    EmitsMore(before, before, start, [Plain(white)], parts, [e]);
    EmitsPlain(parts, start + |white| + |e.text|, white1);
    EmitsMore(before, parts, start, [Plain(white)] + [e], parts, [Plain(white1)]);
    assert [Plain(white)] + [e] + [Plain(white1)] == [Plain(white), e, Plain(white1)];
  }

  lemma OneMarkedHasNoInserts(e: Event)
    requires !IsInsert(e)
    ensures NoInserts([e])
  {
  }

  /** The digits of a number, after its sign. */
  lemma SignIs(s: Text)
    requires s != []
    ensures var digits := if HasSign(s) then s[1..] else s;
            var index := if s[0] == MINUS || s[0] == PLUS then 1 else 0;
            digits == s[index..] && (index < |s| ==> digits != [] && digits[0] == s[index])
  {
    assert s[0..] == s;
  }

  lemma DigitsArePositive(s: Text)
    ensures AllDigits(s) ==> DigitsValue(s) >= 0
  {
    if AllDigits(s) {
      DigitsGrow(s, |s|, |s|);
      assert s[..|s|] == s;
    }
  }

  // ---------- simple styles ----------

  lemma NothingLonger(r: Style)
    ensures Longer(0, r) == r
  {
  }

  lemma StyleChar(msg: Text, i: nat, nested: nat)
    requires i < |msg|
    ensures var c := msg[i];
            SimpleStyleLength(msg[i..], nested, false) ==
            if c == APOS then Longer(1, SimpleStyleLength(msg[i + 1..], nested, true))
            else if c == LEFT_CURLY then Longer(1, SimpleStyleLength(msg[i + 1..], nested + 1, false))
            else if c == RIGHT_CURLY && nested == 0 then Style(0)
            else if c == RIGHT_CURLY then Longer(1, SimpleStyleLength(msg[i + 1..], nested - 1, false))
            else Longer(1, SimpleStyleLength(msg[i + 1..], nested, false))
  {
    assert msg[i..][1..] == msg[i + 1..];
  }

  lemma {:induction false} StyleQuote(msg: Text, i: nat, j: int, nested: nat)
    requires i <= |msg|
    requires if j < 0 then forall k :: i <= k < |msg| ==> msg[k] != APOS
             else i <= j < |msg| && msg[j] == APOS && forall k :: i <= k < j ==> msg[k] != APOS
    ensures SimpleStyleLength(msg[i..], nested, true) ==
            if j < 0 then UnclosedQuote else Longer(j + 1 - i, SimpleStyleLength(msg[j + 1..], nested, false))
    decreases |msg| - i
  {
    if i < |msg| {
      assert msg[i..][1..] == msg[i + 1..];
      if i != j {
        StyleQuote(msg, i + 1, j, nested);
      }
    }
  }

  lemma StyleEnds(msg: Text, nested: nat)
    ensures SimpleStyleLength(msg[|msg|..], nested, false) == Unclosed
  {
  }

  // ---------- choice styles ----------

  lemma GotOne(before: seq<Part>, start: int, quoting: bool, e: Event)
    requires !IsInsert(e)
    ensures Got(before, before + PartOf(e, start, |before|), start, quoting, quoting, [e], start + |e.text|)
  {
    EmitsOne(before, start, e);
  }

  lemma GotFront(before: seq<Part>, parts: seq<Part>, start: nat, quoting: bool, number: seq<Event>, index: nat, white: Text, c: int)
    requires Got(before, parts, start, quoting, quoting, number, index)
    ensures Got(before, parts + [Part(ARG_SELECTOR, index + |white|, 1, 0, 0)], start, quoting, quoting,
                number + [Plain(white)] + [Marked([c], ARG_SELECTOR, 1, 0)], index + |white| + 1)
  {
    hide Got;
    var e := Marked([c], ARG_SELECTOR, 1, 0);
    var at := index + |white|;
    GotPlain(parts, index, quoting, white);
    GotMore(before, parts, parts, start, index, at, quoting, quoting, quoting, number, [Plain(white)]);
    GotOne(parts, at, quoting, e);
    GotMore(before, parts, parts + [Part(ARG_SELECTOR, at, 1, 0, 0)], start, at, at + 1, quoting, quoting, quoting, number + [Plain(white)], [e]);
  }

  /** The front of a choice by its places in the whole pattern. */
  lemma ChoiceFrontIs(cx: Context, msg: Text, start: nat, doubles: nat)
    requires start <= |msg|
    ensures var a := start + PrefixLength(IsDoubleChar, msg[start..]);
            var number := MessageGrammar.ParseDouble(cx, msg[start..a], true, doubles);
            var b := a + PrefixLength(cx.isWhiteSpace, msg[a..]);
            ChoiceFront(cx, msg[start..], doubles) ==
            if a == start then BadFront(PATTERN_SYNTAX_ERROR)
            else if a - start > MAX_LENGTH then BadFront(INDEX_OUTOFBOUNDS_ERROR)
            else if number.Err? then BadFront(number.error)
            else if b == |msg| || !(msg[b] == POUND || msg[b] == LESS_THAN || msg[b] == LESS_OR_EQUAL) then BadFront(PATTERN_SYNTAX_ERROR)
            else Front(number.events + [Plain(msg[a..b])] + [Marked([msg[b]], ARG_SELECTOR, 1, 0)], b + 1 - start, number.doubles, false, false)
  {
    hide PrefixLength, MessageGrammar.ParseDouble;
    var s := msg[start..];
    var n := PrefixLength(IsDoubleChar, s);
    var a := start + n;
    assert s[..n] == msg[start..a] && s[n..] == msg[a..];
    var w := n + PrefixLength(cx.isWhiteSpace, s[n..]);
    assert s[n..w] == msg[a..start + w];
  }

  lemma ChoicesAre(cx: Context, s: Text, level: nat, doubles: nat)
    ensures var f := ChoiceFront(cx, s, doubles);
            ParseChoices(cx, s, level, doubles) ==
            if f.BadFront? then Err(f.error)
            else
              var message := MessageGrammar.ParseMessage(cx, s[f.length..], 0, level + 1, CHOICE, f.doubles);
              if message.Err? then message
              else Prepend(f.events + message.events, ParseMoreChoices(cx, message.rest, level, message.doubles))
  {
    hide ChoiceFront, MessageGrammar.ParseMessage, ParseMoreChoices;
  }

  lemma MoreChoicesAre(cx: Context, msg: Text, i: nat, level: nat, doubles: nat)
    requires cx.inMessage && i <= |msg| && IsAfterContent(cx, level + 1, CHOICE, msg[i..])
    ensures i < |msg|
    ensures msg[i] == RIGHT_CURLY ==> ParseMoreChoices(cx, msg[i..], level, doubles) == Ok([], msg[i..], doubles)
    ensures msg[i] != RIGHT_CURLY ==>
      var j := i + 1 + PrefixLength(cx.isWhiteSpace, msg[i + 1..]);
      && j <= |msg|
      && ParseMoreChoices(cx, msg[i..], level, doubles) ==
         Prepend([Plain(msg[i..j])], ParseChoices(cx, msg[j..], level, doubles))
  {
    hide ParseChoices, PrefixLength;
    var s := msg[i..];
    if i < |msg| && msg[i] != RIGHT_CURLY {
      assert s[1..] == msg[i + 1..];
      var w := 1 + PrefixLength(cx.isWhiteSpace, s[1..]);
      assert s[..w] == msg[i..i + w] && s[w..] == msg[i + w..];
    }
  }

  // ---------- plural and select styles ----------

  lemma GotNothing(parts: seq<Part>, start: int, quoting: bool)
    ensures Got(parts, parts, start, quoting, quoting, [], start)
  {
    EmitsNothing(parts, start);
  }

  lemma PluralStyleIs(cx: Context, argType: ArgType, msg: Text, start: nat, level: nat, isEmpty: bool, hasOther: bool, doubles: nat)
    requires start <= |msg|
    ensures var i := start + PrefixLength(cx.isWhiteSpace, msg[start..]);
            ParsePluralOrSelectStyle(cx, argType, msg[start..], level, isEmpty, hasOther, doubles) ==
            if i == |msg| || msg[i] == RIGHT_CURLY then
              if (i == |msg|) == InMessageFormatPattern(cx, level) then Err(PATTERN_SYNTAX_ERROR)
              else if !hasOther then Err(DEFAULT_KEYWORD_MISSING)
              else Ok([Plain(msg[start..i])], msg[i..], doubles)
            else Prepend([Plain(msg[start..i])], ParseSelector(cx, argType, msg[i..], level, isEmpty, hasOther, doubles))
  {
    hide PrefixLength, ParseSelector;
    var s := msg[start..];
    var w := PrefixLength(cx.isWhiteSpace, s);
    assert s[w..] == msg[start + w..] && s[..w] == msg[start..start + w];
  }

  lemma SelectorIs(cx: Context, argType: ArgType, t: Text, level: nat, isEmpty: bool, hasOther: bool, doubles: nat)
    requires t != []
    ensures var f := SelectorFront(cx, argType, t, isEmpty, doubles);
            ParseSelector(cx, argType, t, level, isEmpty, hasOther, doubles) ==
            if f.BadFront? then Err(f.error)
            else if f.isOffset then
              Prepend(f.events, ParsePluralOrSelectStyle(cx, argType, t[f.length..], level, false, hasOther, f.doubles))
            else Prepend(f.events, ParseSelected(cx, argType, t[f.length..], level, hasOther || f.isOther, f.doubles))
  {
    hide SelectorFront, ParsePluralOrSelectStyle, ParseSelected;
  }

  lemma SelectedIs(cx: Context, argType: ArgType, msg: Text, start: nat, level: nat, hasOther: bool, doubles: nat)
    requires start <= |msg|
    ensures var i := start + PrefixLength(cx.isWhiteSpace, msg[start..]);
            ParseSelected(cx, argType, msg[start..], level, hasOther, doubles) ==
            if i == |msg| || msg[i] != LEFT_CURLY then Err(PATTERN_SYNTAX_ERROR)
            else
              var message := MessageGrammar.ParseMessage(cx, msg[i..], 1, level + 1, argType, doubles);
              if message.Err? then message
              else
                Prepend([Plain(msg[start..i])] + message.events,
                        ParsePluralOrSelectStyle(cx, argType, message.rest, level, false, hasOther, message.doubles))
  {
    hide PrefixLength, MessageGrammar.ParseMessage, ParsePluralOrSelectStyle;
    var s := msg[start..];
    var w := PrefixLength(cx.isWhiteSpace, s);
    assert s[w..] == msg[start + w..] && s[..w] == msg[start..start + w];
  }

  lemma MessageAdvances(cx: Context, msg: Text, start: nat, level: nat, argType: ArgType, doubles: nat, rest: Text, index: nat)
    requires start < |msg| && index <= |msg| && rest == msg[index..] && |rest| <= |msg[start..]| - 1
    ensures start < index
  {
  }

  lemma SelectorFrontIs(cx: Context, argType: ArgType, msg: Text, start: nat, isEmpty: bool, doubles: nat)
    requires start < |msg|
    ensures SelectorFront(cx, argType, msg[start..], isEmpty, doubles) ==
            if HasPluralStyle(argType) && msg[start] == EQUAL then
              var a := start + 1 + PrefixLength(IsDoubleChar, msg[start + 1..]);
              var number := MessageGrammar.ParseDouble(cx, msg[start + 1..a], false, doubles);
              if a == start + 1 then BadFront(PATTERN_SYNTAX_ERROR)
              else if a - start > MAX_LENGTH then BadFront(INDEX_OUTOFBOUNDS_ERROR)
              else if number.Err? then BadFront(number.error)
              else Front([Marked([EQUAL], ARG_SELECTOR, a - start, 0)] + number.events, a - start, number.doubles, false, false)
            else
              var a := start + PrefixLength(cx.isIdentifierPart, msg[start..]);
              if a == start then BadFront(PATTERN_SYNTAX_ERROR)
              else if HasPluralStyle(argType) && a - start == 6 && OFFSET_COLON <= msg[start..] then
                if !isEmpty then BadFront(PATTERN_SYNTAX_ERROR)
                else OffsetFront(cx, msg[start..start + 7], msg[start + 7..], doubles)
              else if a - start > MAX_LENGTH then BadFront(INDEX_OUTOFBOUNDS_ERROR)
              else Front([Marked(msg[start..a], ARG_SELECTOR, a - start, 0)], a - start, doubles, false, msg[start..a] == OTHER_NAME)
  {
    hide PrefixLength, MessageGrammar.ParseDouble, OffsetFront;
    var t := msg[start..];
    assert t[1..] == msg[start + 1..];
    if HasPluralStyle(argType) && t[0] == EQUAL {
      var n := 1 + PrefixLength(IsDoubleChar, t[1..]);
      assert t[1..n] == msg[start + 1..start + n];
    } else {
      var n := PrefixLength(cx.isIdentifierPart, t);
      assert t[..n] == msg[start..start + n];
      if OFFSET_COLON <= t {
        assert t[..7] == msg[start..start + 7] && t[7..] == msg[start + 7..];
      }
    }
  }

  lemma OffsetFrontIs(cx: Context, msg: Text, start: nat, doubles: nat)
    requires start + 7 <= |msg|
    ensures var v := start + 7 + PrefixLength(cx.isWhiteSpace, msg[start + 7..]);
            var m := v + PrefixLength(IsDoubleChar, msg[v..]);
            var number := MessageGrammar.ParseDouble(cx, msg[v..m], false, doubles);
            OffsetFront(cx, msg[start..start + 7], msg[start + 7..], doubles) ==
            if m == v then BadFront(PATTERN_SYNTAX_ERROR)
            else if m - v > MAX_LENGTH then BadFront(INDEX_OUTOFBOUNDS_ERROR)
            else if number.Err? then BadFront(number.error)
            else Front([Plain(msg[start..start + 7])] + ([Plain(msg[start + 7..v])] + number.events), m - start, number.doubles, true, false)
  {
    hide PrefixLength, MessageGrammar.ParseDouble;
    var t := msg[start + 7..];
    var v := PrefixLength(cx.isWhiteSpace, t);
    assert t[v..] == msg[start + 7 + v..] && t[..v] == msg[start + 7..start + 7 + v];
    var m := v + PrefixLength(IsDoubleChar, t[v..]);
    assert t[v..m] == msg[start + 7 + v..start + 7 + m];
  }

  /** Without INSERT_CHAR parts nothing is inserted. */
  lemma NothingToInsert(cx: Context, msg: Text)
    requires cx.inMessage && ParsePattern(cx, msg).Ok? && NoInserts(ParsePattern(cx, msg).events)
    ensures Inserted(msg, PartsOf(ParsePattern(cx, msg).events, 0, 0), 0) == msg
  {
    hide MessageGrammar.ParseMessage, PartsOf, Inserted, TextOf;
    var r := ParsePattern(cx, msg);
    MessageIsSound(cx, msg, 0, 0, NONE, 0);
    InsertedIsRequoted([], r.events, 0);
    RequotedSame(r.events);
    assert [] + TextOf(r.events) == msg && TextOf(r.events) + [] == TextOf(r.events);
  }
}
