/**
  * What auto-quoting does to the text that a message shows. Literal text stays as it is, but an
  * argument is shown with its apostrophes reduced, so that every one put into it counts.
  */
module MessageApostrophes {
  import opened Basics
  import opened MessageGrammar
  import opened MessageEvents
  import opened MessageSoundness
  import opened MessageQuoting
  import opened MessageParts
  import opened MessageText

  // ---------- reducing apostrophes, character by character ----------

  predicate StartsApos(s: Text) {
    s != [] && s[0] == APOS
  }

  /** Whether the text ends in an apostrophe that is not the second of a pair; pending says so of what precedes it. */
  function Pending(s: Text, pending: bool): bool {
    if s == [] then pending else Pending(s[1..], s[0] == APOS && !pending)
  }

  /** How many characters reducing the apostrophes leaves. */
  function Count(s: Text, pending: bool): nat {
    if s == [] then 0
    else (if s[0] == APOS && !pending then 0 else 1) + Count(s[1..], s[0] == APOS && !pending)
  }

  lemma {:induction false} CountConcat(a: Text, b: Text, pending: bool)
    ensures Pending(a + b, pending) == Pending(b, Pending(a, pending))
    ensures Count(a + b, pending) == Count(a, pending) + Count(b, Pending(a, pending))
  {
    if a == [] {
      assert a + b == b;
    } else {
      assert (a + b)[1..] == a[1..] + b;
      CountConcat(a[1..], b, a[0] == APOS && !pending);
    }
  }

  /** Only an apostrophe tells the two states apart. */
  lemma CountForgets(s: Text, p: bool, p': bool)
    requires p == p' || !StartsApos(s)
    ensures Count(s, p) == Count(s, p')
    ensures s != [] ==> Pending(s, p) == Pending(s, p')
  {
  }

  lemma {:induction false} CountIsReduced(s: Text)
    ensures Count(s, false) == |Reduced(s)|
    decreases |s|
  {
    if s != [] {
      CountIsReduced(s[1..]);
      if s[0] == APOS && |s| > 1 {
        if s[1] == APOS {
          CountIsReduced(s[2..]);
          assert s[1..][1..] == s[2..];
        } else {
          CountForgets(s[1..], true, false);
        }
      }
    }
  }

  lemma PendingAfter(a: Text, c: int, pending: bool)
    requires c != APOS
    ensures !Pending(a + [c], pending)
  {
    CountConcat(a, [c], pending);
    assert [c][1..] == [];
  }

  // ---------- where apostrophes are put in ----------

  function Inserts(events: seq<Event>): nat {
    if events == [] then 0 else (if IsInsert(events[0]) then 1 else 0) + Inserts(events[1..])
  }

  /** Each apostrophe to be doubled is alone: none is pending before it, and none follows. */
  ghost predicate IsTidy(pending: bool, events: seq<Event>, after: Text)
    decreases |events|
  {
    events != [] ==>
      && (IsInsert(events[0]) ==> events[0] == LONE_APOS && !pending && !StartsApos(TextOf(events[1..]) + after))
      && IsTidy(Pending(events[0].text, pending), events[1..], after)
  }

  lemma {:induction false} NoInsertsAreTidy(pending: bool, events: seq<Event>, after: Text)
    requires NoInserts(events)
    ensures IsTidy(pending, events, after) && Inserts(events) == 0
    decreases |events|
  {
    hide Pending, TextOf;
    if events != [] {
      assert forall i :: 0 <= i < |events| - 1 ==> events[1..][i] == events[i + 1];
      NoInsertsAreTidy(Pending(events[0].text, pending), events[1..], after);
    }
  }

  /** One after the other. */
  lemma {:induction false} TidyThen(pending: bool, a: seq<Event>, t: Text, b: seq<Event>, rest: Text)
    requires IsTidy(pending, a, t) && TextOf(b) + rest == t && IsTidy(Pending(TextOf(a), pending), b, rest)
    ensures IsTidy(pending, a + b, rest)
    decreases |a|
  {
    hide Pending, Count;
    if a == [] {
      assert a + b == b;
      NothingPends(pending);
    } else {
      var e, c := a[0], a[1..];
      assert (a + b)[0] == e && (a + b)[1..] == c + b;
      CountConcat(e.text, TextOf(c), pending);
      TidyThen(Pending(e.text, pending), c, t, b, rest);
      TextOfConcat(c, b);
      Assoc(TextOf(c), TextOf(b), rest);
    }
  }

  lemma NothingPends(pending: bool)
    ensures Pending(TextOf([]), pending) == pending
  {
  }

  /** Text without anything to insert, then tidy events. */
  lemma PlainThen(pending: bool, a: seq<Event>, b: seq<Event>, rest: Text)
    requires NoInserts(a) && IsTidy(Pending(TextOf(a), pending), b, rest)
    ensures IsTidy(pending, a + b, rest)
  {
    hide IsTidy, TextOf, Pending;
    NoInsertsAreTidy(pending, a, TextOf(b) + rest);
    TidyThen(pending, a, TextOf(b) + rest, b, rest);
  }

  /** Each apostrophe put in stays when they are reduced. */
  lemma {:induction false} TidyGains(p: bool, p': bool, events: seq<Event>, after: Text)
    requires IsTidy(p, events, after) && (p == p' || !StartsApos(TextOf(events) + after))
    ensures Count(TextOf(AllRequoted(events)) + after, p') == Count(TextOf(events) + after, p) + Inserts(events)
    decreases |events|
  {
    hide Pending, Count, Requoted, TextOf;
    if events == [] {
      NoText(after);
      CountForgets(after, p, p');
    } else {
      var e, c := events[0], events[1..];
      assert events == [e] + c;
      var x, x' := TextOf(c) + after, TextOf(AllRequoted(c)) + after;
      SplitFirst(e, c, after);
      CountConcat(e.text, x, p);
      CountConcat(Requoted(e).text, x', p');
      if IsInsert(e) {
        LoneCounts();
        TidyGains(true, false, c, after);
      } else {
        NotRequoted(e);
        FirstForgets(e.text, x, p, p');
        TidyGains(Pending(e.text, p), Pending(e.text, p'), c, after);
      }
    }
  }

  lemma NoText(after: Text)
    ensures TextOf([]) + after == after && TextOf(AllRequoted([])) + after == after
  {
  }

  lemma SplitFirst(e: Event, c: seq<Event>, after: Text)
    ensures TextOf([e] + c) + after == e.text + (TextOf(c) + after)
    ensures TextOf(AllRequoted([e] + c)) + after == Requoted(e).text + (TextOf(AllRequoted(c)) + after)
    ensures Inserts([e] + c) == (if IsInsert(e) then 1 else 0) + Inserts(c)
  {
    hide Requoted, TextOf;
    TextOfConcat([e], c);
    TextOfOne(e);
    RequotedText(e, c);
    Assoc(e.text, TextOf(c), after);
    Assoc(Requoted(e).text, TextOf(AllRequoted(c)), after);
    assert ([e] + c)[1..] == c;
  }

  lemma NotRequoted(e: Event)
    requires !IsInsert(e)
    ensures Requoted(e) == e
  {
  }

  lemma LoneCounts()
    ensures Requoted(LONE_APOS).text == [APOS, APOS]
    ensures Count(LONE_APOS.text, false) == 0 && Pending(LONE_APOS.text, false)
    ensures Count([APOS, APOS], false) == 1 && !Pending([APOS, APOS], false)
    ensures forall s: Text :: StartsApos(LONE_APOS.text + s)
  {
    RequotedTokens();
    assert [APOS][1..] == [];
    PairCounts();
  }

  lemma PairCounts()
    ensures Count([APOS, APOS], false) == 1 && !Pending([APOS, APOS], false)
  {
    assert [APOS][1..] == [] && [APOS, APOS][1..] == [APOS];
    assert Count([APOS], true) == 1 && !Pending([APOS], true);
  }

  lemma OnePends(c: int, pending: bool)
    ensures Pending([c], pending) == (c == APOS && !pending)
  {
    assert [c][1..] == [];
  }

  lemma FirstForgets(text: Text, x: Text, p: bool, p': bool)
    requires p == p' || !StartsApos(text + x)
    ensures Count(text, p) == Count(text, p')
    ensures Pending(text, p) == Pending(text, p') || !StartsApos(x)
  {
    if text == [] {
      assert text + x == x;
    } else {
      assert (text + x)[0] == text[0];
      CountForgets(text, p, p');
    }
  }

  // ---------- every message and argument is tidy ----------

  /** What follows a token, and which apostrophe to double is alone. */
  lemma TokenIsTidy(cx: Context, s: Text, level: nat, parent: ArgType, quoted: bool, pending: bool)
    requires s != [] && TokenAt(cx, s, level, parent, quoted).Token? && (pending ==> !StartsApos(s))
    ensures var e := TokenAt(cx, s, level, parent, quoted).event;
            var t := s[|e.text|..];
            && (Pending(e.text, pending) ==> !StartsApos(t))
            && (IsInsert(e) ==> e == LONE_APOS && !pending && !StartsApos(t))
  {
    hide EndsMessage, HasPluralStyle, Pending;
    OnePends(s[0], pending);
    PairCounts();
  }

  lemma ContentText(cx: Context, s: Text, level: nat, parent: ArgType, quoted: bool, doubles: nat)
    requires (level > 0 || cx.inMessage) && ParseContent(cx, s, level, parent, quoted, doubles).Ok?
    ensures var r := ParseContent(cx, s, level, parent, quoted, doubles); TextOf(r.events) + r.rest == s
  {
    hide ParseContent, TextOf;
    var r := ParseContent(cx, s, level, parent, quoted, doubles);
    ContentIsSound(cx, s, level, parent, quoted, doubles);
    var n := |r.events| - 1;
    assert r.events == r.events[..n] + [r.events[n]];
    TextOfConcat(r.events[..n], [r.events[n]]);
    TextOfOne(r.events[n]);
    Assoc(TextOf(r.events[..n]), r.events[n].text, r.rest);
  }

  lemma {:induction false} ContentIsTidy(cx: Context, s: Text, level: nat, parent: ArgType, quoted: bool, doubles: nat, pending: bool)
    requires cx.inMessage && level > 0 && ParseContent(cx, s, level, parent, quoted, doubles).Ok?
    requires pending ==> !StartsApos(s)
    ensures var r := ParseContent(cx, s, level, parent, quoted, doubles); IsTidy(pending, r.events, r.rest)
    decreases |s|, 2
  {
    hide *;
    ContentGoesOn(cx, s, level, parent, quoted, doubles);
    match TokenAt(cx, s, level, parent, quoted)
    case Token(e, quoted') =>
      TokenCase(cx, s, level, parent, quoted, doubles);
      TokenIsTidy(cx, s, level, parent, quoted, pending);
      var t := s[|e.text|..];
      ContentIsTidy(cx, t, level, parent, quoted', doubles, Pending(e.text, pending));
      ContentText(cx, t, level, parent, quoted', doubles);
      TidyFirst(pending, e, t, ParseContent(cx, t, level, parent, quoted', doubles));
    case ArgToken =>
      ArgCase(cx, s, level, parent, quoted, doubles);
      var g := ParseArg(cx, s, level, doubles);
      ArgIsTidy(cx, s, level, doubles, pending);
      ArgIsClosed(cx, s, level, doubles, pending);
      ContentIsTidy(cx, g.rest, level, parent, false, g.doubles, false);
      ContentText(cx, g.rest, level, parent, false, g.doubles);
      var r := ParseContent(cx, g.rest, level, parent, false, g.doubles);
      TidyThen(pending, g.events, g.rest, r.events, r.rest);
    case LimitToken =>
      LimitIsTidy(cx, s, level, parent, quoted, doubles, pending);
  }

  /** Inside an argument no message ends with the pattern. */
  lemma ContentGoesOn(cx: Context, s: Text, level: nat, parent: ArgType, quoted: bool, doubles: nat)
    requires cx.inMessage && level > 0 && ParseContent(cx, s, level, parent, quoted, doubles).Ok?
    ensures s != []
  {
  }

  lemma TidyFirst(pending: bool, e: Event, t: Text, p: Parsed)
    requires p.Ok? && TextOf(p.events) + p.rest == t && IsTidy(Pending(e.text, pending), p.events, p.rest)
    requires IsInsert(e) ==> e == LONE_APOS && !pending && !StartsApos(t)
    ensures IsTidy(pending, [e] + p.events, p.rest)
  {
    hide Pending, TextOf, IsInsert, StartsApos;
    assert ([e] + p.events)[0] == e && ([e] + p.events)[1..] == p.events;
  }

  lemma LimitIsTidy(cx: Context, s: Text, level: nat, parent: ArgType, quoted: bool, doubles: nat, pending: bool)
    requires (level > 0 || cx.inMessage) && s != [] && TokenAt(cx, s, level, parent, quoted).LimitToken?
    requires ParseContent(cx, s, level, parent, quoted, doubles).Ok?
    ensures var r := ParseContent(cx, s, level, parent, quoted, doubles); IsTidy(pending, r.events, r.rest)
  {
    hide TokenAt, IsTidy;
    var r := ParseContent(cx, s, level, parent, quoted, doubles);
    NoInsertsAreTidy(pending, r.events, r.rest);
  }

  lemma {:induction false} MessageIsTidy(cx: Context, s: Text, startLength: nat, level: nat, parent: ArgType, doubles: nat, pending: bool)
    requires cx.inMessage && level > 0 && startLength <= |s| && ParseMessage(cx, s, startLength, level, parent, doubles).Ok?
    requires if startLength == 0 then !pending else s[startLength - 1] != APOS
    ensures var r := ParseMessage(cx, s, startLength, level, parent, doubles); IsTidy(pending, r.events, r.rest)
    decreases |s|, 3
  {
    hide IsTidy, ParseContent, PartCount, Pending, Count, TextOf;
    var p := ParseContent(cx, s[startLength..], level, parent, false, doubles);
    var start := Event(s[..startLength], 0, Some(Mark(MSG_START, startLength, level, PartCount(p.events))));
    StartPends(s, startLength, pending);
    TextOfOne(start);
    ContentIsTidy(cx, s[startLength..], level, parent, false, doubles, false);
    PlainThen(pending, [start], p.events, p.rest);
  }

  lemma StartPends(s: Text, n: nat, pending: bool)
    requires n <= |s| && if n == 0 then !pending else s[n - 1] != APOS
    ensures !Pending(s[..n], pending)
  {
    if n > 0 {
      assert s[..n] == s[..n - 1] + [s[n - 1]];
      PendingAfter(s[..n - 1], s[n - 1], pending);
    }
  }

  lemma {:induction false} ArgIsTidy(cx: Context, s: Text, level: nat, doubles: nat, pending: bool)
    requires cx.inMessage && s != [] && s[0] == LEFT_CURLY && ParseArg(cx, s, level, doubles).Ok?
    ensures var r := ParseArg(cx, s, level, doubles); IsTidy(pending, r.events, r.rest)
    decreases |s|, 0
  {
    hide IsTidy, ParseHeader, ParseStyle, PartCount, Pending, Count, TextOf;
    var r := ParseArg(cx, s, level, doubles);
    var h := ParseHeader(cx, s[1..]);
    HeaderHasNoInserts(cx, s[1..]);
    if !h.hasStyle {
      NoInsertsAreTidy(pending, r.events, r.rest);
    } else {
      var t := s[2 + h.length..];
      var style := ParseStyle(cx, h.argType, t, level, doubles);
      var end := Marked([RIGHT_CURLY], ARG_LIMIT, 1, TypeValue(h.argType));
      var inner := h.events + ([Plain([COMMA])] + style.events);
      var start := Event([LEFT_CURLY], 0, Some(Mark(ARG_START, 1, TypeValue(h.argType), PartCount(inner) + 1)));
      var before := [start] + (h.events + [Plain([COMMA])]);
      assert r.events == before + (style.events + [end]);
      StyleIsTidy(cx, h.argType, t, level, doubles, Pending(TextOf(before), pending));
      NoInsertsAreTidy(Pending(TextOf(style.events), Pending(TextOf(before), pending)), [end], r.rest);
      TextOfOne(end);
      assert style.rest == [RIGHT_CURLY] + r.rest;
      TidyThen(Pending(TextOf(before), pending), style.events, style.rest, [end], r.rest);
      PlainThen(pending, before, style.events + [end], r.rest);
    }
  }

  lemma ArgIsClosed(cx: Context, s: Text, level: nat, doubles: nat, pending: bool)
    requires (level > 0 || cx.inMessage) && s != [] && s[0] == LEFT_CURLY && ParseArg(cx, s, level, doubles).Ok?
    ensures !Pending(TextOf(ParseArg(cx, s, level, doubles).events), pending)
  {
    hide ParseArg, TextOf, Pending, Count, ArgEvents;
    var argType, inner := ArgShape(cx, s, level, doubles);
    ArgEventsAgain(argType, inner, []);
    var text := TextOf(ArgEvents(argType, inner));
    assert text + [] == text;
    assert text == ([LEFT_CURLY] + TextOf(inner)) + [RIGHT_CURLY];
    PendingAfter([LEFT_CURLY] + TextOf(inner), RIGHT_CURLY, pending);
  }

  lemma {:induction false} StyleIsTidy(cx: Context, argType: ArgType, s: Text, level: nat, doubles: nat, pending: bool)
    requires cx.inMessage && ParseStyle(cx, argType, s, level, doubles).Ok?
    ensures var r := ParseStyle(cx, argType, s, level, doubles); IsTidy(pending, r.events, r.rest)
    decreases |s|, 9
  {
    hide IsTidy, ParseChoiceStyle, ParsePluralOrSelectStyle;
    if argType == CHOICE {
      ChoiceStyleIsTidy(cx, s, level, doubles, pending);
    } else if argType == NONE || argType == SIMPLE {
      var r := ParseSimpleStyle(s, doubles);
      NoInsertsAreTidy(pending, r.events, r.rest);
    } else {
      PluralStyleIsTidy(cx, argType, s, level, true, false, doubles, pending);
    }
  }

  lemma {:induction false} ChoiceStyleIsTidy(cx: Context, s: Text, level: nat, doubles: nat, pending: bool)
    requires cx.inMessage && ParseChoiceStyle(cx, s, level, doubles).Ok?
    ensures var r := ParseChoiceStyle(cx, s, level, doubles); IsTidy(pending, r.events, r.rest)
    decreases |s|, 6
  {
    hide IsTidy, ParseChoices, PrefixLength, Pending, TextOf;
    var w := PrefixLength(cx.isWhiteSpace, s);
    var white := [Plain(s[..w])];
    var r := ParseChoices(cx, s[w..], level, doubles);
    ChoicesAreTidy(cx, s[w..], level, doubles, Pending(TextOf(white), pending));
    PlainThen(pending, white, r.events, r.rest);
  }

  lemma {:induction false} ChoicesAreTidy(cx: Context, s: Text, level: nat, doubles: nat, pending: bool)
    requires cx.inMessage && ParseChoices(cx, s, level, doubles).Ok?
    ensures var r := ParseChoices(cx, s, level, doubles); IsTidy(pending, r.events, r.rest)
    decreases |s|, 5
  {
    hide IsTidy, ChoiceFront, ParseMessage, ParseMoreChoices, Pending, TextOf, IsSound;
    var f := ChoiceFront(cx, s, doubles);
    ChoiceFrontFacts(cx, s, doubles);
    FrontPends(cx, s, doubles, pending);
    var message := ParseMessage(cx, s[f.length..], 0, level + 1, CHOICE, f.doubles);
    MessageIsTidy(cx, s[f.length..], 0, level + 1, CHOICE, f.doubles, false);
    PlainThen(pending, f.events, message.events, message.rest);
    var more := ParseMoreChoices(cx, message.rest, level, message.doubles);
    MoreChoicesAreTidy(cx, message.rest, level, message.doubles, Pending(TextOf(f.events + message.events), pending));
    MoreChoicesAreSound(cx, message.rest, level, message.doubles);
    SoundReads(message.rest, more.events, more.rest);
    TidyThen(pending, f.events + message.events, message.rest, more.events, more.rest);
  }

  lemma SoundReads(s: Text, events: seq<Event>, rest: Text)
    requires IsSound(s, events, rest)
    ensures TextOf(events) + rest == s
  {
  }

  /** A choice's number ends in a separator. */
  lemma FrontPends(cx: Context, s: Text, doubles: nat, pending: bool)
    requires ChoiceFront(cx, s, doubles).Front?
    ensures !Pending(TextOf(ChoiceFront(cx, s, doubles).events), pending)
  {
    hide ParseDouble, PrefixLength, Pending, Count, TextOf;
    var f := ChoiceFront(cx, s, doubles);
    ChoiceFrontFacts(cx, s, doubles);
    assert s[f.length - 1] != APOS;
    StartPends(s, f.length, pending);
  }

  lemma {:induction false} MoreChoicesAreTidy(cx: Context, s: Text, level: nat, doubles: nat, pending: bool)
    requires cx.inMessage && IsAfterContent(cx, level + 1, CHOICE, s) && ParseMoreChoices(cx, s, level, doubles).Ok?
    ensures var r := ParseMoreChoices(cx, s, level, doubles); IsTidy(pending, r.events, r.rest)
    decreases |s|, 6
  {
    hide IsTidy, ParseChoices, PrefixLength, Pending, TextOf;
    if s == [] || s[0] == RIGHT_CURLY {
      NoInsertsAreTidy(pending, [], s);
    } else {
      var w := 1 + PrefixLength(cx.isWhiteSpace, s[1..]);
      var white := [Plain(s[..w])];
      var r := ParseChoices(cx, s[w..], level, doubles);
      ChoicesAreTidy(cx, s[w..], level, doubles, Pending(TextOf(white), pending));
      PlainThen(pending, white, r.events, r.rest);
    }
  }

  lemma {:induction false} PluralStyleIsTidy(cx: Context, argType: ArgType, s: Text, level: nat, isEmpty: bool, hasOther: bool, doubles: nat, pending: bool)
    requires cx.inMessage && ParsePluralOrSelectStyle(cx, argType, s, level, isEmpty, hasOther, doubles).Ok?
    ensures var r := ParsePluralOrSelectStyle(cx, argType, s, level, isEmpty, hasOther, doubles); IsTidy(pending, r.events, r.rest)
    decreases |s|, 8
  {
    hide IsTidy, ParseSelector, PrefixLength, Pending, TextOf;
    var w := PrefixLength(cx.isWhiteSpace, s);
    var t := s[w..];
    var white := [Plain(s[..w])];
    if t == [] || t[0] == RIGHT_CURLY {
      NoInsertsAreTidy(pending, white, t);
    } else {
      var r := ParseSelector(cx, argType, t, level, isEmpty, hasOther, doubles);
      SelectorIsTidy(cx, argType, t, level, isEmpty, hasOther, doubles, Pending(TextOf(white), pending));
      PlainThen(pending, white, r.events, r.rest);
    }
  }

  lemma {:induction false} SelectorIsTidy(cx: Context, argType: ArgType, t: Text, level: nat, isEmpty: bool, hasOther: bool, doubles: nat, pending: bool)
    requires cx.inMessage && t != [] && ParseSelector(cx, argType, t, level, isEmpty, hasOther, doubles).Ok?
    ensures var r := ParseSelector(cx, argType, t, level, isEmpty, hasOther, doubles); IsTidy(pending, r.events, r.rest)
    decreases |t|, 7
  {
    hide IsTidy, SelectorFront, ParsePluralOrSelectStyle, ParseSelected, Pending, TextOf;
    var f := SelectorFront(cx, argType, t, isEmpty, doubles);
    SelectorFrontFacts(cx, argType, t, isEmpty, doubles);
    var u, p := t[f.length..], Pending(TextOf(f.events), pending);
    if f.isOffset {
      var r := ParsePluralOrSelectStyle(cx, argType, u, level, false, hasOther, f.doubles);
      PluralStyleIsTidy(cx, argType, u, level, false, hasOther, f.doubles, p);
      PlainThen(pending, f.events, r.events, r.rest);
    } else {
      var r := ParseSelected(cx, argType, u, level, hasOther || f.isOther, f.doubles);
      SelectedIsTidy(cx, argType, u, level, hasOther || f.isOther, f.doubles, p);
      PlainThen(pending, f.events, r.events, r.rest);
    }
  }

  lemma {:induction false} SelectedIsTidy(cx: Context, argType: ArgType, s: Text, level: nat, hasOther: bool, doubles: nat, pending: bool)
    requires cx.inMessage && ParseSelected(cx, argType, s, level, hasOther, doubles).Ok?
    ensures var r := ParseSelected(cx, argType, s, level, hasOther, doubles); IsTidy(pending, r.events, r.rest)
    decreases |s|, 6
  {
    hide IsTidy, ParseMessage, ParsePluralOrSelectStyle, PrefixLength, Pending, TextOf, IsSound;
    var w := PrefixLength(cx.isWhiteSpace, s);
    var white := [Plain(s[..w])];
    var message := ParseMessage(cx, s[w..], 1, level + 1, argType, doubles);
    MessageIsTidy(cx, s[w..], 1, level + 1, argType, doubles, Pending(TextOf(white), pending));
    PlainThen(pending, white, message.events, message.rest);
    var more := ParsePluralOrSelectStyle(cx, argType, message.rest, level, false, hasOther, message.doubles);
    PluralStyleIsTidy(cx, argType, message.rest, level, false, hasOther, message.doubles, Pending(TextOf(white + message.events), pending));
    PluralStyleIsSound(cx, argType, message.rest, level, false, hasOther, message.doubles);
    SoundReads(message.rest, more.events, more.rest);
    TidyThen(pending, white + message.events, message.rest, more.events, more.rest);
  }

  // ---------- what quoting changes ----------

  /** Reducing the apostrophes of a quoted argument leaves one more for each that was put in. */
  lemma ArgGains(cx: Context, s: Text, level: nat, doubles: nat)
    requires cx.inMessage && s != [] && s[0] == LEFT_CURLY && ParseArg(cx, s, level, doubles).Ok?
    ensures var events := ParseArg(cx, s, level, doubles).events;
            |Reduced(TextOf(AllRequoted(events)))| == |Reduced(TextOf(events))| + Inserts(events)
  {
    hide *;
    var g := ParseArg(cx, s, level, doubles);
    ArgIsTidy(cx, s, level, doubles, false);
    ArgIsClosed(cx, s, level, doubles, false);
    TidyGains(false, false, g.events, g.rest);
    CountConcat(TextOf(g.events), g.rest, false);
    CountConcat(TextOf(AllRequoted(g.events)), g.rest, false);
    ArgRequotes(cx, s, level, doubles, g.rest);
    AgainIs(g, g.rest);
    ArgIsClosed(cx, AgainText(g, g.rest), level, doubles, false);
    CountIsReduced(TextOf(g.events));
    CountIsReduced(TextOf(AllRequoted(g.events)));
  }

  lemma AgainIs(p: Parsed, rest: Text)
    requires p.Ok?
    ensures AgainText(p, rest) == TextOf(AllRequoted(p.events)) + rest
    ensures Again(p, rest) == Ok(AllRequoted(p.events), rest, p.doubles)
  {
  }

  lemma {:induction false} InsertsNone(events: seq<Event>)
    ensures Inserts(events) == 0 <==> NoInserts(events)
  {
    if events != [] {
      InsertsNone(events[1..]);
      assert events == [events[0]] + events[1..];
      assert forall i :: 0 <= i < |events| - 1 ==> events[1..][i] == events[i + 1];
    }
  }

  /** How many apostrophes are to be put into the arguments of a message, however deep inside them. */
  function ArgInserts(cx: Context, s: Text, level: nat, parent: ArgType, quoted: bool, doubles: nat): nat
    requires level > 0 || cx.inMessage
    decreases |s|
  {
    if s == [] then 0
    else
      match TokenAt(cx, s, level, parent, quoted)
      case Token(e, quoted') => ArgInserts(cx, s[|e.text|..], level, parent, quoted', doubles)
      case ArgToken =>
        (match ParseArg(cx, s, level, doubles)
         case Err(_) => 0
         case Ok(events, rest, n) => Inserts(events) + ArgInserts(cx, rest, level, parent, false, n))
      case LimitToken => 0
  }

  /** The quoted message shows that many characters more, and if there are none, just the same. */
  ghost predicate ShowsMore(x: Text, y: Text, n: nat) {
    |y| == |x| + n && (n == 0 ==> y == x)
  }

  lemma ShowsAfter(a: Text, a': Text, n: nat, x: Text, y: Text, m: nat)
    requires ShowsMore(a, a', n) && ShowsMore(x, y, m)
    ensures ShowsMore(a + x, a' + y, n + m)
  {
  }

  lemma {:induction false} ShownRequotes(cx: Context, s: Text, level: nat, parent: ArgType, quoted: bool, doubles: nat, rest': Text)
    requires cx.inMessage
    requires var r := ParseContent(cx, s, level, parent, quoted, doubles); r.Ok? && Alike(r.rest, rest')
    ensures ShowsMore(Shown(cx, s, level, parent, quoted, doubles),
                      Shown(cx, AgainText(ParseContent(cx, s, level, parent, quoted, doubles), rest'), level, parent, quoted, doubles),
                      ArgInserts(cx, s, level, parent, quoted, doubles))
    decreases |s|
  {
    hide *;
    var r := ParseContent(cx, s, level, parent, quoted, doubles);
    var s' := AgainText(r, rest');
    ContentRequotes(cx, s, level, parent, quoted, doubles, rest');
    AgainIs(r, rest');
    AlikeGoesOn(s, s');
    if s == [] {
      EndShows(cx, level, parent, quoted, doubles, rest');
    } else {
      match TokenAt(cx, s, level, parent, quoted)
      case Token(e, quoted') =>
        TokenCase(cx, s, level, parent, quoted, doubles);
        TokenInserts(cx, s, level, parent, quoted, doubles);
        var t := s[|e.text|..];
        var p := ParseContent(cx, t, level, parent, quoted', doubles);
        ShownRequotes(cx, t, level, parent, quoted', doubles, rest');
        ContentRequotes(cx, t, level, parent, quoted', doubles, rest');
        var t' := AgainText(p, rest');
        TokenAgain(cx, s, level, parent, quoted, doubles, rest');
        TokenRequotes(cx, s, level, parent, quoted, t');
        TokenCase(cx, s', level, parent, quoted, doubles);
        DropFirst(Requoted(e).text, t');
        LiteralStays(cx, s, level, parent, quoted);
        ShowsAfter(LiteralText(e), LiteralText(e), 0, Shown(cx, t, level, parent, quoted', doubles),
                   Shown(cx, t', level, parent, quoted', doubles), ArgInserts(cx, t, level, parent, quoted', doubles));
      case ArgToken =>
        ArgCase(cx, s, level, parent, quoted, doubles);
        ArgCaseInserts(cx, s, level, parent, quoted, doubles);
        var g := ParseArg(cx, s, level, doubles);
        var p := ParseContent(cx, g.rest, level, parent, false, g.doubles);
        ShownRequotes(cx, g.rest, level, parent, false, g.doubles, rest');
        var t' := AgainText(p, rest');
        ArgRequotes(cx, s, level, doubles, t');
        ArgAgain(cx, s, level, parent, quoted, doubles, rest');
        UnquotedToken(cx, s, s', level, parent, quoted);
        ArgCase(cx, s', level, parent, quoted, doubles);
        AgainIs(g, t');
        ArgShows(cx, s, level, doubles);
        ShowsAfter(Reduced(TextOf(g.events)), Reduced(TextOf(AllRequoted(g.events))), Inserts(g.events),
                   Shown(cx, g.rest, level, parent, false, g.doubles), Shown(cx, t', level, parent, false, g.doubles),
                   ArgInserts(cx, g.rest, level, parent, false, g.doubles));
      case LimitToken =>
        UnquotedToken(cx, s, s', level, parent, quoted);
        LimitCase(cx, s, level, parent, quoted, doubles);
        LimitCase(cx, s', level, parent, quoted, doubles);
        LimitInserts(cx, s, level, parent, quoted, doubles);
    }
  }

  lemma AlikeGoesOn(x: Text, y: Text)
    ensures Alike(x, y) && x != [] ==> y != []
  {
  }

  lemma DropFirst(a: Text, b: Text)
    ensures (a + b)[|a|..] == b
  {
  }

  /** The end of the pattern shows nothing, and neither does an apostrophe that closes a quote there. */
  lemma EndShows(cx: Context, level: nat, parent: ArgType, quoted: bool, doubles: nat, rest': Text)
    requires level > 0 || cx.inMessage
    requires var r := ParseContent(cx, [], level, parent, quoted, doubles); r.Ok? && Alike(r.rest, rest')
    ensures ShowsMore(Shown(cx, [], level, parent, quoted, doubles),
                      Shown(cx, AgainText(ParseContent(cx, [], level, parent, quoted, doubles), rest'), level, parent, quoted, doubles),
                      ArgInserts(cx, [], level, parent, quoted, doubles))
  {
    hide TextOf, AllRequoted;
    var r := ParseContent(cx, [], level, parent, quoted, doubles);
    var end := ParseEnd(cx, level, parent, doubles);
    RequotedSame(end.events);
    TextOfOne(end.events[0]);
    if quoted {
      RequotedTokens();
      AgainOne(MISSING_APOS, end, []);
      assert AgainText(r, []) == [APOS];
      assert [APOS][1..] == [];
      LiteralTokens(APOS);
    } else {
      assert [] + end.events == end.events;
      assert AgainText(r, []) == [];
    }
  }

  lemma TokenInserts(cx: Context, s: Text, level: nat, parent: ArgType, quoted: bool, doubles: nat)
    requires (level > 0 || cx.inMessage) && s != [] && TokenAt(cx, s, level, parent, quoted).Token?
    ensures var Token(e, quoted') := TokenAt(cx, s, level, parent, quoted);
            ArgInserts(cx, s, level, parent, quoted, doubles) == ArgInserts(cx, s[|e.text|..], level, parent, quoted', doubles)
  {
    hide TokenAt, ParseArg;
  }

  lemma ArgCaseInserts(cx: Context, s: Text, level: nat, parent: ArgType, quoted: bool, doubles: nat)
    requires (level > 0 || cx.inMessage) && s != [] && TokenAt(cx, s, level, parent, quoted).ArgToken?
    requires ParseArg(cx, s, level, doubles).Ok?
    ensures var g := ParseArg(cx, s, level, doubles);
            ArgInserts(cx, s, level, parent, quoted, doubles) ==
            Inserts(g.events) + ArgInserts(cx, g.rest, level, parent, false, g.doubles)
  {
    hide TokenAt, ParseArg, Inserts;
  }

  lemma LimitInserts(cx: Context, s: Text, level: nat, parent: ArgType, quoted: bool, doubles: nat)
    requires (level > 0 || cx.inMessage) && s != [] && TokenAt(cx, s, level, parent, quoted).LimitToken?
    ensures ArgInserts(cx, s, level, parent, quoted, doubles) == 0 && ShowsMore([], [], 0)
  {
    hide TokenAt, ParseArg;
  }

  lemma TokenAgain(cx: Context, s: Text, level: nat, parent: ArgType, quoted: bool, doubles: nat, rest': Text)
    requires (level > 0 || cx.inMessage) && s != [] && TokenAt(cx, s, level, parent, quoted).Token?
    requires ParseContent(cx, s, level, parent, quoted, doubles).Ok?
    ensures var Token(e, quoted') := TokenAt(cx, s, level, parent, quoted);
            var p := ParseContent(cx, s[|e.text|..], level, parent, quoted', doubles);
            && p.Ok?
            && AgainText(ParseContent(cx, s, level, parent, quoted, doubles), rest') == Requoted(e).text + AgainText(p, rest')
  {
    hide TokenAt, AgainText, Requoted, ParseArg;
    var Token(e, quoted') := TokenAt(cx, s, level, parent, quoted);
    AgainOne(e, ParseContent(cx, s[|e.text|..], level, parent, quoted', doubles), rest');
  }

  lemma ArgAgain(cx: Context, s: Text, level: nat, parent: ArgType, quoted: bool, doubles: nat, rest': Text)
    requires (level > 0 || cx.inMessage) && s != [] && TokenAt(cx, s, level, parent, quoted).ArgToken?
    requires ParseContent(cx, s, level, parent, quoted, doubles).Ok? && ParseArg(cx, s, level, doubles).Ok?
    requires var g := ParseArg(cx, s, level, doubles); ParseContent(cx, g.rest, level, parent, false, g.doubles).Ok?
    ensures var g := ParseArg(cx, s, level, doubles);
            var t' := AgainText(ParseContent(cx, g.rest, level, parent, false, g.doubles), rest');
            AgainText(ParseContent(cx, s, level, parent, quoted, doubles), rest') == AgainText(g, t')
  {
    hide TokenAt, AllRequoted, TextOf, ParseArg;
    var g := ParseArg(cx, s, level, doubles);
    AgainPrepend(g.events, ParseContent(cx, g.rest, level, parent, false, g.doubles), rest');
  }

  lemma LiteralStays(cx: Context, s: Text, level: nat, parent: ArgType, quoted: bool)
    requires s != [] && TokenAt(cx, s, level, parent, quoted).Token?
    ensures var e := TokenAt(cx, s, level, parent, quoted).event;
            LiteralText(Requoted(e)) == LiteralText(e) && ShowsMore(LiteralText(e), LiteralText(e), 0)
  {
    hide LiteralText, Requoted;
    RequotedTokens();
    LiteralTokens(s[0]);
    PlainIsSame(s[0]);
  }

  lemma ArgShows(cx: Context, s: Text, level: nat, doubles: nat)
    requires cx.inMessage && s != [] && s[0] == LEFT_CURLY && ParseArg(cx, s, level, doubles).Ok?
    ensures var events := ParseArg(cx, s, level, doubles).events;
            ShowsMore(Reduced(TextOf(events)), Reduced(TextOf(AllRequoted(events))), Inserts(events))
  {
    hide Reduced, TextOf, ParseArg, Inserts;
    var events := ParseArg(cx, s, level, doubles).events;
    ArgGains(cx, s, level, doubles);
    InsertsNone(events);
    if NoInserts(events) {
      RequotedSame(events);
    }
  }

  /**
    * For every pattern: auto-quoting adds to the text shown exactly the apostrophes that it puts into
    * arguments, so it keeps that text exactly if it puts none there.
    */
  lemma AutoQuotingKeepsShownTextIff(cx: Context, s: Text)
    requires cx.inMessage && ParsePattern(cx, s).Ok?
    ensures var quoted := Inserted(s, PartsOf(ParsePattern(cx, s).events, 0, 0), 0);
            var n := ArgInserts(cx, s, 0, NONE, false, 0);
            && |Shown(cx, quoted, 0, NONE, false, 0)| == |Shown(cx, s, 0, NONE, false, 0)| + n
            && (Shown(cx, quoted, 0, NONE, false, 0) == Shown(cx, s, 0, NONE, false, 0) <==> n == 0)
  {
    hide PartsOf, ParseContent, Shown, ArgInserts, Inserted, AgainText, PartCount, TextOf, Requoted;
    QuotedContent(cx, s);
    ShownRequotes(cx, s, 0, NONE, false, 0, []);
  }

  /** The auto-quoted pattern is the content quoted. */
  lemma QuotedContent(cx: Context, s: Text)
    requires cx.inMessage && ParsePattern(cx, s).Ok?
    ensures var r := ParseContent(cx, s, 0, NONE, false, 0);
            r.Ok? && r.rest == [] && Inserted(s, PartsOf(ParsePattern(cx, s).events, 0, 0), 0) == AgainText(r, [])
  {
    hide PartsOf, ParseContent, Inserted, PartCount, TextOf, Requoted;
    var r := ParsePattern(cx, s);
    assert s[0..] == s;
    var p := ParseContent(cx, s, 0, NONE, false, 0);
    var start := r.events[0];
    assert r.events == [start] + p.events;
    MessageIsSound(cx, s, 0, 0, NONE, 0);
    InsertedIsRequoted([], r.events, 0);
    assert TextOf(r.events) + [] == TextOf(r.events) && [] + TextOf(r.events) == TextOf(r.events);
    RequotedText(start, p.events);
    NotRequoted(start);
    AgainIs(p, []);
    NothingAfter(TextOf(AllRequoted(p.events)));
    NothingFirst(TextOf(AllRequoted(p.events)));
    NothingFirst(TextOf(AllRequoted(r.events)));
  }

  // ---------- patterns without arguments ----------

  lemma {:induction false} NoArgsNoInserts(cx: Context, s: Text, quoted: bool, doubles: nat)
    requires cx.inMessage
    requires var r := ParseContent(cx, s, 0, NONE, quoted, doubles); r.Ok? && HasNoArgs(r.events)
    ensures ArgInserts(cx, s, 0, NONE, quoted, doubles) == 0
    decreases |s|
  {
    hide TokenAt, HasNoArgs;
    if s != [] {
      match TokenAt(cx, s, 0, NONE, quoted)
      case Token(e, quoted') =>
        TailHasNoArgs(e, ParseContent(cx, s[|e.text|..], 0, NONE, quoted', doubles).events);
        NoArgsNoInserts(cx, s[|e.text|..], quoted', doubles);
      case ArgToken =>
        ArgHasStart(cx, s, doubles);
    }
  }

  lemma RequotedHasNoArgs(events: seq<Event>)
    requires HasNoArgs(events)
    ensures HasNoArgs(AllRequoted(events))
  {
  }

  /** Auto-quoting a pattern without arguments keeps its text. */
  lemma AutoQuotingKeepsMessageText(cx: Context, s: Text)
    requires cx.inMessage && ParsePattern(cx, s).Ok? && HasNoArgs(ParsePattern(cx, s).events)
    ensures Unquoted(cx, Inserted(s, PartsOf(ParsePattern(cx, s).events, 0, 0), 0), false) == Unquoted(cx, s, false)
  {
    hide *;
    PatternHasNoArgs(cx, s);
    var p := ParseContent(cx, s, 0, NONE, false, 0);
    var quoted := AgainText(p, []);
    QuotedContent(cx, s);
    NoArgsNoInserts(cx, s, false, 0);
    AutoQuotingKeepsShownTextIff(cx, s);
    ShownIsUnquoted(cx, s, false, 0);
    NothingIsAlike();
    ContentRequotes(cx, s, 0, NONE, false, 0, []);
    AgainIs(p, []);
    RequotedHasNoArgs(p.events);
    ShownIsUnquoted(cx, quoted, false, 0);
  }

  lemma NothingIsAlike()
    ensures Alike([], [])
  {
  }

  lemma PatternHasNoArgs(cx: Context, s: Text)
    requires cx.inMessage && ParsePattern(cx, s).Ok? && HasNoArgs(ParsePattern(cx, s).events)
    ensures var r := ParseContent(cx, s, 0, NONE, false, 0); r.Ok? && HasNoArgs(r.events)
  {
    hide ParseContent, PartCount, HasNoArgs;
    var r := ParsePattern(cx, s);
    assert s[0..] == s;
    TailHasNoArgs(r.events[0], ParseContent(cx, s, 0, NONE, false, 0).events);
  }
}
