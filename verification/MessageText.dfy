/** The literal text of a message: what is left when quoting syntax is skipped. */
module MessageText {
  import opened Basics
  import opened MessageGrammar
  import opened MessageEvents
  import opened MessageSoundness
  import opened MessageParts

  // ---------- the quote automaton ----------

  /** Two states: outside and inside quoted text. */
  function Unquoted(cx: Context, s: Text, quoted: bool): Text {
    if s == [] then []
    else if s[0] != APOS then [s[0]] + Unquoted(cx, s[1..], quoted)
    else if |s| > 1 && s[1] == APOS then [APOS] + Unquoted(cx, s[2..], quoted)
    else if quoted then Unquoted(cx, s[1..], false)
    else if |s| > 1 && StartsQuote(cx, NONE, s[1]) then Unquoted(cx, s[1..], true)
    else [APOS] + Unquoted(cx, s[1..], false)
  }

  // ---------- the text of events ----------

  /** The event's text without the syntax character it marks. */
  function LiteralText(e: Event): Text {
    if e.mark.Some? && e.mark.value.kind == SKIP_SYNTAX && e.at < |e.text| then e.text[..e.at] + e.text[e.at + 1..]
    else e.text
  }

  predicate HasNoArgs(events: seq<Event>) {
    forall i :: 0 <= i < |events| && events[i].mark.Some? ==> events[i].mark.value.kind != ARG_START
  }

  /** What the next token adds to the text, and where that leaves the automaton. */
  lemma TokenIsUnquoted(cx: Context, s: Text, quoted: bool)
    requires s != [] && TokenAt(cx, s, 0, NONE, quoted).Token?
    ensures var t := TokenAt(cx, s, 0, NONE, quoted);
            Unquoted(cx, s, quoted) == LiteralText(t.event) + Unquoted(cx, s[|t.event.text|..], t.quoted)
  {
    hide StartsQuote, EndsMessage, LiteralText;
    LiteralTokens(s[0]);
    if |s| == 1 {
      assert s[1..] == [];
    }
  }

  lemma LiteralTokens(c: int)
    ensures LiteralText(DOUBLE_APOS) == [APOS] && LiteralText(QUOTE) == [] && LiteralText(LONE_APOS) == [APOS]
    ensures LiteralText(Plain([c])) == [c]
  {
    assert [APOS, APOS][..1] == [APOS] && [APOS, APOS][2..] == [] && [APOS][..0] == [] && [APOS][1..] == [];
  }

  lemma ArgHasStart(cx: Context, s: Text, doubles: nat)
    requires cx.inMessage && s != [] && s[0] == LEFT_CURLY && ParseArgAndContent(cx, s, 0, NONE, doubles).Ok?
    ensures !HasNoArgs(ParseArgAndContent(cx, s, 0, NONE, doubles).events)
  {
    hide ParseHeader, ParseStyle, ParseContent, PartCount;
    var events := ParseArgAndContent(cx, s, 0, NONE, doubles).events;
    assert events[0].mark.Some? && events[0].mark.value.kind == ARG_START;
  }

  // ---------- reading the text off the parts ----------

  /** UnicodeString::append() with a range that it pins to the string. */
  function Slice(s: Text, start: int, limit: int): Text {
    if 0 <= start <= limit <= |s| then s[start..limit] else []
  }

  function LimitOf(p: Part): int {
    p.index + p.length
  }

  /** Two apostrophes stand for one, a single one for none. */
  function Reduced(s: Text): Text {
    if s == [] then []
    else if s[0] != APOS then [s[0]] + Reduced(s[1..])
    else if |s| > 1 && s[1] == APOS then [APOS] + Reduced(s[2..])
    else Reduced(s[1..])
  }

  /** The position of the first apostrophe from start on, or the length. */
  function NextApos(s: Text, start: nat): (r: nat)
    requires start <= |s|
    ensures start <= r <= |s| && (r < |s| ==> s[r] == APOS) && (forall k :: start <= k < r ==> s[k] != APOS)
    decreases |s| - start
  {
    if start == |s| || s[start] == APOS then start else NextApos(s, start + 1)
  }

  lemma {:induction false} ReducedRun(s: Text, i: nat, j: nat)
    requires i <= j <= |s| && forall k :: i <= k < j ==> s[k] != APOS
    ensures Reduced(s[i..]) == s[i..j] + Reduced(s[j..])
    decreases j - i
  {
    if i < j {
      ReducedRun(s, i + 1, j);
      assert s[i..][1..] == s[i + 1..];
      assert s[i..j] == [s[i]] + s[i + 1..j];
      Assoc([s[i]], s[i + 1..j], Reduced(s[j..]));
    } else {
      assert s[i..j] == [];
    }
  }

  /** An apostrophe before start may be half of a pair. */
  function ReducedFrom(s: Text, start: nat, afterApos: bool): Text
    requires start <= |s|
  {
    if afterApos && start < |s| && s[start] == APOS then [APOS] + Reduced(s[start + 1..]) else Reduced(s[start..])
  }

  /** Appends the text with its apostrophes reduced. */
  method AppendReducedApostrophes(s: Text, start0: nat, limit: nat, sb0: Text) returns (sb: Text)
    requires start0 <= limit <= |s|
    ensures sb == sb0 + Reduced(s[start0..limit])
  {
    hide Reduced;
    ghost var u := s[..limit];
    assert u[start0..] == s[start0..limit];
    sb := sb0;
    var start: nat := start0;
    var doubleApos: int := -1;
    while true
      invariant start0 <= start <= limit && (doubleApos == -1 || doubleApos == start)
      invariant sb + ReducedFrom(u, start, doubleApos == start) == sb0 + Reduced(u[start0..])
      decreases limit - start
    {
      var i := NextApos(s, start);
      if i >= limit {
        NoMoreApos(u, start, doubleApos == start);
        assert s[start..limit] == u[start..];
        sb := sb + s[start..limit];
        break;
      }
      if i == doubleApos {
        Assoc(sb, [APOS], Reduced(u[start + 1..]));
        sb := sb + [APOS];
        start := start + 1;
        doubleApos := -1;
      } else {
        SkipApos(u, start, i, doubleApos == start);
        assert s[start..i] == u[start..i];
        Assoc(sb, s[start..i], ReducedFrom(u, i + 1, true));
        sb := sb + s[start..i];
        start := i + 1;
        doubleApos := start;
      }
    }
  }

  lemma NoMoreApos(u: Text, start: nat, afterApos: bool)
    requires start <= |u| && forall k :: start <= k < |u| ==> u[k] != APOS
    ensures ReducedFrom(u, start, afterApos) == u[start..]
  {
    ReducedRun(u, start, |u|);
    assert u[|u|..] == [] && u[start..|u|] == u[start..];
    assert u[start..] + Reduced([]) == u[start..];
  }

  lemma SkipApos(u: Text, start: nat, i: nat, afterApos: bool)
    requires start <= i < |u| && u[i] == APOS && (forall k :: start <= k < i ==> u[k] != APOS) && !(afterApos && i == start)
    ensures ReducedFrom(u, start, afterApos) == u[start..i] + ReducedFrom(u, i + 1, true)
  {
    ReducedRun(u, start, i);
    assert u[i..][1..] == u[i + 1..];
    if i + 1 < |u| {
      assert u[i..][2..] == u[i + 2..];
    }
  }

  /** What is appended from part i on, when the text before prev is done. */
  function Unskipped(s: Text, parts: seq<Part>, i: nat, prev: int): Text
    decreases |parts| - i
  {
    if i + 1 >= |parts| then []
    else
      var part := parts[i + 1];
      match part.kind
      case MSG_LIMIT => Slice(s, prev, part.index)
      case SKIP_SYNTAX => Slice(s, prev, part.index) + Unskipped(s, parts, i + 1, LimitOf(part))
      case ARG_START =>
        if i + 1 < part.limitPartIndex < |parts| then
          var limit := LimitOf(parts[part.limitPartIndex]);
          Slice(s, prev, part.index) +
          (Reduced(Slice(s, part.index, limit)) + Unskipped(s, parts, part.limitPartIndex, limit))
        else []
      case _ => Unskipped(s, parts, i + 1, prev)
  }

  /** Appends the message that starts at part msgStart, without the syntax that quotes it. */
  method AppendSubMessageWithoutSkipSyntax(s: Text, parts: seq<Part>, msgStart: nat, result0: Text) returns (result: Text)
    requires AreNested(parts) && msgStart < |parts| && parts[msgStart].kind == MSG_START
    ensures result == result0 + Unskipped(s, parts, msgStart, LimitOf(parts[msgStart]))
  {
    hide Slice, Reduced;
    result := result0;
    var prevIndex := LimitOf(parts[msgStart]);
    var i := msgStart;
    ghost var last := parts[msgStart].limitPartIndex;
    while true
      invariant msgStart <= i < last < |parts| && parts[last].kind == MSG_LIMIT
      invariant result + Unskipped(s, parts, i, prevIndex) ==
                result0 + Unskipped(s, parts, msgStart, LimitOf(parts[msgStart]))
      decreases last - i
    {
      var part := parts[i + 1];
      if part.kind == MSG_LIMIT {
        result := result + Slice(s, prevIndex, part.index);
        return;
      } else if part.kind == SKIP_SYNTAX {
        Assoc(result, Slice(s, prevIndex, part.index), Unskipped(s, parts, i + 1, LimitOf(part)));
        result := result + Slice(s, prevIndex, part.index);
        prevIndex := LimitOf(part);
        i := i + 1;
      } else if part.kind == ARG_START {
        var l := part.limitPartIndex;
        var limit := LimitOf(parts[l]);
        var reduced := ReducedSlice(s, part.index, limit);
        Assoc(result, Slice(s, prevIndex, part.index), reduced + Unskipped(s, parts, l, limit));
        Assoc(result + Slice(s, prevIndex, part.index), reduced, Unskipped(s, parts, l, limit));
        result := result + Slice(s, prevIndex, part.index);
        result := result + reduced;
        prevIndex := limit;
        i := l;
      } else {
        i := i + 1;
      }
    }
  }

  method ReducedSlice(s: Text, start: int, limit: int) returns (r: Text)
    ensures r == Reduced(Slice(s, start, limit))
  {
    if 0 <= start <= limit <= |s| {
      r := AppendReducedApostrophes(s, start, limit, []);
    } else {
      r := [];
    }
  }

  // ---------- what is appended ----------

  /**
    * What a message shows, read off the pattern: literal text as the quoting has it, and
    * each argument as it stands but with its apostrophes reduced, up to the end of the message.
    */
  function Shown(cx: Context, s: Text, level: nat, parent: ArgType, quoted: bool, doubles: nat): Text
    requires level > 0 || cx.inMessage
    decreases |s|
  {
    if s == [] then []
    else
      match TokenAt(cx, s, level, parent, quoted)
      case Token(e, quoted') => LiteralText(e) + Shown(cx, s[|e.text|..], level, parent, quoted', doubles)
      case ArgToken =>
        (match ParseArg(cx, s, level, doubles)
         case Err(_) => []
         case Ok(_, rest, n) => Reduced(s[..|s| - |rest|]) + Shown(cx, rest, level, parent, false, n))
      case LimitToken => []
  }

  predicate IsContent(e: Event) {
    match e.mark
    case None => true
    case Some(m) => (m.kind == SKIP_SYNTAX && m.length == 1 && e.at < |e.text|) || m.kind == INSERT_CHAR || m.kind == REPLACE_NUMBER
  }

  predicate IsEnd(e: Event) {
    e.at == 0 && e.mark.Some? && e.mark.value.kind == MSG_LIMIT
  }

  predicate IsSkip(e: Event) {
    e.mark.Some? && e.mark.value.kind == SKIP_SYNTAX
  }

  lemma TokenIsContent(cx: Context, s: Text, level: nat, parent: ArgType, quoted: bool)
    requires s != []
    ensures var t := TokenAt(cx, s, level, parent, quoted); t.Token? ==> IsContent(t.event)
  {
  }

  lemma PartAt(a: seq<Event>, e: Event, c: seq<Event>)
    requires e.mark.Some?
    ensures var parts := PartsOf(a + ([e] + c), 0, 0);
            var k := PartCount(a);
            k < |parts| && parts[k] == PartOf(e, |TextOf(a)|, k)[0] && PartCount(a + [e]) == k + 1
  {
    hide PartsOf, TextOf, PartCount;
    PartsConcat(a, [e] + c, 0, 0);
    PartsConcat([e], c, |TextOf(a)|, PartCount(a));
    PartsOfOne(e, |TextOf(a)|, PartCount(a));
    PartCountConcat(a, [e]);
    MarksCount([e]);
    MarksOfOne(e);
  }

  /** What the loop does with the part of one event, if it has one. */
  lemma UnskippedStep(s: Text, a: seq<Event>, e: Event, c: seq<Event>, prev: nat)
    requires PartCount(a) >= 1 && prev <= |TextOf(a)| && |TextOf(a)| + |e.text| <= |s|
    requires IsContent(e) || IsEnd(e)
    ensures var parts, k, p := PartsOf(a + ([e] + c), 0, 0), PartCount(a), |TextOf(a)|;
            Unskipped(s, parts, k - 1, prev) ==
              if IsEnd(e) then s[prev..p]
              else if IsSkip(e) then s[prev..p + e.at] + Unskipped(s, parts, PartCount(a + [e]) - 1, p + e.at + 1)
              else Unskipped(s, parts, PartCount(a + [e]) - 1, prev)
  {
    hide TextOf, PartCount, PartsOf;
    if e.mark.Some? {
      PartAt(a, e, c);
    } else {
      PartCountConcat(a, [e]);
      MarksCount([e]);
      MarksOfOne(e);
    }
  }

  function ArgStart(argType: ArgType, inner: seq<Event>): Event {
    Event([LEFT_CURLY], 0, Some(Mark(ARG_START, 1, TypeValue(argType), PartCount(inner) + 1)))
  }

  function ArgLimit(argType: ArgType): Event {
    Marked([RIGHT_CURLY], ARG_LIMIT, 1, TypeValue(argType))
  }

  /** What the loop does with a whole argument. */
  lemma UnskippedArg(s: Text, a: seq<Event>, argType: ArgType, inner: seq<Event>, c: seq<Event>, prev: nat)
    requires PartCount(a) >= 1 && prev <= |TextOf(a)|
    requires s == TextOf(a + (ArgEvents(argType, inner) + c))
    ensures var g := ArgEvents(argType, inner);
            var parts, p, q := PartsOf(a + (g + c), 0, 0), |TextOf(a)|, |TextOf(a + g)|;
            && p <= q <= |s| && s[p..q] == TextOf(g) && PartCount(a + g) >= 1
            && Unskipped(s, parts, PartCount(a) - 1, prev) ==
               s[prev..p] + (Reduced(TextOf(g)) + Unskipped(s, parts, PartCount(a + g) - 1, q))
  {
    hide *;
    var start, limit, g := ArgStart(argType, inner), ArgLimit(argType), ArgEvents(argType, inner);
    ArgMarks(argType, inner);
    Regroup(a, start, inner, limit, c);
    PartAt(a, start, inner + ([limit] + c));
    PartAt(a + ([start] + inner), limit, c);
    ArgCounts(a, start, inner, limit);
    TextOfConcat(a, g + c);
    TextOfConcat(g, c);
    TextOfConcat(a, g);
    EventIsInText(TextOf(a), TextOf(g), TextOf(c), s);
    UnskippedAtArg(s, PartsOf(a + (g + c), 0, 0), PartCount(a), prev);
  }

  lemma ArgMarks(argType: ArgType, inner: seq<Event>)
    ensures var start, limit := ArgStart(argType, inner), ArgLimit(argType);
            && ArgEvents(argType, inner) == [start] + inner + [limit]
            && start.mark.Some? && limit.mark.Some?
            && (forall index, k :: PartOf(start, index, k) == [Part(ARG_START, index, 1, TypeValue(argType), k + PartCount(inner) + 1)])
            && (forall index, k :: PartOf(limit, index, k) == [Part(ARG_LIMIT, index, 1, TypeValue(argType), 0)])
            && limit.text == [RIGHT_CURLY]
  {
    hide PartCount;
  }

  lemma Regroup(a: seq<Event>, start: Event, inner: seq<Event>, limit: Event, c: seq<Event>)
    ensures var g := [start] + inner + [limit];
            && a + (g + c) == a + ([start] + (inner + ([limit] + c)))
            && a + (g + c) == (a + ([start] + inner)) + ([limit] + c)
            && a + g == (a + ([start] + inner)) + [limit]
  {
  }

  lemma ArgCounts(a: seq<Event>, start: Event, inner: seq<Event>, limit: Event)
    requires start.mark.Some? && limit.mark.Some? && |limit.text| == 1
    ensures PartCount(a + ([start] + inner)) == PartCount(a) + PartCount(inner) + 1
    ensures PartCount((a + ([start] + inner)) + [limit]) == PartCount(a) + PartCount(inner) + 2
    ensures |TextOf((a + ([start] + inner)) + [limit])| == |TextOf(a + ([start] + inner))| + 1
  {
    hide TextOf, PartCount;
    PartCountConcat(a, [start] + inner);
    PartCountConcat([start], inner);
    PartCountConcat(a + ([start] + inner), [limit]);
    MarksCount([start]);
    MarksOfOne(start);
    MarksCount([limit]);
    MarksOfOne(limit);
    TextOfConcat(a + ([start] + inner), [limit]);
    TextOfOne(limit);
  }

  lemma UnskippedAtArg(s: Text, parts: seq<Part>, k: nat, prev: nat)
    requires 1 <= k < |parts| && parts[k].kind == ARG_START && k < parts[k].limitPartIndex < |parts|
    requires var l := parts[k].limitPartIndex; prev <= parts[k].index <= parts[l].index + parts[l].length <= |s|
    ensures var p, l := parts[k].index, parts[k].limitPartIndex;
            var q := parts[l].index + parts[l].length;
            Unskipped(s, parts, k - 1, prev) == s[prev..p] + (Reduced(s[p..q]) + Unskipped(s, parts, l, q))
  {
    hide Reduced;
  }

  lemma ArgShape(cx: Context, s: Text, level: nat, doubles: nat) returns (argType: ArgType, inner: seq<Event>)
    requires s != [] && s[0] == LEFT_CURLY && (level > 0 || cx.inMessage) && ParseArg(cx, s, level, doubles).Ok?
    ensures ParseArg(cx, s, level, doubles).events == ArgEvents(argType, inner)
  {
    hide ParseHeader, ParseStyle, ArgEvents;
    var h := ParseHeader(cx, s[1..]);
    argType, inner := h.argType, h.events;
    if h.hasStyle {
      inner := h.events + ([Plain([COMMA])] + ParseStyle(cx, h.argType, s[2 + h.length..], level, doubles).events);
    }
  }

  /** Wherever a message stands in the events, the loop over the parts collects what it shows. */
  lemma {:induction false} MessageTextIsShown(cx: Context, s: Text, a: seq<Event>, u: Text, level: nat, parent: ArgType,
                                              quoted: bool, doubles: nat, c: seq<Event>, prev: nat)
    requires (level > 0 || cx.inMessage) && ParseContent(cx, u, level, parent, quoted, doubles).Ok?
    requires s == TextOf(a + (ParseContent(cx, u, level, parent, quoted, doubles).events + c))
    requires PartCount(a) >= 1 && prev <= |TextOf(a)|
    ensures |TextOf(a)| <= |s|
    ensures Unskipped(s, PartsOf(a + (ParseContent(cx, u, level, parent, quoted, doubles).events + c), 0, 0), PartCount(a) - 1, prev) ==
            s[prev..|TextOf(a)|] + Shown(cx, u, level, parent, quoted, doubles)
    decreases |u|
  {
    hide *;
    var b := ParseContent(cx, u, level, parent, quoted, doubles).events;
    TextOfConcat(a, b + c);
    if u == [] {
      EndIsShown(cx, s, a, level, parent, quoted, doubles, c, prev);
      NothingAfter(s[prev..|TextOf(a)|]);
    } else {
      match TokenAt(cx, u, level, parent, quoted)
      case Token(e, quoted') =>
        TokenCase(cx, u, level, parent, quoted, doubles);
        var rest := ParseContent(cx, u[|e.text|..], level, parent, quoted', doubles).events;
        Assoc([e], rest, c);
        TokenIsContent(cx, u, level, parent, quoted);
        ContentStep(s, a, e, rest + c, prev);
        MessageTextIsShown(cx, s, a + [e], u[|e.text|..], level, parent, quoted', doubles, c, NextPrev(a, e, prev));
        ContentText(s, a, e, prev, Shown(cx, u[|e.text|..], level, parent, quoted', doubles));
      case ArgToken =>
        ArgCase(cx, u, level, parent, quoted, doubles);
        var g := ParseArg(cx, u, level, doubles);
        var rest := ParseContent(cx, g.rest, level, parent, false, g.doubles).events;
        Assoc(g.events, rest, c);
        Assoc(a, g.events, rest + c);
        var argType, inner := ArgShape(cx, u, level, doubles);
        UnskippedArg(s, a, argType, inner, rest + c, prev);
        var q := |TextOf(a + g.events)|;
        MessageTextIsShown(cx, s, a + g.events, g.rest, level, parent, false, g.doubles, c, q);
        NothingBefore(s, q, Shown(cx, g.rest, level, parent, false, g.doubles));
      case LimitToken =>
        LimitCase(cx, u, level, parent, quoted, doubles);
        LimitIsShown(s, a, b[0], c, prev);
        NothingAfter(s[prev..|TextOf(a)|]);
    }
  }

  lemma TokenCase(cx: Context, u: Text, level: nat, parent: ArgType, quoted: bool, doubles: nat)
    requires (level > 0 || cx.inMessage) && u != [] && TokenAt(cx, u, level, parent, quoted).Token?
    requires ParseContent(cx, u, level, parent, quoted, doubles).Ok?
    ensures var Token(e, quoted') := TokenAt(cx, u, level, parent, quoted);
            var p := ParseContent(cx, u[|e.text|..], level, parent, quoted', doubles);
            && p.Ok? && ParseContent(cx, u, level, parent, quoted, doubles).events == [e] + p.events
            && ParseContent(cx, u, level, parent, quoted, doubles).rest == p.rest
            && Shown(cx, u, level, parent, quoted, doubles) ==
               LiteralText(e) + Shown(cx, u[|e.text|..], level, parent, quoted', doubles)
  {
    hide TokenAt, LiteralText, ParseArg;
  }

  lemma ArgCase(cx: Context, u: Text, level: nat, parent: ArgType, quoted: bool, doubles: nat)
    requires (level > 0 || cx.inMessage) && u != [] && TokenAt(cx, u, level, parent, quoted).ArgToken?
    requires ParseContent(cx, u, level, parent, quoted, doubles).Ok?
    ensures ParseArg(cx, u, level, doubles).Ok?
    ensures var g := ParseArg(cx, u, level, doubles);
            var p := ParseContent(cx, g.rest, level, parent, false, g.doubles);
            && p.Ok? && ParseContent(cx, u, level, parent, quoted, doubles).events == g.events + p.events
            && ParseContent(cx, u, level, parent, quoted, doubles).rest == p.rest
            && Shown(cx, u, level, parent, quoted, doubles) ==
               Reduced(TextOf(g.events)) + Shown(cx, g.rest, level, parent, false, g.doubles)
  {
    hide TokenAt, LiteralText, ParseArg, Reduced, TextOf, IsSound;
    var g := ParseArg(cx, u, level, doubles);
    ArgIsSound(cx, u, level, doubles);
    ReadText(u, g.events, g.rest);
  }

  lemma LimitCase(cx: Context, u: Text, level: nat, parent: ArgType, quoted: bool, doubles: nat)
    requires (level > 0 || cx.inMessage) && u != [] && TokenAt(cx, u, level, parent, quoted).LimitToken?
    ensures var r := ParseContent(cx, u, level, parent, quoted, doubles);
            r.Ok? && |r.events| == 1 && r.events == [r.events[0]] && IsEnd(r.events[0])
    ensures Shown(cx, u, level, parent, quoted, doubles) == []
  {
    hide TokenAt, ParseArg;
  }

  lemma NothingBefore(s: Text, q: nat, more: Text)
    requires q <= |s|
    ensures s[q..q] + more == more
  {
  }

  lemma NothingAfter(s: Text)
    ensures s + [] == s
  {
  }

  lemma ReadText(u: Text, events: seq<Event>, rest: Text)
    requires IsSound(u, events, rest)
    ensures |rest| <= |u| && u[..|u| - |rest|] == TextOf(events)
  {
  }

  lemma LimitIsShown(s: Text, a: seq<Event>, e: Event, c: seq<Event>, prev: nat)
    requires s == TextOf(a + ([e] + c)) && PartCount(a) >= 1 && prev <= |TextOf(a)| && IsEnd(e)
    ensures |TextOf(a)| <= |s| && Unskipped(s, PartsOf(a + ([e] + c), 0, 0), PartCount(a) - 1, prev) == s[prev..|TextOf(a)|]
  {
    hide TextOf, PartCount, PartsOf, Unskipped;
    TextOfConcat(a, [e] + c);
    TextOfConcat([e], c);
    TextOfOne(e);
    UnskippedStep(s, a, e, c, prev);
  }

  lemma EndIsShown(cx: Context, s: Text, a: seq<Event>, level: nat, parent: ArgType, quoted: bool, doubles: nat, c: seq<Event>, prev: nat)
    requires (level > 0 || cx.inMessage) && ParseContent(cx, [], level, parent, quoted, doubles).Ok?
    requires s == TextOf(a + (ParseContent(cx, [], level, parent, quoted, doubles).events + c))
    requires PartCount(a) >= 1 && prev <= |TextOf(a)|
    ensures |TextOf(a)| <= |s|
    ensures Unskipped(s, PartsOf(a + (ParseContent(cx, [], level, parent, quoted, doubles).events + c), 0, 0), PartCount(a) - 1, prev) ==
            s[prev..|TextOf(a)|]
    ensures Shown(cx, [], level, parent, quoted, doubles) == []
  {
    hide TextOf, PartCount, PartsOf, Unskipped;
    var limit := LimitEvent([], 0, level);
    if quoted {
      assert [MISSING_APOS] + [limit] + c == [MISSING_APOS] + ([limit] + c);
      ContentStep(s, a, MISSING_APOS, [limit] + c, prev);
      Assoc(a, [MISSING_APOS], [limit] + c);
      TextOfConcat(a, [MISSING_APOS]);
      TextOfOne(MISSING_APOS);
      LimitIsShown(s, a + [MISSING_APOS], limit, c, prev);
    } else {
      assert [] + [limit] + c == [limit] + c;
      LimitIsShown(s, a, limit, c, prev);
    }
  }

  /** Where the text that is still to be appended begins after an event. */
  function NextPrev(a: seq<Event>, e: Event, prev: nat): nat {
    if IsSkip(e) then |TextOf(a)| + e.at + 1 else prev
  }

  lemma ContentStep(s: Text, a: seq<Event>, e: Event, c: seq<Event>, prev: nat)
    requires s == TextOf(a + ([e] + c)) && PartCount(a) >= 1 && prev <= |TextOf(a)| && IsContent(e)
    ensures var parts, p := PartsOf(a + ([e] + c), 0, 0), |TextOf(a)|;
            && a + ([e] + c) == (a + [e]) + c && s == TextOf((a + [e]) + c)
            && p + |e.text| <= |s| && s[p..p + |e.text|] == e.text
            && PartCount(a + [e]) >= 1 && NextPrev(a, e, prev) <= |TextOf(a + [e])|
            && Unskipped(s, parts, PartCount(a) - 1, prev) ==
               (if IsSkip(e) then s[prev..p + e.at] else []) + Unskipped(s, parts, PartCount(a + [e]) - 1, NextPrev(a, e, prev))
  {
    hide *;
    Assoc(a, [e], c);
    TextOfConcat(a, [e] + c);
    TextOfConcat([e], c);
    TextOfConcat(a, [e]);
    TextOfOne(e);
    PartCountConcat(a, [e]);
    EventIsInText(TextOf(a), e.text, TextOf(c), s);
    SkipIsInside(a, e, prev);
    UnskippedStep(s, a, e, c, prev);
    NothingFirst(Unskipped(s, PartsOf(a + ([e] + c), 0, 0), PartCount(a + [e]) - 1, NextPrev(a, e, prev)));
  }

  lemma SkipIsInside(a: seq<Event>, e: Event, prev: nat)
    requires IsContent(e)
    ensures !IsEnd(e) && (IsSkip(e) ==> e.at < |e.text|)
    ensures NextPrev(a, e, prev) == if IsSkip(e) then |TextOf(a)| + e.at + 1 else prev
  {
  }

  lemma NothingFirst(s: Text)
    ensures [] + s == s
  {
  }

  /** The text of one event, skipped syntax left out. */
  lemma ContentText(s: Text, a: seq<Event>, e: Event, prev: nat, more: Text)
    requires IsContent(e) && prev <= |TextOf(a)| && |TextOf(a)| + |e.text| <= |s|
    requires s[|TextOf(a)|..|TextOf(a)| + |e.text|] == e.text
    ensures |TextOf(a + [e])| == |TextOf(a)| + |e.text| && NextPrev(a, e, prev) <= |TextOf(a + [e])|
    ensures (if IsSkip(e) then s[prev..|TextOf(a)| + e.at] else []) + (s[NextPrev(a, e, prev)..|TextOf(a + [e])|] + more) ==
            s[prev..|TextOf(a)|] + (LiteralText(e) + more)
  {
    hide TextOf, LiteralText;
    TextOfConcat(a, [e]);
    TextOfOne(e);
    SliceText(s, |TextOf(a)|, e, prev, more);
  }

  lemma SliceText(s: Text, p: nat, e: Event, prev: nat, more: Text)
    requires IsContent(e) && prev <= p && p + |e.text| <= |s| && s[p..p + |e.text|] == e.text
    ensures (if IsSkip(e) then s[prev..p + e.at] else []) + (s[if IsSkip(e) then p + e.at + 1 else prev..p + |e.text|] + more) ==
            s[prev..p] + (LiteralText(e) + more)
  {
    if IsSkip(e) {
      SkippedSlices(s, prev, p, e);
      Assoc(s[prev..p + e.at], s[p + e.at + 1..p + |e.text|], more);
    } else {
      SplitSlice(s, prev, p, p + |e.text|, more);
    }
    Assoc(s[prev..p], LiteralText(e), more);
  }

  lemma SplitSlice(s: Text, i: nat, j: nat, k: nat, more: Text)
    requires i <= j <= k <= |s|
    ensures [] + (s[i..k] + more) == (s[i..j] + s[j..k]) + more
  {
    assert s[i..k] == s[i..j] + s[j..k];
  }

  lemma EventIsInText(before: Text, text: Text, after: Text, s: Text)
    requires s == before + (text + after)
    ensures |before| + |text| <= |s| && s[|before|..|before| + |text|] == text
  {
  }

  lemma SkippedSlices(s: Text, prev: nat, p: nat, e: Event)
    requires e.at < |e.text| && prev <= p && p + |e.text| <= |s| && s[p..p + |e.text|] == e.text
    requires e.mark.Some? && e.mark.value.kind == SKIP_SYNTAX
    ensures s[prev..p + e.at] + s[p + e.at + 1..p + |e.text|] == s[prev..p] + LiteralText(e)
  {
    var t := s[p..p + |e.text|];
    assert s[p..p + e.at] == t[..e.at] && s[p + e.at + 1..p + |e.text|] == t[e.at + 1..];
    assert s[prev..p + e.at] == s[prev..p] + s[p..p + e.at];
    Assoc(s[prev..p], t[..e.at], t[e.at + 1..]);
  }

  /** For a whole pattern, arguments and all. */
  lemma PatternTextIsShown(cx: Context, s: Text)
    requires cx.inMessage && ParsePattern(cx, s).Ok?
    ensures Unskipped(s, PartsOf(ParsePattern(cx, s).events, 0, 0), 0, 0) == Shown(cx, s, 0, NONE, false, 0)
  {
    hide PartsOf, TextOf, ParseContent, Shown, Unskipped, PartCount;
    var r := ParsePattern(cx, s);
    var p := ParseContent(cx, s[0..], 0, NONE, false, 0);
    assert s[0..] == s;
    var start := r.events[0];
    assert r.events == [start] + (p.events + []);
    MessageIsSound(cx, s, 0, 0, NONE, 0);
    assert TextOf(r.events) + [] == TextOf(r.events);
    TextOfOne(start);
    MarksOfOne(start);
    MarksCount([start]);
    MessageTextIsShown(cx, s, [start], s, 0, NONE, false, 0, [], 0);
    assert s[0..0] + Shown(cx, s, 0, NONE, false, 0) == Shown(cx, s, 0, NONE, false, 0);
  }

  // ---------- a pattern without arguments ----------

  lemma TailHasNoArgs(e: Event, events: seq<Event>)
    requires HasNoArgs([e] + events)
    ensures HasNoArgs(events)
  {
    assert forall i :: 0 <= i < |events| ==> events[i] == ([e] + events)[i + 1];
  }

  lemma {:induction false} ShownIsUnquoted(cx: Context, s: Text, quoted: bool, doubles: nat)
    requires cx.inMessage
    requires var r := ParseContent(cx, s, 0, NONE, quoted, doubles); r.Ok? && HasNoArgs(r.events)
    ensures Shown(cx, s, 0, NONE, quoted, doubles) == Unquoted(cx, s, quoted)
    decreases |s|
  {
    hide TokenAt, Unquoted, LiteralText, HasNoArgs;
    if s == [] {
      NothingIsUnquoted(cx, quoted);
    } else {
      match TokenAt(cx, s, 0, NONE, quoted)
      case Token(e, quoted') =>
        TailHasNoArgs(e, ParseContent(cx, s[|e.text|..], 0, NONE, quoted', doubles).events);
        ShownIsUnquoted(cx, s[|e.text|..], quoted', doubles);
        TokenIsUnquoted(cx, s, quoted);
      case ArgToken =>
        ArgHasStart(cx, s, doubles);
    }
  }

  lemma NothingIsUnquoted(cx: Context, quoted: bool)
    ensures Unquoted(cx, [], quoted) == []
  {
  }

  /**
    * For a pattern without arguments, parsing it and appending its text without the
    * skipped syntax is the same as running the quote automaton over it.
    */
  lemma MessageTextIsUnquoted(cx: Context, s: Text)
    requires cx.inMessage && ParsePattern(cx, s).Ok? && HasNoArgs(ParsePattern(cx, s).events)
    ensures Unskipped(s, PartsOf(ParsePattern(cx, s).events, 0, 0), 0, 0) == Unquoted(cx, s, false)
  {
    hide PartsOf, ParseContent, Unquoted, Unskipped, Shown, PartCount;
    var r := ParsePattern(cx, s);
    var p := ParseContent(cx, s[0..], 0, NONE, false, 0);
    assert s[0..] == s;
    assert r.events == [r.events[0]] + p.events;
    TailHasNoArgs(r.events[0], p.events);
    PatternTextIsShown(cx, s);
    ShownIsUnquoted(cx, s, false, 0);
  }
}
