/**
  * Auto-quoting: doubling lone apostrophes and closing open quotes gives a pattern
  * that parses to the same parts, with nothing left to insert.
  */
module MessageQuoting {
  import opened Basics
  import opened MessageGrammar
  import opened MessageEvents
  import opened MessageSoundness

  // ---------- quoting events ----------

  predicate IsInsert(e: Event) {
    e.mark.Some? && e.mark.value.kind == INSERT_CHAR
  }

  /** Puts the missing character in; it is syntax to skip from then on. */
  function Requoted(e: Event): Event {
    if IsInsert(e) && e.at <= |e.text| then
      Event(e.text[..e.at] + [e.mark.value.value] + e.text[e.at..], e.at, Some(Mark(SKIP_SYNTAX, 1, 0, 0)))
    else e
  }

  function AllRequoted(events: seq<Event>): (r: seq<Event>)
    ensures |r| == |events| && forall i :: 0 <= i < |events| ==> r[i] == Requoted(events[i])
  {
    seq(|events|, i requires 0 <= i < |events| => Requoted(events[i]))
  }

  predicate NoInserts(events: seq<Event>) {
    forall i :: 0 <= i < |events| ==> !IsInsert(events[i])
  }

  lemma RequotedConcat(a: seq<Event>, b: seq<Event>)
    ensures AllRequoted(a + b) == AllRequoted(a) + AllRequoted(b)
  {
  }

  lemma RequotedSame(events: seq<Event>)
    requires NoInserts(events)
    ensures AllRequoted(events) == events
  {
  }

  lemma {:induction false} RequotedCount(events: seq<Event>)
    ensures PartCount(AllRequoted(events)) == PartCount(events)
  {
    if events != [] {
      var n := |events| - 1;
      RequotedCount(events[..n]);
      assert AllRequoted(events)[..n] == AllRequoted(events[..n]);
    }
  }

  // ---------- texts that look the same to the parser ----------

  /** Both end here, or both go on with the same character. */
  predicate Alike(x: Text, y: Text) {
    (x == [] <==> y == []) && (x != [] && y != [] ==> x[0] == y[0])
  }

  predicate Agree(s: Text, s': Text, k: int) {
    0 <= k <= |s| && k <= |s'| && s[..k] == s'[..k]
  }

  lemma AgreeParts(s: Text, s': Text, k: int, i: nat, j: nat)
    requires Agree(s, s', k) && i <= j <= k
    ensures s[i..j] == s'[i..j] && Agree(s[i..], s'[i..], k - i) && (i < k ==> s[i] == s'[i])
  {
    assert forall m :: 0 <= m < k ==> s[m] == s[..k][m] == s'[..k][m] == s'[m];
  }

  /** Skipping stops at the same place if the character there is the same. */
  lemma {:induction false} PrefixLocal(p: int -> bool, s: Text, s': Text, k: int)
    requires Agree(s, s', k) && PrefixLength(p, s) < k
    ensures PrefixLength(p, s') == PrefixLength(p, s)
    decreases |s|
  {
    AgreeParts(s, s', k, 0, 0);
    if p(s[0]) {
      AgreeParts(s, s', k, 1, 1);
      PrefixLocal(p, s[1..], s'[1..], k - 1);
    }
  }

  lemma {:induction false} PrefixAlike(p: int -> bool, s: Text, s': Text, n: nat)
    requires n == PrefixLength(p, s) && Agree(s, s', n) && Alike(s[n..], s'[n..])
    ensures PrefixLength(p, s') == n
    decreases n
  {
    if n > 0 {
      AgreeParts(s, s', n, 0, 1);
      AgreeParts(s, s', n, 1, 1);
      assert s[1..][n - 1..] == s[n..] && s'[1..][n - 1..] == s'[n..];
      PrefixAlike(p, s[1..], s'[1..], n - 1);
    } else {
      assert s[0..] == s && s'[0..] == s';
    }
  }

  lemma WordIsLocal(isWhiteSpace: int -> bool, isPart: int -> bool, s: Text, s': Text, k: int)
    requires Agree(s, s', k) && WordAt(isWhiteSpace, isPart, s).next < k
    ensures WordAt(isWhiteSpace, isPart, s') == WordAt(isWhiteSpace, isPart, s)
  {
    hide PrefixLength;
    var w := WordAt(isWhiteSpace, isPart, s);
    PrefixLocal(isWhiteSpace, s, s', k);
    AgreeParts(s, s', k, w.start, w.start);
    PrefixLocal(isPart, s[w.start..], s'[w.start..], k - w.start);
    AgreeParts(s, s', k, w.end, w.end);
    PrefixLocal(isWhiteSpace, s[w.end..], s'[w.end..], k - w.end);
  }

  lemma AgreeWord(s: Text, s': Text, k: int, w: Word)
    requires Agree(s, s', k) && w.start <= w.end <= w.next < k
    ensures s[..w.start] == s'[..w.start] && s[w.start..w.end] == s'[w.start..w.end]
    ensures s[w.end..w.next] == s'[w.end..w.next] && s[w.next] == s'[w.next]
    ensures Agree(s[w.next..], s'[w.next..], k - w.next)
  {
    AgreeParts(s, s', k, 0, w.start);
    AgreeParts(s, s', k, w.start, w.end);
    AgreeParts(s, s', k, w.end, w.next);
    AgreeParts(s, s', k, w.next, w.next);
    assert s[0..w.start] == s[..w.start] && s'[0..w.start] == s'[..w.start];
  }

  lemma TypeIsLocal(cx: Context, s: Text, s': Text)
    requires ParseType(cx, s).Header? && Agree(s, s', ParseType(cx, s).length + 1)
    ensures ParseType(cx, s') == ParseType(cx, s)
  {
    hide WordAt, TypeAt, Agree;
    var k := ParseType(cx, s).length + 1;
    var w := WordAt(cx.isWhiteSpace, IsArgTypeChar, s);
    AgreeBounds(s, s', k);
    WordIsLocal(cx.isWhiteSpace, IsArgTypeChar, s, s', k);
    AgreeWord(s, s', k, w);
  }

  lemma AgreeBounds(s: Text, s': Text, k: int)
    requires Agree(s, s', k)
    ensures 0 <= k <= |s| && k <= |s'|
  {
  }

  lemma AfterNameIsLocal(cx: Context, s: Text, s': Text)
    requires ParseAfterName(cx, s).Header? && Agree(s, s', ParseAfterName(cx, s).length + 1)
    ensures ParseAfterName(cx, s') == ParseAfterName(cx, s)
  {
    hide ParseType;
    var k := ParseAfterName(cx, s).length + 1;
    AgreeParts(s, s', k, 0, 0);
    if s[0] == COMMA {
      AgreeParts(s, s', k, 1, 1);
      TypeIsLocal(cx, s[1..], s'[1..]);
    }
  }

  /** The start of an argument is read the same whatever comes after it. */
  lemma HeaderIsLocal(cx: Context, s: Text, s': Text)
    requires ParseHeader(cx, s).Header? && Agree(s, s', ParseHeader(cx, s).length + 1)
    ensures ParseHeader(cx, s') == ParseHeader(cx, s)
  {
    hide WordAt, NameEvents, ParseAfterName, Agree;
    var k := ParseHeader(cx, s).length + 1;
    var w := WordAt(cx.isWhiteSpace, cx.isIdentifierPart, s);
    AgreeBounds(s, s', k);
    WordIsLocal(cx.isWhiteSpace, cx.isIdentifierPart, s, s', k);
    AgreeWord(s, s', k, w);
    AfterNameIsLocal(cx, s[w.next..], s'[w.next..]);
  }

  lemma {:induction false} SimpleStyleIsLocal(s: Text, s': Text, nestedBraces: nat, quoted: bool)
    requires SimpleStyleLength(s, nestedBraces, quoted).Style?
    requires Agree(s, s', SimpleStyleLength(s, nestedBraces, quoted).length + 1)
    ensures SimpleStyleLength(s', nestedBraces, quoted) == SimpleStyleLength(s, nestedBraces, quoted)
    decreases |s|
  {
    var k := SimpleStyleLength(s, nestedBraces, quoted).length + 1;
    AgreeParts(s, s', k, 0, 0);
    if k > 1 {
      AgreeParts(s, s', k, 1, 1);
      if quoted {
        SimpleStyleIsLocal(s[1..], s'[1..], nestedBraces, s[0] != APOS);
      } else if s[0] == APOS {
        SimpleStyleIsLocal(s[1..], s'[1..], nestedBraces, true);
      } else if s[0] == LEFT_CURLY {
        SimpleStyleIsLocal(s[1..], s'[1..], nestedBraces + 1, false);
      } else if s[0] == RIGHT_CURLY {
        SimpleStyleIsLocal(s[1..], s'[1..], nestedBraces - 1, false);
      } else {
        SimpleStyleIsLocal(s[1..], s'[1..], nestedBraces, false);
      }
    }
  }

  // ---------- the parts outside messages are not changed ----------

  lemma NameHasNoInserts(name: Text, white: Text)
    requires NameEvents(name, white).Header?
    ensures NoInserts(NameEvents(name, white).events)
  {
    hide ArgNumber;
  }

  lemma AfterNameHasNoInserts(cx: Context, s: Text)
    requires ParseAfterName(cx, s).Header?
    ensures NoInserts(ParseAfterName(cx, s).events)
  {
    hide WordAt, TypeOf;
  }

  lemma HeaderHasNoInserts(cx: Context, s: Text)
    requires ParseHeader(cx, s).Header?
    ensures NoInserts(ParseHeader(cx, s).events)
  {
    hide WordAt, NameEvents, ParseAfterName;
    var w := WordAt(cx.isWhiteSpace, cx.isIdentifierPart, s);
    NameHasNoInserts(s[w.start..w.end], s[w.end..w.next]);
    AfterNameHasNoInserts(cx, s[w.next..]);
  }

  // ---------- parsing the quoted pattern again ----------

  /** The quoted form of what was read, before something else. */
  function AgainText(p: Parsed, rest: Text): Text
    requires p.Ok?
  {
    TextOf(AllRequoted(p.events)) + rest
  }

  function Again(p: Parsed, rest: Text): Parsed
    requires p.Ok?
  {
    Ok(AllRequoted(p.events), rest, p.doubles)
  }

  lemma AgainPrepend(a: seq<Event>, p: Parsed, rest: Text)
    requires p.Ok?
    ensures AgainText(Prepend(a, p), rest) == TextOf(AllRequoted(a)) + AgainText(p, rest)
    ensures Again(Prepend(a, p), rest) == Prepend(AllRequoted(a), Again(p, rest))
  {
    hide TextOf;
    RequotedConcat(a, p.events);
    TextOfConcat(AllRequoted(a), AllRequoted(p.events));
    Assoc(TextOf(AllRequoted(a)), TextOf(AllRequoted(p.events)), rest);
  }

  lemma AgainOne(e: Event, p: Parsed, rest: Text)
    requires p.Ok?
    ensures AgainText(Prepend([e], p), rest) == Requoted(e).text + AgainText(p, rest)
    ensures Again(Prepend([e], p), rest) == Prepend([Requoted(e)], Again(p, rest))
  {
    hide TextOf, Requoted;
    AgainPrepend([e], p, rest);
    TextOfOne(Requoted(e));
    assert AllRequoted([e]) == [Requoted(e)];
  }

  lemma AgainSame(a: seq<Event>, p: Parsed, rest: Text)
    requires p.Ok? && NoInserts(a)
    ensures AgainText(Prepend(a, p), rest) == TextOf(a) + AgainText(p, rest)
    ensures Again(Prepend(a, p), rest) == Prepend(a, Again(p, rest))
  {
    hide TextOf;
    AgainPrepend(a, p, rest);
    RequotedSame(a);
  }

  lemma RequotedTokens()
    ensures Requoted(LONE_APOS) == DOUBLE_APOS && Requoted(MISSING_APOS) == QUOTE
    ensures Requoted(DOUBLE_APOS) == DOUBLE_APOS && Requoted(QUOTE) == QUOTE && Requoted(NUMBER_SIGN) == NUMBER_SIGN
  {
  }

  /** A quoted token is read back as such, if what follows looks the same. */
  lemma TokenRequotes(cx: Context, s: Text, level: nat, parent: ArgType, quoted: bool, t': Text)
    requires s != [] && TokenAt(cx, s, level, parent, quoted).Token?
    requires var token := TokenAt(cx, s, level, parent, quoted);
             Alike(s[|token.event.text|..], t') || (token.quoted && |token.event.text| == |s|)
    ensures var token := TokenAt(cx, s, level, parent, quoted);
            var s' := Requoted(token.event).text + t';
            s' != [] && s'[0] == s[0] && TokenAt(cx, s', level, parent, quoted) == Token(Requoted(token.event), token.quoted)
  {
    RequotedTokens();
    hide Requoted, StartsQuote, EndsMessage, HasPluralStyle;
    var token := TokenAt(cx, s, level, parent, quoted);
    var s' := Requoted(token.event).text + t';
    PlainIsSame(s[0]);
    if |token.event.text| == 1 && |s| > 1 {
      assert s[1..][0] == s[1];
    }
  }

  lemma PlainIsSame(c: int)
    ensures Requoted(Plain([c])) == Plain([c])
  {
  }

  lemma {:induction false} ContentRequotes(cx: Context, s: Text, level: nat, parent: ArgType, quoted: bool, doubles: nat, rest': Text)
    requires level > 0 || cx.inMessage
    requires var r := ParseContent(cx, s, level, parent, quoted, doubles); r.Ok? && Alike(r.rest, rest')
    ensures var r := ParseContent(cx, s, level, parent, quoted, doubles);
            var s' := AgainText(r, rest');
            && ParseContent(cx, s', level, parent, quoted, doubles) == Again(r, rest')
            && (s != [] || !quoted ==> Alike(s, s'))
    decreases |s|, 2
  {
    hide TokenAt, ParseArg, Again, AgainText, Requoted, ParseArgAndContent;
    var r := ParseContent(cx, s, level, parent, quoted, doubles);
    if s == [] {
      EndRequotes(cx, level, parent, quoted, doubles);
    } else {
      match TokenAt(cx, s, level, parent, quoted)
      case Token(e, quoted') =>
        var t := s[|e.text|..];
        var p := ParseContent(cx, t, level, parent, quoted', doubles);
        ContentRequotes(cx, t, level, parent, quoted', doubles, rest');
        var t' := AgainText(p, rest');
        AgainOne(e, p, rest');
        TokenRequotes(cx, s, level, parent, quoted, t');
        assert (Requoted(e).text + t')[|Requoted(e).text|..] == t';
      case ArgToken =>
        ArgAndContentRequotes(cx, s, level, parent, doubles, rest');
        UnquotedToken(cx, s, AgainText(r, rest'), level, parent, quoted);
      case LimitToken =>
        LimitRequotes(cx, s, level, parent, quoted, doubles, rest');
    }
  }

  /** The tokens that are not text depend on one character only. */
  lemma UnquotedToken(cx: Context, s: Text, s': Text, level: nat, parent: ArgType, quoted: bool)
    requires s != [] && Alike(s, s') && !TokenAt(cx, s, level, parent, quoted).Token?
    ensures TokenAt(cx, s', level, parent, quoted) == TokenAt(cx, s, level, parent, quoted)
  {
  }

  lemma EndRequotes(cx: Context, level: nat, parent: ArgType, quoted: bool, doubles: nat)
    requires level > 0 || cx.inMessage
    requires ParseContent(cx, [], level, parent, quoted, doubles).Ok?
    ensures var r := ParseContent(cx, [], level, parent, quoted, doubles);
            && ParseContent(cx, AgainText(r, []), level, parent, quoted, doubles) == Again(r, [])
            && (!quoted ==> AgainText(r, []) == [])
  {
    hide TextOf, AllRequoted;
    var end := ParseEnd(cx, level, parent, doubles);
    var r := ParseContent(cx, [], level, parent, quoted, doubles);
    RequotedSame(end.events);
    TextOfOne(end.events[0]);
    if quoted {
      RequotedTokens();
      AgainOne(MISSING_APOS, end, []);
      assert AgainText(r, []) == [APOS];
      assert [APOS][1..] == [];
      assert ParseContent(cx, [], level, parent, false, doubles) == Prepend([], end);
    } else {
      assert r == Prepend([], end);
      assert [] + end.events == end.events;
    }
  }

  lemma LimitRequotes(cx: Context, s: Text, level: nat, parent: ArgType, quoted: bool, doubles: nat, rest': Text)
    requires level > 0 || cx.inMessage
    requires s != [] && TokenAt(cx, s, level, parent, quoted).LimitToken?
    requires Alike(ParseContent(cx, s, level, parent, quoted, doubles).rest, rest')
    ensures var r := ParseContent(cx, s, level, parent, quoted, doubles);
            var s' := AgainText(r, rest');
            ParseContent(cx, s', level, parent, quoted, doubles) == Again(r, rest') && Alike(s, s')
  {
    hide TextOf, AllRequoted, TokenAt;
    var r := ParseContent(cx, s, level, parent, quoted, doubles);
    RequotedSame(r.events);
    TextOfOne(r.events[0]);
    var s' := AgainText(r, rest');
    if parent == CHOICE {
      assert s' == rest';
    } else {
      assert s' == [s[0]] + rest';
    }
    UnquotedToken(cx, s, s', level, parent, quoted);
  }

  lemma {:induction false} ArgAndContentRequotes(cx: Context, s: Text, level: nat, parent: ArgType, doubles: nat, rest': Text)
    requires s != [] && s[0] == LEFT_CURLY && (level > 0 || cx.inMessage)
    requires var r := ParseArgAndContent(cx, s, level, parent, doubles); r.Ok? && Alike(r.rest, rest')
    ensures var r := ParseArgAndContent(cx, s, level, parent, doubles);
            var s' := AgainText(r, rest');
            s' != [] && s'[0] == LEFT_CURLY && ParseArgAndContent(cx, s', level, parent, doubles) == Again(r, rest')
    decreases |s|, 1
  {
    hide ParseArg, ParseContent, TextOf, AllRequoted;
    var a := ParseArg(cx, s, level, doubles);
    var p := ParseContent(cx, a.rest, level, parent, false, a.doubles);
    ContentRequotes(cx, a.rest, level, parent, false, a.doubles, rest');
    var t' := AgainText(p, rest');
    ArgRequotes(cx, s, level, doubles, t');
    AgainPrepend(a.events, p, rest');
  }

  lemma {:induction false} MessageRequotes(cx: Context, s: Text, startLength: nat, level: nat, parent: ArgType, doubles: nat, rest': Text)
    requires startLength <= |s| && (level > 0 || cx.inMessage)
    requires var r := ParseMessage(cx, s, startLength, level, parent, doubles); r.Ok? && Alike(r.rest, rest')
    ensures var r := ParseMessage(cx, s, startLength, level, parent, doubles);
            var s' := AgainText(r, rest');
            && startLength <= |s'| && ParseMessage(cx, s', startLength, level, parent, doubles) == Again(r, rest')
            && Agree(s, s', startLength) && Alike(s[startLength..], s'[startLength..])
    decreases |s|, 3
  {
    hide ParseContent, TextOf;
    var p := ParseContent(cx, s[startLength..], level, parent, false, doubles);
    ContentRequotes(cx, s[startLength..], level, parent, false, doubles, rest');
    var start := Event(s[..startLength], 0, Some(Mark(MSG_START, startLength, level, PartCount(p.events))));
    assert ParseMessage(cx, s, startLength, level, parent, doubles) == Prepend([start], p);
    AgainOne(start, p, rest');
    RequotedCount(p.events);
    var s' := s[..startLength] + AgainText(p, rest');
    assert s'[..startLength] == s[..startLength] && s'[startLength..] == AgainText(p, rest');
  }

  lemma ArgEventsAgain(argType: ArgType, inner: seq<Event>, rest: Text)
    ensures AllRequoted(ArgEvents(argType, inner)) == ArgEvents(argType, AllRequoted(inner))
    ensures TextOf(ArgEvents(argType, inner)) + rest == [LEFT_CURLY] + (TextOf(inner) + ([RIGHT_CURLY] + rest))
  {
    hide TextOf;
    RequotedCount(inner);
    var a := Event([LEFT_CURLY], 0, Some(Mark(ARG_START, 1, TypeValue(argType), PartCount(inner) + 1)));
    var b := Marked([RIGHT_CURLY], ARG_LIMIT, 1, TypeValue(argType));
    TextOfConcat([a] + inner, [b]);
    TextOfConcat([a], inner);
    TextOfOne(a);
    TextOfOne(b);
    Assoc([LEFT_CURLY], TextOf(inner), [RIGHT_CURLY]);
    Assoc([LEFT_CURLY], TextOf(inner) + [RIGHT_CURLY], rest);
    Assoc(TextOf(inner), [RIGHT_CURLY], rest);
  }

  /** The text of sound events is the start of what was read. */
  lemma SoundText(s: Text, events: seq<Event>, k: nat)
    requires k <= |s| && IsSound(s, events, s[k..])
    ensures TextOf(events) == s[..k]
  {
    hide TextOf, Marks, IsNested;
    assert |TextOf(events)| == k;
    assert (TextOf(events) + s[k..])[..k] == TextOf(events);
  }

  lemma JoinAgrees(s: Text, k: nat, x: Text)
    requires k <= |s|
    ensures var s' := s[..k] + x; Agree(s, s', k) && s'[k..] == x && (k < |s| && x != [] && x[0] == s[k] ==> Agree(s, s', k + 1))
  {
    var s' := s[..k] + x;
    assert s'[..k] == s[..k];
    if k < |s| && x != [] && x[0] == s[k] {
      assert s'[..k + 1] == s[..k + 1];
    }
  }

  lemma {:induction false} ArgRequotes(cx: Context, s: Text, level: nat, doubles: nat, rest': Text)
    requires s != [] && s[0] == LEFT_CURLY && (level > 0 || cx.inMessage)
    requires ParseArg(cx, s, level, doubles).Ok?
    ensures var r := ParseArg(cx, s, level, doubles);
            var s' := AgainText(r, rest');
            s' != [] && s'[0] == LEFT_CURLY && ParseArg(cx, s', level, doubles) == Again(r, rest')
    decreases |s|, 0
  {
    hide ParseHeader, ParseStyle, TextOf, AllRequoted, ArgEvents;
    var r := ParseArg(cx, s, level, doubles);
    var u := s[1..];
    var h := ParseHeader(cx, u);
    HeaderIsSound(cx, u);
    SoundText(u, h.events, h.length);
    HeaderHasNoInserts(cx, u);
    RequotedSame(h.events);
    var t := s[2 + h.length..];
    if !h.hasStyle {
      var x := [RIGHT_CURLY] + rest';
      ArgEventsAgain(h.argType, h.events, rest');
      HeaderAgain(cx, u, x);
      var s' := [LEFT_CURLY] + (u[..h.length] + x);
      assert AgainText(r, rest') == s';
      AfterHeader(s', u[..h.length], x);
    } else {
      var style := ParseStyle(cx, h.argType, t, level, doubles);
      var end := [RIGHT_CURLY] + rest';
      StyleRequotes(cx, h.argType, t, level, doubles, end);
      var y := AgainText(style, end);
      var x := [COMMA] + y;
      HeaderAgain(cx, u, x);
      StyledArgText(h, style, rest');
      var s' := [LEFT_CURLY] + (u[..h.length] + x);
      AfterHeader(s', u[..h.length], x);
    }
  }

  lemma HeaderAgain(cx: Context, u: Text, x: Text)
    requires ParseHeader(cx, u).Header? && x != [] && x[0] == u[ParseHeader(cx, u).length]
    ensures ParseHeader(cx, u[..ParseHeader(cx, u).length] + x) == ParseHeader(cx, u)
  {
    hide ParseHeader;
    var k := ParseHeader(cx, u).length;
    JoinAgrees(u, k, x);
    HeaderIsLocal(cx, u, u[..k] + x);
  }

  lemma AfterHeader(s': Text, head: Text, x: Text)
    requires s' == [LEFT_CURLY] + (head + x) && x != []
    ensures s' != [] && s'[0] == LEFT_CURLY && s'[1..] == head + x && s'[2 + |head|..] == x[1..]
  {
  }

  lemma StyledArgText(h: Header, style: Parsed, rest': Text)
    requires h.Header? && style.Ok? && NoInserts(h.events)
    ensures var inner := h.events + ([Plain([COMMA])] + style.events);
            && AllRequoted(ArgEvents(h.argType, inner)) ==
               ArgEvents(h.argType, h.events + ([Plain([COMMA])] + AllRequoted(style.events)))
            && TextOf(AllRequoted(ArgEvents(h.argType, inner))) + rest' ==
               [LEFT_CURLY] + (TextOf(h.events) + ([COMMA] + AgainText(style, [RIGHT_CURLY] + rest')))
  {
    hide TextOf, ArgEvents;
    var comma := Plain([COMMA]);
    var inner := h.events + ([comma] + style.events);
    ArgEventsAgain(h.argType, inner, rest');
    RequotedConcat(h.events, [comma] + style.events);
    RequotedConcat([comma], style.events);
    RequotedSame(h.events);
    RequotedSame([comma]);
    var again := h.events + ([comma] + AllRequoted(style.events));
    ArgEventsAgain(h.argType, again, rest');
    var end := [RIGHT_CURLY] + rest';
    TextOfConcat(h.events, [comma] + AllRequoted(style.events));
    TextOfConcat([comma], AllRequoted(style.events));
    TextOfOne(comma);
    Assoc(TextOf(h.events), [COMMA] + TextOf(AllRequoted(style.events)), end);
    Assoc([COMMA], TextOf(AllRequoted(style.events)), end);
  }

  lemma {:induction false} StyleRequotes(cx: Context, argType: ArgType, s: Text, level: nat, doubles: nat, rest': Text)
    requires level > 0 || cx.inMessage
    requires var r := ParseStyle(cx, argType, s, level, doubles); r.Ok? && Alike(r.rest, rest')
    ensures var r := ParseStyle(cx, argType, s, level, doubles);
            ParseStyle(cx, argType, AgainText(r, rest'), level, doubles) == Again(r, rest')
    decreases |s|, 9
  {
    hide ParseChoiceStyle, ParseSimpleStyle, ParsePluralOrSelectStyle, Again, AgainText;
    if argType == CHOICE {
      ChoiceStyleRequotes(cx, s, level, doubles, rest');
    } else if argType == NONE || argType == SIMPLE {
      SimpleStyleRequotes(s, doubles, rest');
    } else {
      PluralStyleRequotes(cx, argType, s, level, true, false, doubles, rest');
    }
  }

  lemma SimpleStyleRequotes(s: Text, doubles: nat, rest': Text)
    requires var r := ParseSimpleStyle(s, doubles); r.Ok? && Alike(r.rest, rest')
    ensures var r := ParseSimpleStyle(s, doubles);
            ParseSimpleStyle(AgainText(r, rest'), doubles) == Again(r, rest')
  {
    hide SimpleStyleLength, TextOf, AllRequoted;
    var r := ParseSimpleStyle(s, doubles);
    var n := SimpleStyleLength(s, 0, false).length;
    RequotedSame(r.events);
    TextOfOne(r.events[0]);
    JoinAgrees(s, n, rest');
    var s' := s[..n] + rest';
    SimpleStyleIsLocal(s, s', 0, false);
    assert s'[..n] == s[..n];
  }

  /** White space before something that starts alike is skipped alike. */
  lemma WhiteAgain(p: int -> bool, s: Text, w: nat, x: Text)
    requires w == PrefixLength(p, s) && Alike(s[w..], x)
    ensures var s' := s[..w] + x; PrefixLength(p, s') == w && s'[..w] == s[..w] && s'[w..] == x && Alike(s, s')
  {
    JoinAgrees(s, w, x);
    var s' := s[..w] + x;
    PrefixAlike(p, s, s', w);
    if w > 0 {
      assert s'[0] == s[0];
    } else {
      assert s[0..] == s && s' == x;
    }
  }

  lemma {:induction false} ChoiceStyleRequotes(cx: Context, s: Text, level: nat, doubles: nat, rest': Text)
    requires var r := ParseChoiceStyle(cx, s, level, doubles); r.Ok? && Alike(r.rest, rest')
    ensures var r := ParseChoiceStyle(cx, s, level, doubles);
            ParseChoiceStyle(cx, AgainText(r, rest'), level, doubles) == Again(r, rest')
    decreases |s|, 6
  {
    hide ParseChoices, Again, AgainText, PrefixLength;
    var w := PrefixLength(cx.isWhiteSpace, s);
    var p := ParseChoices(cx, s[w..], level, doubles);
    ChoicesRequote(cx, s[w..], level, doubles, rest');
    WhiteAgain(cx.isWhiteSpace, s, w, AgainText(p, rest'));
    AgainOne(Plain(s[..w]), p, rest');
  }

  lemma ChoiceFrontHasNoInserts(cx: Context, s: Text, doubles: nat)
    requires ChoiceFront(cx, s, doubles).Front?
    ensures NoInserts(ChoiceFront(cx, s, doubles).events)
  {
    hide PrefixLength, NumberOf;
  }

  lemma ChoiceFrontFacts(cx: Context, s: Text, doubles: nat)
    requires ChoiceFront(cx, s, doubles).Front?
    ensures var f := ChoiceFront(cx, s, doubles); NoInserts(f.events) && TextOf(f.events) == s[..f.length]
  {
    hide *;
    var f := ChoiceFront(cx, s, doubles);
    ChoiceFrontIsSound(cx, s, doubles);
    SoundText(s, f.events, f.length);
    ChoiceFrontHasNoInserts(cx, s, doubles);
  }

  lemma ChoiceFrontIsLocal(cx: Context, s: Text, s': Text, doubles: nat)
    requires ChoiceFront(cx, s, doubles).Front? && Agree(s, s', ChoiceFront(cx, s, doubles).length)
    ensures ChoiceFront(cx, s', doubles) == ChoiceFront(cx, s, doubles)
  {
    hide ParseDouble, PrefixLength, Agree;
    var k := ChoiceFront(cx, s, doubles).length;
    AgreeBounds(s, s', k);
    var n := PrefixLength(IsDoubleChar, s);
    PrefixLocal(IsDoubleChar, s, s', k);
    AgreeParts(s, s', k, 0, n);
    AgreeParts(s, s', k, n, k - 1);
    PrefixLocal(cx.isWhiteSpace, s[n..], s'[n..], k - n);
    AgreeParts(s, s', k, k - 1, k - 1);
    assert s[0..n] == s[..n] && s'[0..n] == s'[..n];
  }

  lemma {:induction false} ChoicesRequote(cx: Context, s: Text, level: nat, doubles: nat, rest': Text)
    requires var r := ParseChoices(cx, s, level, doubles); r.Ok? && Alike(r.rest, rest')
    ensures var r := ParseChoices(cx, s, level, doubles);
            var s' := AgainText(r, rest');
            ParseChoices(cx, s', level, doubles) == Again(r, rest') && Alike(s, s')
    decreases |s|, 5
  {
    hide ParseMessage, ParseMoreChoices, ChoiceFront, Again, AgainText, TextOf, AllRequoted;
    var r := ParseChoices(cx, s, level, doubles);
    var f := ChoiceFront(cx, s, doubles);
    ChoiceFrontFacts(cx, s, doubles);
    var t := s[f.length..];
    var message := ParseMessage(cx, t, 0, level + 1, CHOICE, f.doubles);
    var more := ParseMoreChoices(cx, message.rest, level, message.doubles);
    MoreChoicesRequote(cx, message.rest, level, message.doubles, rest');
    var x := AgainText(more, rest');
    MessageRequotes(cx, t, 0, level + 1, CHOICE, f.doubles, x);
    var t' := AgainText(message, x);
    FrontAndMessage(f.events, message, more, rest');
    JoinAgrees(s, f.length, t');
    ChoiceFrontIsLocal(cx, s, s[..f.length] + t', doubles);
    AgainFacts(message, x);
    AgainFacts(r, rest');
  }

  lemma AgainFacts(p: Parsed, rest: Text)
    requires p.Ok?
    ensures Again(p, rest) == Ok(AllRequoted(p.events), rest, p.doubles)
  {
  }

  /** Unchanged events, then a message, then more. */
  lemma FrontAndMessage(front: seq<Event>, message: Parsed, more: Parsed, rest': Text)
    requires NoInserts(front) && message.Ok? && more.Ok?
    ensures var r := Prepend(front + message.events, more);
            && AgainText(r, rest') == TextOf(front) + AgainText(message, AgainText(more, rest'))
            && Again(r, rest') == Prepend(front + AllRequoted(message.events), Again(more, rest'))
  {
    hide TextOf, AllRequoted;
    AgainPrepend(front + message.events, more, rest');
    RequotedConcat(front, message.events);
    RequotedSame(front);
    TextOfConcat(front, AllRequoted(message.events));
    Assoc(TextOf(front), TextOf(AllRequoted(message.events)), AgainText(more, rest'));
  }

  lemma {:induction false} MoreChoicesRequote(cx: Context, s: Text, level: nat, doubles: nat, rest': Text)
    requires IsAfterContent(cx, level + 1, CHOICE, s)
    requires var r := ParseMoreChoices(cx, s, level, doubles); r.Ok? && Alike(r.rest, rest')
    ensures var r := ParseMoreChoices(cx, s, level, doubles);
            var s' := AgainText(r, rest');
            Alike(s, s') && ParseMoreChoices(cx, s', level, doubles) == Again(r, rest')
    decreases |s|, 6
  {
    hide ParseChoices, PrefixLength, Again, AgainText;
    if s == [] || s[0] == RIGHT_CURLY {
      AgainNothing(s, doubles, rest');
    } else {
      var v := PrefixLength(cx.isWhiteSpace, s[1..]);
      var w := 1 + v;
      var p := ParseChoices(cx, s[w..], level, doubles);
      ChoicesRequote(cx, s[w..], level, doubles, rest');
      var x := AgainText(p, rest');
      AgainOne(Plain(s[..w]), p, rest');
      assert s[1..][v..] == s[w..];
      WhiteAgain(cx.isWhiteSpace, s[1..], v, x);
      BarAgain(s, v, x);
    }
  }

  lemma AgainNothing(s: Text, doubles: nat, rest: Text)
    ensures AgainText(Ok([], s, doubles), rest) == rest && Again(Ok([], s, doubles), rest) == Ok([], rest, doubles)
  {
    assert AllRequoted([]) == [] && TextOf([]) + rest == rest;
  }

  lemma BarAgain(s: Text, v: nat, x: Text)
    requires 1 + v <= |s|
    ensures var w := 1 + v;
            var s' := s[..w] + x;
            s' != [] && s'[1..] == s[1..][..v] + x && s'[..w] == s[..w] && s'[w..] == x && s'[0] == s[0]
  {
  }

  lemma OffsetFrontIsLocal(cx: Context, keyword: Text, t: Text, t': Text, doubles: nat)
    requires OffsetFront(cx, keyword, t, doubles).Front?
    requires var k := OffsetFront(cx, keyword, t, doubles).length - |keyword|; Agree(t, t', k) && Alike(t[k..], t'[k..])
    ensures OffsetFront(cx, keyword, t', doubles) == OffsetFront(cx, keyword, t, doubles)
  {
    hide ParseDouble, PrefixLength, Agree;
    var m := OffsetFront(cx, keyword, t, doubles).length - |keyword|;
    AgreeBounds(t, t', m);
    var v := PrefixLength(cx.isWhiteSpace, t);
    PrefixLocal(cx.isWhiteSpace, t, t', m);
    AgreeParts(t, t', m, v, m);
    assert t[v..][m - v..] == t[m..] && t'[v..][m - v..] == t'[m..];
    PrefixAlike(IsDoubleChar, t[v..], t'[v..], m - v);
    AgreeParts(t, t', m, 0, v);
    assert t[0..v] == t[..v] && t'[0..v] == t'[..v];
  }

  lemma ExplicitFrontIsLocal(t: Text, t': Text, k: nat)
    requires t != [] && t' != [] && 1 <= k && k == 1 + PrefixLength(IsDoubleChar, t[1..])
    requires Agree(t, t', k) && Alike(t[k..], t'[k..])
    ensures 1 + PrefixLength(IsDoubleChar, t'[1..]) == k && t[1..k] == t'[1..k]
  {
    hide PrefixLength, Agree;
    AgreeBounds(t, t', k);
    AgreeParts(t, t', k, 1, k);
    assert t[1..][k - 1..] == t[k..] && t'[1..][k - 1..] == t'[k..];
    PrefixAlike(IsDoubleChar, t[1..], t'[1..], k - 1);
  }

  lemma KeywordAgrees(t: Text, t': Text, k: nat)
    requires 7 <= k && Agree(t, t', k) && Alike(t[k..], t'[k..])
    ensures t[..7] == t'[..7] && Agree(t[7..], t'[7..], k - 7) && Alike(t[7..][k - 7..], t'[7..][k - 7..])
  {
    hide Agree;
    AgreeBounds(t, t', k);
    AgreeParts(t, t', k, 7, 7);
    AgreeParts(t, t', k, 0, 7);
    assert t[0..7] == t[..7] && t'[0..7] == t'[..7];
    assert t[7..][k - 7..] == t[k..] && t'[7..][k - 7..] == t'[k..];
  }

  lemma SelectorFrontIsLocal(cx: Context, argType: ArgType, t: Text, t': Text, isEmpty: bool, doubles: nat)
    requires t != [] && t' != [] && SelectorFront(cx, argType, t, isEmpty, doubles).Front?
    requires var k := SelectorFront(cx, argType, t, isEmpty, doubles).length; Agree(t, t', k) && Alike(t[k..], t'[k..])
    ensures SelectorFront(cx, argType, t', isEmpty, doubles) == SelectorFront(cx, argType, t, isEmpty, doubles)
  {
    hide ParseDouble, PrefixLength, OffsetFront, Agree, Alike, HasPluralStyle;
    var k := SelectorFront(cx, argType, t, isEmpty, doubles).length;
    AgreeBounds(t, t', k);
    AgreeParts(t, t', k, 0, 0);
    if HasPluralStyle(argType) && t[0] == EQUAL {
      ExplicitFrontIsLocal(t, t', k);
    } else {
      var n := PrefixLength(cx.isIdentifierPart, t);
      WordFrontIsLocal(cx, argType, t, t', k, n);
      if HasPluralStyle(argType) && n == 6 && OFFSET_COLON <= t {
        KeywordAgrees(t, t', k);
        OffsetFrontIsLocal(cx, t[..7], t[7..], t'[7..], doubles);
      } else {
        AgreeParts(t, t', k, 0, n);
        assert t[0..n] == t[..n] && t'[0..n] == t'[..n];
      }
    }
  }

  /** The word ends at the same place, and is the offset keyword or not. */
  lemma WordFrontIsLocal(cx: Context, argType: ArgType, t: Text, t': Text, k: nat, n: nat)
    requires n == PrefixLength(cx.isIdentifierPart, t) && n <= k && Agree(t, t', k) && Alike(t[k..], t'[k..])
    requires n < k || n == k
    ensures PrefixLength(cx.isIdentifierPart, t') == n
    ensures n == 6 ==> (OFFSET_COLON <= t <==> OFFSET_COLON <= t')
  {
    if n < k {
      PrefixLocal(cx.isIdentifierPart, t, t', k);
    } else {
      PrefixAlike(cx.isIdentifierPart, t, t', n);
    }
    AgreeParts(t, t', k, 0, n);
    assert forall i :: 0 <= i < n ==> t[i] == t[..k][i] == t'[..k][i] == t'[i];
    if n == 6 {
      if n < k {
        AgreeParts(t, t', k, 6, 6);
      } else {
        assert |t| > 6 ==> t[6..][0] == t[6];
        assert |t'| > 6 ==> t'[6..][0] == t'[6];
      }
      OffsetKeyword(t);
      OffsetKeyword(t');
    }
  }

  lemma OffsetKeyword(t: Text)
    ensures OFFSET_COLON <= t <==> |t| >= 7 && forall i :: 0 <= i < 7 ==> t[i] == OFFSET_COLON[i]
  {
  }

  lemma OffsetFrontHasNoInserts(cx: Context, keyword: Text, t: Text, doubles: nat)
    requires OffsetFront(cx, keyword, t, doubles).Front?
    ensures NoInserts(OffsetFront(cx, keyword, t, doubles).events)
  {
    hide PrefixLength, NumberOf;
  }

  lemma SelectorFrontHasNoInserts(cx: Context, argType: ArgType, t: Text, isEmpty: bool, doubles: nat)
    requires t != [] && SelectorFront(cx, argType, t, isEmpty, doubles).Front?
    ensures NoInserts(SelectorFront(cx, argType, t, isEmpty, doubles).events)
  {
    hide PrefixLength, NumberOf, OffsetFront;
    if HasPluralStyle(argType) && t[0] == EQUAL {
    } else if HasPluralStyle(argType) && PrefixLength(cx.isIdentifierPart, t) == 6 && OFFSET_COLON <= t {
      OffsetFrontHasNoInserts(cx, t[..7], t[7..], doubles);
    }
  }

  lemma SelectorFrontFacts(cx: Context, argType: ArgType, t: Text, isEmpty: bool, doubles: nat)
    requires t != [] && SelectorFront(cx, argType, t, isEmpty, doubles).Front?
    ensures var f := SelectorFront(cx, argType, t, isEmpty, doubles); NoInserts(f.events) && TextOf(f.events) == t[..f.length]
  {
    hide *;
    var f := SelectorFront(cx, argType, t, isEmpty, doubles);
    SelectorFrontIsSound(cx, argType, t, isEmpty, doubles);
    SoundText(t, f.events, f.length);
    SelectorFrontHasNoInserts(cx, argType, t, isEmpty, doubles);
  }

  lemma {:induction false} PluralStyleRequotes(cx: Context, argType: ArgType, s: Text, level: nat, isEmpty: bool, hasOther: bool, doubles: nat, rest': Text)
    requires var r := ParsePluralOrSelectStyle(cx, argType, s, level, isEmpty, hasOther, doubles); r.Ok? && Alike(r.rest, rest')
    ensures var r := ParsePluralOrSelectStyle(cx, argType, s, level, isEmpty, hasOther, doubles);
            var s' := AgainText(r, rest');
            Alike(s, s') && ParsePluralOrSelectStyle(cx, argType, s', level, isEmpty, hasOther, doubles) == Again(r, rest')
    decreases |s|, 8
  {
    hide ParseSelector, PrefixLength, TextOf, AllRequoted;
    var w := PrefixLength(cx.isWhiteSpace, s);
    var t := s[w..];
    if t == [] || t[0] == RIGHT_CURLY {
      RequotedSame([Plain(s[..w])]);
      TextOfOne(Plain(s[..w]));
      WhiteAgain(cx.isWhiteSpace, s, w, rest');
    } else {
      hide Again, AgainText;
      var p := ParseSelector(cx, argType, t, level, isEmpty, hasOther, doubles);
      SelectorRequotes(cx, argType, t, level, isEmpty, hasOther, doubles, rest');
      AgainOne(Plain(s[..w]), p, rest');
      WhiteAgain(cx.isWhiteSpace, s, w, AgainText(p, rest'));
    }
  }

  lemma {:induction false} SelectorRequotes(cx: Context, argType: ArgType, t: Text, level: nat, isEmpty: bool, hasOther: bool, doubles: nat, rest': Text)
    requires t != []
    requires var r := ParseSelector(cx, argType, t, level, isEmpty, hasOther, doubles); r.Ok? && Alike(r.rest, rest')
    ensures var r := ParseSelector(cx, argType, t, level, isEmpty, hasOther, doubles);
            var t' := AgainText(r, rest');
            t' != [] && Alike(t, t') && ParseSelector(cx, argType, t', level, isEmpty, hasOther, doubles) == Again(r, rest')
    decreases |t|, 7
  {
    hide SelectorFront, ParseSelected, ParsePluralOrSelectStyle, Again, AgainText, TextOf, AllRequoted;
    var f := SelectorFront(cx, argType, t, isEmpty, doubles);
    SelectorFrontFacts(cx, argType, t, isEmpty, doubles);
    var u := t[f.length..];
    var p;
    if f.isOffset {
      p := ParsePluralOrSelectStyle(cx, argType, u, level, false, hasOther, f.doubles);
      PluralStyleRequotes(cx, argType, u, level, false, hasOther, f.doubles, rest');
    } else {
      p := ParseSelected(cx, argType, u, level, hasOther || f.isOther, f.doubles);
      SelectedRequotes(cx, argType, u, level, hasOther || f.isOther, f.doubles, rest');
    }
    var x := AgainText(p, rest');
    AgainSame(f.events, p, rest');
    JoinAgrees(t, f.length, x);
    var t' := t[..f.length] + x;
    assert t'[0] == t[0];
    SelectorFrontIsLocal(cx, argType, t, t', isEmpty, doubles);
  }

  lemma {:induction false} SelectedRequotes(cx: Context, argType: ArgType, s: Text, level: nat, hasOther: bool, doubles: nat, rest': Text)
    requires var r := ParseSelected(cx, argType, s, level, hasOther, doubles); r.Ok? && Alike(r.rest, rest')
    ensures var r := ParseSelected(cx, argType, s, level, hasOther, doubles);
            var s' := AgainText(r, rest');
            Alike(s, s') && ParseSelected(cx, argType, s', level, hasOther, doubles) == Again(r, rest')
    decreases |s|, 6
  {
    hide ParseMessage, ParsePluralOrSelectStyle, Again, AgainText, TextOf, AllRequoted, PrefixLength;
    var w := PrefixLength(cx.isWhiteSpace, s);
    var message := ParseMessage(cx, s[w..], 1, level + 1, argType, doubles);
    var p := ParsePluralOrSelectStyle(cx, argType, message.rest, level, false, hasOther, message.doubles);
    PluralStyleRequotes(cx, argType, message.rest, level, false, hasOther, message.doubles, rest');
    var x := AgainText(p, rest');
    MessageRequotes(cx, s[w..], 1, level + 1, argType, doubles, x);
    var y := AgainText(message, x);
    AgreeParts(s[w..], y, 1, 0, 0);
    FrontAndMessage([Plain(s[..w])], message, p, rest');
    TextOfOne(Plain(s[..w]));
    WhiteAgain(cx.isWhiteSpace, s, w, y);
    AgainFacts(message, x);
  }
}
