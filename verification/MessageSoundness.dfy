/** Every successful parse yields sound events, by induction over the grammar. */
module MessageSoundness {
  import opened MessageGrammar
  import opened MessageEvents

  /** Events that read the start of s up to position n, one text after the other. */
  lemma SplitText(s: Text, i: nat, j: nat)
    requires i <= j <= |s|
    ensures s[i..j] + s[j..] == s[i..] && s[..i] + s[i..] == s
  {
  }

  lemma PlainStep(s: Text, i: nat, j: nat, events: seq<Event>, rest: Text)
    requires i <= j <= |s| && IsSound(s[j..], events, rest)
    ensures IsSound(s[i..], [Plain(s[i..j])] + events, rest)
  {
    hide IsSound;
    SplitText(s, i, j);
    SoundPrepend(s[i..], Plain(s[i..j]), s[j..], events, rest);
  }

  lemma NumberIsSound(cx: Context, s: Text, allowInfinity: bool, doubles: nat, rest: Text)
    requires ParseDouble(cx, s, allowInfinity, doubles).Ok?
    ensures IsSound(s + rest, ParseDouble(cx, s, allowInfinity, doubles).events, rest)
  {
    hide IsSound;
    SoundOne(ParseDouble(cx, s, allowInfinity, doubles).events[0], rest);
  }

  lemma TypeIsSound(cx: Context, s: Text)
    requires ParseType(cx, s).Header?
    ensures var h := ParseType(cx, s); IsSound(s, h.events, s[h.length..])
  {
    hide IsSound, WordAt, TypeOf;
    var w := WordAt(cx.isWhiteSpace, IsArgTypeChar, s);
    var name := s[w.start..w.end];
    var event := if TypeOf(name) == SIMPLE then Marked(name, ARG_TYPE, |name|, 0) else Plain(name);
    BetweenWhiteSpace(s, w.start, event, w.end, w.next);
  }

  lemma BetweenWhiteSpace(s: Text, w0: nat, name: Event, n: nat, w1: nat)
    requires w0 <= n <= w1 <= |s| && name.text == s[w0..n] && IsSimple(name)
    ensures IsSound(s, [Plain(s[..w0]), name, Plain(s[n..w1])], s[w1..])
  {
    hide IsSound;
    SoundNothing(s[w1..]);
    PlainStep(s, n, w1, [], s[w1..]);
    SplitText(s, w0, n);
    SoundPrepend(s[w0..], name, s[n..], [Plain(s[n..w1])] + [], s[w1..]);
    PlainStep(s, 0, w0, [name] + ([Plain(s[n..w1])] + []), s[w1..]);
    assert s[0..] == s && s[0..w0] == s[..w0];
    assert [Plain(s[..w0])] + ([name] + ([Plain(s[n..w1])] + [])) == [Plain(s[..w0]), name, Plain(s[n..w1])];
  }

  lemma AfterNameIsSound(cx: Context, s: Text)
    requires ParseAfterName(cx, s).Header?
    ensures var h := ParseAfterName(cx, s); IsSound(s, h.events, s[h.length..])
  {
    hide IsSound;
    if s[0] == RIGHT_CURLY {
      SoundNothing(s);
      assert s[0..] == s;
    } else {
      var t := ParseType(cx, s[1..]);
      TypeIsSound(cx, s[1..]);
      SoundPrepend(s, Plain([COMMA]), s[1..], t.events, s[1..][t.length..]);
      assert s[1..][t.length..] == s[1 + t.length..];
    }
  }

  lemma NameIsSound(name: Text, white: Text, rest: Text)
    requires NameEvents(name, white).Header?
    ensures IsSound(name + (white + rest), NameEvents(name, white).events, rest)
  {
    hide IsSound;
    var events := NameEvents(name, white).events;
    SoundOne(events[1], rest);
    SoundPrepend(name + (white + rest), events[0], white + rest, [events[1]], rest);
    assert events == [events[0]] + [events[1]];
  }

  lemma HeaderIsSound(cx: Context, s: Text)
    requires ParseHeader(cx, s).Header?
    ensures var h := ParseHeader(cx, s); IsSound(s, h.events, s[h.length..])
  {
    hide IsSound, NameEvents, ParseAfterName, WordAt;
    var w := WordAt(cx.isWhiteSpace, cx.isIdentifierPart, s);
    var name := NameEvents(s[w.start..w.end], s[w.end..w.next]);
    var t := ParseAfterName(cx, s[w.next..]);
    AfterNameIsSound(cx, s[w.next..]);
    var rest := s[w.next..][t.length..];
    assert rest == s[w.next + t.length..];
    NameIsSound(s[w.start..w.end], s[w.end..w.next], s[w.next..]);
    SplitText(s, w.end, w.next);
    SplitText(s, w.start, w.end);
    SoundConcat(s[w.start..], name.events, s[w.next..], t.events, rest);
    SoundPrepend(s, Plain(s[..w.start]), s[w.start..], name.events + t.events, rest);
    Assoc([Plain(s[..w.start])], name.events, t.events);
  }

  lemma SimpleStyleIsSound(s: Text, doubles: nat)
    requires ParseSimpleStyle(s, doubles).Ok?
    ensures var r := ParseSimpleStyle(s, doubles); IsSound(s, r.events, r.rest)
  {
    hide IsSound;
    var r := ParseSimpleStyle(s, doubles);
    var n := SimpleStyleLength(s, 0, false).length;
    SplitText(s, n, n);
    SoundOne(r.events[0], r.rest);
  }

  lemma {:induction false} ContentIsSound(cx: Context, s: Text, level: nat, parent: ArgType, quoted: bool, doubles: nat)
    requires level > 0 || cx.inMessage
    requires ParseContent(cx, s, level, parent, quoted, doubles).Ok?
    ensures var r := ParseContent(cx, s, level, parent, quoted, doubles); IsSoundContent(s, level, r.events, r.rest)
    decreases |s|, 2
  {
    hide IsSoundContent, IsSound, ParseArg, TokenAt;
    if s == [] {
      SoundLimit([], 0, level, []);
      SoundNothing([]);
      SoundOne(MISSING_APOS, []);
      SoundContentPrepend([], if quoted then [MISSING_APOS] else [], [], level, [LimitEvent([], 0, level)], []);
    } else {
      match TokenAt(cx, s, level, parent, quoted)
      case Token(e, quoted') =>
        var t := s[|e.text|..];
        assert s == e.text + t;
        var r := ParseContent(cx, t, level, parent, quoted', doubles);
        ContentIsSound(cx, t, level, parent, quoted', doubles);
        TokenIsSimple(cx, s, level, parent, quoted);
        SoundOne(e, t);
        SoundContentPrepend(s, [e], t, level, r.events, r.rest);
      case ArgToken =>
        var a := ParseArg(cx, s, level, doubles);
        ArgIsSound(cx, s, level, doubles);
        var r := ParseContent(cx, a.rest, level, parent, false, a.doubles);
        ContentIsSound(cx, a.rest, level, parent, false, a.doubles);
        SoundContentPrepend(s, a.events, a.rest, level, r.events, r.rest);
      case LimitToken =>
        SoundLimit([], if s[0] == RIGHT_CURLY then 0 else 1, level, s);
        SoundLimit([s[0]], 1, level, s[1..]);
        assert [] + s == s && [s[0]] + s[1..] == s;
    }
  }

  lemma TokenIsSimple(cx: Context, s: Text, level: nat, parent: ArgType, quoted: bool)
    requires s != []
    ensures var t := TokenAt(cx, s, level, parent, quoted); t.Token? ==> IsSimple(t.event)
  {
  }

  lemma {:induction false} MessageIsSound(cx: Context, s: Text, startLength: nat, level: nat, parent: ArgType, doubles: nat)
    requires level > 0 || cx.inMessage
    requires startLength <= |s| && ParseMessage(cx, s, startLength, level, parent, doubles).Ok?
    ensures var r := ParseMessage(cx, s, startLength, level, parent, doubles); IsSound(s, r.events, r.rest)
    decreases |s|, 3
  {
    hide IsSound, IsSoundContent, ParseContent;
    var r := ParseContent(cx, s[startLength..], level, parent, false, doubles);
    ContentIsSound(cx, s[startLength..], level, parent, false, doubles);
    SoundMessage(s[..startLength], s[startLength..], level, r.events, r.rest);
    SplitText(s, startLength, startLength);
  }

  lemma {:induction false} ArgIsSound(cx: Context, s: Text, level: nat, doubles: nat)
    requires s != [] && s[0] == LEFT_CURLY && (level > 0 || cx.inMessage)
    requires ParseArg(cx, s, level, doubles).Ok?
    ensures var r := ParseArg(cx, s, level, doubles); IsSound(s, r.events, r.rest)
    decreases |s|, 0
  {
    hide IsSound, ParseHeader, ParseStyle;
    var h := ParseHeader(cx, s[1..]);
    HeaderIsSound(cx, s[1..]);
    var t := s[2 + h.length..];
    var c := s[1 + h.length];
    assert s[1..][h.length..] == [c] + t && s == [LEFT_CURLY] + s[1..];
    if !h.hasStyle {
      SoundArg(h.argType, s[1..], h.events, t);
    } else {
      var r := ParseStyle(cx, h.argType, t, level, doubles);
      StyleIsSound(cx, h.argType, t, level, doubles);
      SoundPrepend([c] + t, Plain([COMMA]), t, r.events, r.rest);
      SoundConcat(s[1..], h.events, [c] + t, [Plain([COMMA])] + r.events, r.rest);
      assert r.rest == [RIGHT_CURLY] + r.rest[1..];
      SoundArg(h.argType, s[1..], h.events + ([Plain([COMMA])] + r.events), r.rest[1..]);
    }
  }

  lemma {:induction false} StyleIsSound(cx: Context, argType: ArgType, s: Text, level: nat, doubles: nat)
    requires level > 0 || cx.inMessage
    requires ParseStyle(cx, argType, s, level, doubles).Ok?
    ensures var r := ParseStyle(cx, argType, s, level, doubles); IsSound(s, r.events, r.rest)
    decreases |s|, 9
  {
    hide IsSound, ParseChoiceStyle, ParseSimpleStyle, ParsePluralOrSelectStyle;
    if argType == CHOICE {
      ChoiceStyleIsSound(cx, s, level, doubles);
    } else if argType == NONE || argType == SIMPLE {
      SimpleStyleIsSound(s, doubles);
    } else {
      PluralStyleIsSound(cx, argType, s, level, true, false, doubles);
    }
  }

  lemma {:induction false} ChoiceStyleIsSound(cx: Context, s: Text, level: nat, doubles: nat)
    requires ParseChoiceStyle(cx, s, level, doubles).Ok?
    ensures var r := ParseChoiceStyle(cx, s, level, doubles); IsSound(s, r.events, r.rest)
    decreases |s|, 6
  {
    hide IsSound, ParseChoices, PrefixLength;
    var w := PrefixLength(cx.isWhiteSpace, s);
    var r := ParseChoices(cx, s[w..], level, doubles);
    ChoicesAreSound(cx, s[w..], level, doubles);
    AfterWhiteIsSound(s, w, r.events, r.rest);
  }

  lemma ChoiceFrontIsSound(cx: Context, s: Text, doubles: nat)
    requires ChoiceFront(cx, s, doubles).Front?
    ensures var f := ChoiceFront(cx, s, doubles); IsSound(s, f.events, s[f.length..])
  {
    hide IsSound, ParseDouble, PrefixLength;
    var n := PrefixLength(IsDoubleChar, s);
    var number := ParseDouble(cx, s[..n], true, doubles);
    var w := n + PrefixLength(cx.isWhiteSpace, s[n..]);
    NumberIsSound(cx, s[..n], true, doubles, s[n..]);
    SplitText(s, n, w);
    SoundOne(Plain(s[n..w]), s[w..]);
    SoundConcat(s, number.events, s[n..], [Plain(s[n..w])], s[w..]);
    SoundOne(Marked([s[w]], ARG_SELECTOR, 1, 0), s[w + 1..]);
    assert s[w..] == [s[w]] + s[w + 1..];
    SoundConcat(s, number.events + [Plain(s[n..w])], s[w..], [Marked([s[w]], ARG_SELECTOR, 1, 0)], s[w + 1..]);
  }

  lemma {:induction false} ChoicesAreSound(cx: Context, s: Text, level: nat, doubles: nat)
    requires ParseChoices(cx, s, level, doubles).Ok?
    ensures var r := ParseChoices(cx, s, level, doubles); IsSound(s, r.events, r.rest)
    decreases |s|, 5
  {
    hide IsSound, ParseMessage, ChoiceFront, ParseMoreChoices;
    var f := ChoiceFront(cx, s, doubles);
    ChoiceFrontIsSound(cx, s, doubles);
    var t := s[f.length..];
    var message := ParseMessage(cx, t, 0, level + 1, CHOICE, f.doubles);
    MessageIsSound(cx, t, 0, level + 1, CHOICE, f.doubles);
    SoundConcat(s, f.events, t, message.events, message.rest);
    var more := ParseMoreChoices(cx, message.rest, level, message.doubles);
    MoreChoicesAreSound(cx, message.rest, level, message.doubles);
    SoundConcat(s, f.events + message.events, message.rest, more.events, more.rest);
  }

  lemma {:induction false} MoreChoicesAreSound(cx: Context, s: Text, level: nat, doubles: nat)
    requires IsAfterContent(cx, level + 1, CHOICE, s) && ParseMoreChoices(cx, s, level, doubles).Ok?
    ensures var r := ParseMoreChoices(cx, s, level, doubles); IsSound(s, r.events, r.rest)
    decreases |s|, 6
  {
    hide IsSound, ParseChoices, PrefixLength;
    if s == [] || s[0] == RIGHT_CURLY {
      SoundNothing(s);
    } else {
      var w := 1 + PrefixLength(cx.isWhiteSpace, s[1..]);
      var r := ParseChoices(cx, s[w..], level, doubles);
      ChoicesAreSound(cx, s[w..], level, doubles);
      AfterWhiteIsSound(s, w, r.events, r.rest);
    }
  }

  lemma {:induction false} PluralStyleIsSound(cx: Context, argType: ArgType, s: Text, level: nat, isEmpty: bool, hasOther: bool, doubles: nat)
    requires ParsePluralOrSelectStyle(cx, argType, s, level, isEmpty, hasOther, doubles).Ok?
    ensures var r := ParsePluralOrSelectStyle(cx, argType, s, level, isEmpty, hasOther, doubles); IsSound(s, r.events, r.rest)
    decreases |s|, 8
  {
    hide IsSound, ParseSelector, PrefixLength;
    var w := PrefixLength(cx.isWhiteSpace, s);
    var t := s[w..];
    if t == [] || t[0] == RIGHT_CURLY {
      WhiteIsSound(s, w);
    } else {
      var r := ParseSelector(cx, argType, t, level, isEmpty, hasOther, doubles);
      SelectorIsSound(cx, argType, t, level, isEmpty, hasOther, doubles);
      AfterWhiteIsSound(s, w, r.events, r.rest);
    }
  }

  lemma WhiteIsSound(s: Text, w: nat)
    requires w <= |s|
    ensures IsSound(s, [Plain(s[..w])], s[w..])
  {
    hide IsSound;
    SplitText(s, w, w);
    SoundOne(Plain(s[..w]), s[w..]);
  }

  lemma AfterWhiteIsSound(s: Text, w: nat, events: seq<Event>, rest: Text)
    requires w <= |s| && IsSound(s[w..], events, rest)
    ensures IsSound(s, [Plain(s[..w])] + events, rest)
  {
    hide IsSound;
    SplitText(s, w, w);
    SoundPrepend(s, Plain(s[..w]), s[w..], events, rest);
  }

  lemma OffsetFrontIsSound(cx: Context, keyword: Text, t: Text, doubles: nat)
    requires OffsetFront(cx, keyword, t, doubles).Front?
    ensures var f := OffsetFront(cx, keyword, t, doubles);
            var s := keyword + t;
            IsSound(s, f.events, s[f.length..])
  {
    hide IsSound, ParseDouble, PrefixLength;
    var v := PrefixLength(cx.isWhiteSpace, t);
    var m := v + PrefixLength(IsDoubleChar, t[v..]);
    var number := ParseDouble(cx, t[v..m], false, doubles);
    NumberIsSound(cx, t[v..m], false, doubles, t[m..]);
    SplitText(t, v, m);
    SoundPrepend(t, Plain(t[..v]), t[v..], number.events, t[m..]);
    SoundPrepend(keyword + t, Plain(keyword), t, [Plain(t[..v])] + number.events, t[m..]);
    assert (keyword + t)[|keyword| + m..] == t[m..];
  }

  lemma SelectorFrontIsSound(cx: Context, argType: ArgType, t: Text, isEmpty: bool, doubles: nat)
    requires t != [] && SelectorFront(cx, argType, t, isEmpty, doubles).Front?
    ensures var f := SelectorFront(cx, argType, t, isEmpty, doubles); IsSound(t, f.events, t[f.length..])
  {
    hide IsSound, ParseDouble, PrefixLength, OffsetFront;
    if HasPluralStyle(argType) && t[0] == EQUAL {
      var n := 1 + PrefixLength(IsDoubleChar, t[1..]);
      var number := ParseDouble(cx, t[1..n], false, doubles);
      NumberIsSound(cx, t[1..n], false, doubles, t[n..]);
      SplitText(t, 1, n);
      assert t == [EQUAL] + t[1..];
      SoundPrepend(t, Marked([EQUAL], ARG_SELECTOR, n, 0), t[1..], number.events, t[n..]);
    } else {
      var n := PrefixLength(cx.isIdentifierPart, t);
      if HasPluralStyle(argType) && n == 6 && OFFSET_COLON <= t {
        OffsetFrontIsSound(cx, t[..7], t[7..], doubles);
        assert t[..7] + t[7..] == t;
      } else {
        SplitText(t, n, n);
        SoundOne(Marked(t[..n], ARG_SELECTOR, n, 0), t[n..]);
      }
    }
  }

  lemma {:induction false} SelectorIsSound(cx: Context, argType: ArgType, t: Text, level: nat, isEmpty: bool, hasOther: bool, doubles: nat)
    requires t != [] && ParseSelector(cx, argType, t, level, isEmpty, hasOther, doubles).Ok?
    ensures var r := ParseSelector(cx, argType, t, level, isEmpty, hasOther, doubles); IsSound(t, r.events, r.rest)
    decreases |t|, 7
  {
    hide IsSound, SelectorFront, ParseSelected, ParsePluralOrSelectStyle;
    var f := SelectorFront(cx, argType, t, isEmpty, doubles);
    SelectorFrontIsSound(cx, argType, t, isEmpty, doubles);
    var u := t[f.length..];
    if f.isOffset {
      var r := ParsePluralOrSelectStyle(cx, argType, u, level, false, hasOther, f.doubles);
      PluralStyleIsSound(cx, argType, u, level, false, hasOther, f.doubles);
      SoundConcat(t, f.events, u, r.events, r.rest);
    } else {
      var r := ParseSelected(cx, argType, u, level, hasOther || f.isOther, f.doubles);
      SelectedIsSound(cx, argType, u, level, hasOther || f.isOther, f.doubles);
      SoundConcat(t, f.events, u, r.events, r.rest);
    }
  }

  lemma {:induction false} SelectedIsSound(cx: Context, argType: ArgType, s: Text, level: nat, hasOther: bool, doubles: nat)
    requires ParseSelected(cx, argType, s, level, hasOther, doubles).Ok?
    ensures var r := ParseSelected(cx, argType, s, level, hasOther, doubles); IsSound(s, r.events, r.rest)
    decreases |s|, 6
  {
    hide IsSound, ParseMessage, ParsePluralOrSelectStyle, PrefixLength;
    var w := PrefixLength(cx.isWhiteSpace, s);
    var message := ParseMessage(cx, s[w..], 1, level + 1, argType, doubles);
    MessageIsSound(cx, s[w..], 1, level + 1, argType, doubles);
    var r := ParsePluralOrSelectStyle(cx, argType, message.rest, level, false, hasOther, message.doubles);
    PluralStyleIsSound(cx, argType, message.rest, level, false, hasOther, message.doubles);
    SoundConcat(s[w..], message.events, message.rest, r.events, r.rest);
    AfterWhiteIsSound(s, w, message.events + r.events, r.rest);
    Assoc([Plain(s[..w])], message.events, r.events);
  }
}
