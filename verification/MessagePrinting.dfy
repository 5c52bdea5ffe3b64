/** Every pattern of the syntax, once written, is parsed to events that the tree determines. */
module MessagePrinting {
  import opened Basics
  import opened MessageGrammar
  import opened MessageEvents
  import opened MessageSyntax
  import opened MessageNumerals

  // ---------- the events of a tree ----------

  function QuotedEvents(text: Text): seq<Event> {
    if text == [] then []
    else [if text[0] == APOS then DOUBLE_APOS else Plain([text[0]])] + QuotedEvents(text[1..])
  }

  /** A message with its limit. */
  function ContentEvents(m: Message, level: nat, reals: nat, limit: Event): seq<Event>
    decreases m, 0
  {
    match m
    case Done => [limit]
    case OpenQuote(text) => [QUOTE] + (QuotedEvents(text) + [MISSING_APOS, limit])
    case Next(item, rest) =>
      ItemEvents(item, level, reals) + ContentEvents(rest, level, reals + ItemReals(item), limit)
  }

  function WholeEvents(m: Message, level: nat, reals: nat, opening: Text, limit: Event): seq<Event>
    decreases m, 1
  {
    var content := ContentEvents(m, level, reals, limit);
    [Event(opening, 0, Some(Mark(MSG_START, |opening|, level, PartCount(content))))] + content
  }

  function ItemEvents(i: Item, level: nat, reals: nat): seq<Event>
    decreases i, 0
  {
    match i
    case Char(c) => [Plain([c])]
    case ApostrophePair => [DOUBLE_APOS]
    case Quoted(text) => [QUOTE] + (QuotedEvents(text) + [QUOTE])
    case LoneApostrophe => [LONE_APOS]
    case NumberSign => [NUMBER_SIGN]
    case Arg(white, id, white1, style) =>
      var header := [Plain(white)] + [IdEvent(id), Plain(white1)] + HeadEvents(style);
      ArgEvents(StyleType(style), if HasTail(style) then header + ([Plain([COMMA])] + TailEvents(style, level + 1, reals)) else header)
  }

  function IdEvent(id: ArgId): Event {
    match id
    case Numbered(n) => Marked(PrintId(id), ARG_NUMBER, |PrintId(id)|, n)
    case Named(name) => Marked(name, ARG_NAME, |name|, 0)
  }

  /** A style is a type name, and perhaps a tail after a second comma. */
  predicate HasTail(s: ArgStyle) {
    s.ChoiceStyle? || s.ComplexStyle? || (s.SimpleStyle? && s.text.Some?)
  }

  function TypeName(s: ArgStyle): Text
    requires !s.NoStyle?
  {
    if s.SimpleStyle? then s.name else s.word
  }

  function Head(s: ArgStyle): Text {
    if s.NoStyle? then [] else [COMMA] + (s.white + (TypeName(s) + s.white1))
  }

  function Tail(s: ArgStyle): Text
    requires HasTail(s)
  {
    match s
    case SimpleStyle(_, _, _, text) => PrintText(text.value)
    case ChoiceStyle(_, _, _, white2, choices) => white2 + PrintChoices(choices)
    case ComplexStyle(_, _, _, _, offset, cases, white2) => PrintOffset(offset) + (PrintCases(cases) + white2)
  }

  function TypeEvents(s: ArgStyle): seq<Event>
    requires !s.NoStyle?
  {
    var name := TypeName(s);
    [Plain(s.white), if s.SimpleStyle? then Marked(name, ARG_TYPE, |name|, 0) else Plain(name), Plain(s.white1)]
  }

  function HeadEvents(s: ArgStyle): seq<Event> {
    if s.NoStyle? then [] else [Plain([COMMA])] + TypeEvents(s)
  }

  function TailEvents(s: ArgStyle, level: nat, reals: nat): seq<Event>
    requires HasTail(s)
    decreases s, 0
  {
    match s
    case SimpleStyle(_, _, _, text) =>
      var t := PrintText(text.value);
      [Marked(t, ARG_STYLE, |t|, 0)]
    case ChoiceStyle(_, _, _, white2, choices) => [Plain(white2)] + ChoicesEvents(choices, level, reals)
    case ComplexStyle(_, _, _, _, offset, cases, white2) =>
      OffsetEvents(offset, reals) + CasesEvents(cases, level, reals + OffsetReals(offset), white2)
  }

  function OffsetEvents(o: Option<Offset>, reals: nat): seq<Event> {
    match o
    case None => []
    case Some(Offset(white, white1, number)) =>
      [Plain(white)] + ([Plain(OFFSET_COLON)] + ([Plain(white1)] + [NumeralEvent(number, reals)]))
  }

  function ChoiceFrontEvents(c: Choices, reals: nat): seq<Event> {
    [NumeralEvent(c.number, reals)] + [Plain(c.white)] + [Marked([c.separator], ARG_SELECTOR, 1, 0)]
  }

  function ChoicesEvents(c: Choices, level: nat, reals: nat): seq<Event>
    decreases c, 0
  {
    var reals1 := reals + NumeralReals(c.number);
    var limit := LimitEvent([], if c.more.NoMoreChoices? then 0 else 1, level);
    (ChoiceFrontEvents(c, reals) + WholeEvents(c.message, level, reals1, [], limit)) +
    MoreEvents(c.more, level, reals1 + Reals(c.message))
  }

  function MoreEvents(m: MoreChoices, level: nat, reals: nat): seq<Event>
    decreases m, 0
  {
    match m
    case NoMoreChoices => []
    case OrChoices(white, choices) => [Plain([PIPE] + white)] + ChoicesEvents(choices, level, reals)
  }

  function SelectorEvents(s: Selector, reals: nat): seq<Event> {
    match s
    case Keyword(word) => [Marked(word, ARG_SELECTOR, |word|, 0)]
    case Explicit(number) => [Marked([EQUAL], ARG_SELECTOR, |PrintSelector(s)|, 0)] + [NumeralEvent(number, reals)]
  }

  /** Cases with the white space after them. */
  function CasesEvents(c: Cases, level: nat, reals: nat, white2: Text): seq<Event>
    decreases c, 0
  {
    match c
    case NoCases => [Plain(white2)]
    case Case(white, selector, white1, message, rest) =>
      var reals1 := reals + SelectorReals(selector);
      var whole := WholeEvents(message, level, reals1, [LEFT_CURLY], LimitEvent([RIGHT_CURLY], 1, level));
      [Plain(white)] + (SelectorEvents(selector, reals) +
      (([Plain(white1)] + whole) + CasesEvents(rest, level, reals1 + Reals(message), white2)))
  }

  // ---------- sequences ----------

  lemma Slice<T>(a: seq<T>, b: seq<T>)
    ensures (a + b)[..|a|] == a && (a + b)[|a|..] == b
  {
  }

  lemma Slice3<T>(a: seq<T>, b: seq<T>, c: seq<T>)
    ensures (a + (b + c))[..|a|] == a && (a + (b + c))[|a|..|a| + |b|] == b && (a + (b + c))[|a| + |b|..] == c
  {
  }

  // ---------- words between white space ----------

  lemma ContextFacts(cx: Context, c: int)
    requires IsPatternContext(cx)
    ensures cx.isWhiteSpace(c) ==> !cx.isIdentifierPart(c) && !IsDoubleChar(c) && !IsArgTypeChar(c)
    ensures IsArgTypeChar(c) || IsDigit(c) ==> cx.isIdentifierPart(c)
    ensures cx.isWhiteSpace(c) || cx.isIdentifierPart(c) ==>
              c !in [LEFT_CURLY, RIGHT_CURLY, COMMA, PIPE, POUND, LESS_THAN, LESS_OR_EQUAL, EQUAL, COLON]
  {
    NumberChars(c);
    assert Chars("{},'|#<=:\U{2264}") == [LEFT_CURLY, RIGHT_CURLY, COMMA, APOS, PIPE, POUND, LESS_THAN, EQUAL, COLON, LESS_OR_EQUAL];
    assert IsLetter(c) <==> IsArgTypeChar(c);
    assert IsDecimalDigit(c) <==> IsDigit(c);
  }

  /** A word ends where white space or the next syntax character starts. */
  lemma WordParses(white: int -> bool, part: int -> bool, w: Text, name: Text, w1: Text, t: Text)
    requires forall c :: white(c) ==> !part(c)
    requires (forall i :: 0 <= i < |w| ==> white(w[i])) && (forall i :: 0 <= i < |w1| ==> white(w1[i]))
    requires name != [] && forall i :: 0 <= i < |name| ==> part(name[i])
    requires t != [] && !white(t[0]) && !part(t[0])
    ensures WordAt(white, part, w + (name + (w1 + t))) == Word(|w|, |w| + |name|, |w| + |name| + |w1|)
  {
    hide PrefixLength;
    var s := w + (name + (w1 + t));
    assert part(name[0]) && (name + (w1 + t))[0] == name[0];
    AllPrefix(white, w, name + (w1 + t));
    assert s[|w|..] == name + (w1 + t);
    assert (w1 + t)[0] == if w1 == [] then t[0] else w1[0];
    AllPrefix(part, name, w1 + t);
    assert s[|w| + |name|..] == w1 + t;
    AllPrefix(white, w1, t);
  }

  // ---------- the start of an argument ----------

  lemma SpelledType(name: Text, word: string, small: Text)
    requires |small| == |word| && forall i :: 0 <= i < |word| ==> small[i] == word[i] as int && 0x61 <= small[i] <= 0x7A
    ensures Spells(name, word) <==> Lower(name) == small
    ensures Spells(name, word) ==> AreLetters(name) && |name| == |word|
  {
    if Spells(name, word) {
      assert Lower(name) == small;
    }
    if Lower(name) == small {
      assert forall i :: 0 <= i < |name| ==> Lower(name)[i] == small[i];
    }
  }

  /** A type name stands for a complex type exactly if it spells that type's word. */
  lemma TypeIsSpelled(name: Text)
    ensures TypeOf(name) == CHOICE <==> Spells(name, "choice")
    ensures TypeOf(name) == PLURAL <==> Spells(name, "plural")
    ensures TypeOf(name) == SELECT <==> Spells(name, "select")
    ensures TypeOf(name) == SELECTORDINAL <==> Spells(name, "selectordinal")
    ensures TypeOf(name) == SIMPLE || TypeOf(name) == CHOICE || TypeOf(name) == PLURAL || TypeOf(name) == SELECT || TypeOf(name) == SELECTORDINAL
    ensures TypeOf(name) != SIMPLE ==> AreLetters(name) && 0 < |name| <= 13
  {
    hide Spells, AreLetters;
    SpelledType(name, "choice", CHOICE_NAME);
    SpelledType(name, "plural", PLURAL_NAME);
    SpelledType(name, "select", SELECT_NAME);
    SpelledType(name, "selectordinal", SELECT_NAME + ORDINAL_NAME);
    assert CHOICE_NAME[0] == 0x63 && PLURAL_NAME[0] == 0x70 && SELECT_NAME[0] == 0x73;
  }

  /** After a type name: a second comma before a tail, or else the end of the argument. */
  predicate EndsHead(s: ArgStyle, t: Text) {
    t != [] && t[0] == if HasTail(s) then COMMA else RIGHT_CURLY
  }

  lemma HeadParses(cx: Context, s: ArgStyle, level: nat, t: Text)
    requires IsPatternContext(cx) && IsStyleForm(cx, s, level) && EndsHead(s, t)
    ensures ParseAfterName(cx, Head(s) + t) == Header(HeadEvents(s), StyleType(s), HasTail(s), |Head(s)|)
  {
    hide *;
    if s.NoStyle? {
      NoHeadParses(cx, t);
    } else {
      TypeParses(cx, s, level, t);
      HeadText(s, t);
      CommaParses(cx, s.white + (TypeName(s) + (s.white1 + t)));
    }
  }

  lemma NoHeadParses(cx: Context, t: Text)
    requires EndsHead(NoStyle, t)
    ensures ParseAfterName(cx, Head(NoStyle) + t) == Header(HeadEvents(NoStyle), StyleType(NoStyle), HasTail(NoStyle), |Head(NoStyle)|)
  {
    assert Head(NoStyle) + t == t;
  }

  lemma HeadText(s: ArgStyle, t: Text)
    requires !s.NoStyle?
    ensures Head(s) + t == [COMMA] + (s.white + (TypeName(s) + (s.white1 + t)))
    ensures |Head(s)| == 1 + |s.white| + |TypeName(s)| + |s.white1| && HeadEvents(s) == [Plain([COMMA])] + TypeEvents(s)
  {
    hide TypeName, TypeEvents;
    AfterFour([COMMA], s.white, TypeName(s), s.white1, t);
  }

  lemma AfterFour(a: Text, b: Text, c: Text, d: Text, t: Text)
    ensures (a + (b + (c + d))) + t == a + (b + (c + (d + t)))
  {
  }

  lemma CommaParses(cx: Context, u: Text)
    requires ParseType(cx, u).Header?
    ensures var h := ParseType(cx, u);
            ParseAfterName(cx, [COMMA] + u) == Header([Plain([COMMA])] + h.events, h.argType, h.hasStyle, 1 + h.length)
  {
    hide ParseType;
    assert ([COMMA] + u)[1..] == u;
  }

  lemma NameIsLetters(cx: Context, s: ArgStyle, level: nat)
    requires IsStyleForm(cx, s, level) && !s.NoStyle?
    ensures AreWhite(cx, s.white) && AreWhite(cx, s.white1)
    ensures var name := TypeName(s); AreLetters(name) && 0 < |name| <= MAX_LENGTH && TypeOf(name) == StyleType(s)
    ensures !s.SimpleStyle? ==> StyleType(s) != SIMPLE
  {
    hide AreWhite, AreLetters, TypeOf, Spells, IsText, AreChoices, AreCases, IsOffset;
    TypeIsSpelled(TypeName(s));
  }

  lemma TypeParses(cx: Context, s: ArgStyle, level: nat, t: Text)
    requires IsPatternContext(cx) && IsStyleForm(cx, s, level) && !s.NoStyle? && EndsHead(s, t)
    ensures var name := TypeName(s);
            ParseType(cx, s.white + (name + (s.white1 + t))) ==
            Header(TypeEvents(s), StyleType(s), HasTail(s), |s.white| + |name| + |s.white1|)
  {
    hide IsStyleForm, TypeOf, WordAt, TypeAt, TypeEvents, TypeName, IsPatternContext;
    var name := TypeName(s);
    NameIsLetters(cx, s, level);
    ContextFacts(cx, t[0]);
    forall c ensures cx.isWhiteSpace(c) ==> !IsArgTypeChar(c) {
      ContextFacts(cx, c);
    }
    WordParses(cx.isWhiteSpace, IsArgTypeChar, s.white, name, s.white1, t);
    var text := s.white + (name + (s.white1 + t));
    Slice3(s.white, name, s.white1 + t);
    assert text[|s.white| + |name|..|s.white| + |name| + |s.white1|] == s.white1;
    assert text[|s.white| + |name| + |s.white1|] == t[0];
    TypeAtIs(s, t[0]);
  }

  lemma TypeAtIs(s: ArgStyle, c: int)
    requires !s.NoStyle? && 0 < |TypeName(s)| <= MAX_LENGTH && TypeOf(TypeName(s)) == StyleType(s)
    requires c == if HasTail(s) then COMMA else RIGHT_CURLY
    requires !s.SimpleStyle? ==> StyleType(s) != SIMPLE
    ensures TypeAt(s.white, TypeName(s), s.white1, c) ==
            Header(TypeEvents(s), StyleType(s), HasTail(s), |s.white| + |TypeName(s)| + |s.white1|)
  {
    hide TypeOf;
  }

  lemma IdParses(cx: Context, id: ArgId, white1: Text)
    requires IsPatternContext(cx) && IsId(cx, id)
    ensures IsIdentifier(cx, PrintId(id))
    ensures NameEvents(PrintId(id), white1) == Header([IdEvent(id), Plain(white1)], NONE, false, |PrintId(id)| + |white1|)
  {
    match id
    case Numbered(n) =>
      NumberedIsRead(n);
      DecimalIsRead(n);
      forall i | 0 <= i < |Decimal(n)| ensures cx.isIdentifierPart(Decimal(n)[i]) {
        ContextFacts(cx, Decimal(n)[i]);
      }
    case Named(name) =>
      var i :| 0 <= i < |name| && !IsDecimalDigit(name[i]);
      assert !IsDigit(name[i]);
  }

  lemma HeaderParses(cx: Context, white: Text, id: ArgId, white1: Text, s: ArgStyle, level: nat, t: Text)
    requires IsPatternContext(cx) && AreWhite(cx, white) && IsId(cx, id) && AreWhite(cx, white1) && IsStyleForm(cx, s, level)
    requires EndsHead(s, t)
    ensures ParseHeader(cx, white + (PrintId(id) + (white1 + (Head(s) + t)))) ==
            Header([Plain(white)] + [IdEvent(id), Plain(white1)] + HeadEvents(s), StyleType(s), HasTail(s),
                   |white| + |PrintId(id)| + |white1| + |Head(s)|)
  {
    hide *;
    IdParses(cx, id, white1);
    HeadParses(cx, s, level, t);
    var name, next := PrintId(id), Head(s) + t;
    HeadStarts(s, t);
    NameIsFound(cx, white, name, white1, next);
    HeaderAtIs(white, NameEvents(name, white1), ParseAfterName(cx, next), |white| + |name| + |white1|);
  }

  lemma HeadStarts(s: ArgStyle, t: Text)
    requires EndsHead(s, t)
    ensures var next := Head(s) + t; next != [] && (next[0] == COMMA || next[0] == RIGHT_CURLY)
  {
  }

  lemma HeaderAtIs(white: Text, name: Header, more: Header, length: nat)
    requires name.Header? && more.Header?
    ensures HeaderAt(white, name, more, length) ==
            Header([Plain(white)] + name.events + more.events, more.argType, more.hasStyle, length + more.length)
  {
  }

  /** The name of an argument, and what follows it. */
  lemma NameIsFound(cx: Context, white: Text, name: Text, white1: Text, next: Text)
    requires IsPatternContext(cx) && AreWhite(cx, white) && IsIdentifier(cx, name) && AreWhite(cx, white1)
    requires next != [] && (next[0] == COMMA || next[0] == RIGHT_CURLY)
    ensures ParseHeader(cx, white + (name + (white1 + next))) ==
            HeaderAt(white, NameEvents(name, white1), ParseAfterName(cx, next), |white| + |name| + |white1|)
  {
    hide IsPatternContext, WordAt, NameEvents, ParseAfterName, HeaderAt;
    ContextFacts(cx, next[0]);
    forall c ensures cx.isWhiteSpace(c) ==> !cx.isIdentifierPart(c) {
      ContextFacts(cx, c);
    }
    WordParses(cx.isWhiteSpace, cx.isIdentifierPart, white, name, white1, next);
    var text := white + (name + (white1 + next));
    Slice3(white, name, white1 + next);
    Slice4(white, name, white1, next);
  }

  lemma Slice4<T>(a: seq<T>, b: seq<T>, c: seq<T>, d: seq<T>)
    ensures var s := a + (b + (c + d)); s[|a| + |b|..|a| + |b| + |c|] == c && s[|a| + |b| + |c|..] == d
  {
  }

  // ---------- simple styles ----------

  lemma {:induction false} TextParses(st: StyleText, t: Text, nested: nat)
    requires IsText(st)
    ensures SimpleStyleLength(PrintText(st) + t, nested, false) == Longer(|PrintText(st)|, SimpleStyleLength(t, nested, false))
    decreases st
  {
    hide SimpleStyleLength, Chars, Longer, IsText;
    SyntaxChars();
    TextIs(st);
    var x := SimpleStyleLength(t, nested, false);
    match st
    case EndOfText =>
      assert PrintText(st) + t == t;
      LongerTwice(0, 0, x);
    case StyleChar(c, rest) =>
      PlainStyleChar(c, PrintText(rest) + t, nested);
      TextParses(rest, t, nested);
      Assoc([c], PrintText(rest), t);
      LongerTwice(1, |PrintText(rest)|, x);
    case StyleQuote(text, rest) =>
      TextParses(rest, t, nested);
      QuoteThen(text, PrintText(rest), t, nested, x);
    case StyleBraces(inner, rest) =>
      TextParses(rest, t, nested);
      TextParses(inner, [RIGHT_CURLY] + (PrintText(rest) + t), nested + 1);
      BracesThen(PrintText(inner), PrintText(rest), t, nested, x);
  }

  lemma QuoteThen(text: Text, rest: Text, t: Text, nested: nat, x: Style)
    requires APOS !in text && SimpleStyleLength(rest + t, nested, false) == Longer(|rest|, x)
    ensures SimpleStyleLength(([APOS] + (text + ([APOS] + rest))) + t, nested, false) == Longer(1 + |text| + 1 + |rest|, x)
  {
    hide SimpleStyleLength, Longer;
    var u := rest + t;
    AfterFour([APOS], text, [APOS], rest, t);
    OpenStyle(APOS, text + ([APOS] + u), nested);
    QuoteParses(text, u, nested);
    LongerTwice(|text| + 1, |rest|, x);
    LongerTwice(1, |text| + 1 + |rest|, x);
  }

  lemma BracesThen(inner: Text, rest: Text, t: Text, nested: nat, x: Style)
    requires var u := [RIGHT_CURLY] + (rest + t);
             SimpleStyleLength(inner + u, nested + 1, false) == Longer(|inner|, SimpleStyleLength(u, nested + 1, false))
    requires SimpleStyleLength(rest + t, nested, false) == Longer(|rest|, x)
    ensures SimpleStyleLength(([LEFT_CURLY] + (inner + ([RIGHT_CURLY] + rest))) + t, nested, false) == Longer(1 + |inner| + 1 + |rest|, x)
  {
    hide SimpleStyleLength, Longer;
    var u := [RIGHT_CURLY] + (rest + t);
    AfterFour([LEFT_CURLY], inner, [RIGHT_CURLY], rest, t);
    OpenStyle(LEFT_CURLY, inner + u, nested);
    OpenStyle(RIGHT_CURLY, rest + t, nested + 1);
    LongerTwice(1, |rest|, x);
    LongerTwice(|inner|, 1 + |rest|, x);
    LongerTwice(1, |inner| + (1 + |rest|), x);
  }

  lemma TextIs(st: StyleText)
    requires IsText(st)
    ensures !st.EndOfText? ==> IsText(st.rest)
    ensures st.StyleChar? ==> st.c !in Chars("'{}")
    ensures st.StyleQuote? ==> APOS !in st.text
    ensures st.StyleBraces? ==> IsText(st.inner)
  {
    hide Chars;
  }

  lemma LongerTwice(a: nat, b: nat, r: Style)
    ensures Longer(0, r) == r && Longer(a, Longer(b, r)) == Longer(a + b, r)
  {
  }

  lemma OpenStyle(c: int, t: Text, nested: nat)
    ensures c == APOS ==> SimpleStyleLength([c] + t, nested, false) == Longer(1, SimpleStyleLength(t, nested, true))
    ensures c == LEFT_CURLY ==> SimpleStyleLength([c] + t, nested, false) == Longer(1, SimpleStyleLength(t, nested + 1, false))
    ensures c == RIGHT_CURLY && nested == 0 ==> SimpleStyleLength([c] + t, nested, false) == Style(0)
    ensures c == RIGHT_CURLY && nested > 0 ==>
              SimpleStyleLength([c] + t, nested, false) == Longer(1, SimpleStyleLength(t, nested - 1, false))
  {
    assert ([c] + t)[1..] == t;
  }

  lemma PlainStyleChar(c: int, t: Text, nested: nat)
    requires c !in Chars("'{}")
    ensures SimpleStyleLength([c] + t, nested, false) == Longer(1, SimpleStyleLength(t, nested, false))
  {
    assert Chars("'{}") == [APOS, LEFT_CURLY, RIGHT_CURLY];
    assert ([c] + t)[1..] == t;
  }

  lemma {:induction false} QuoteParses(text: Text, t: Text, nested: nat)
    requires APOS !in text
    ensures SimpleStyleLength(text + ([APOS] + t), nested, true) == Longer(|text| + 1, SimpleStyleLength(t, nested, false))
    decreases |text|
  {
    var s := text + ([APOS] + t);
    if text == [] {
      assert s == [APOS] + t && s[1..] == t;
    } else {
      QuoteParses(text[1..], t, nested);
      assert s[1..] == text[1..] + ([APOS] + t);
      assert s[0] == text[0] && text[0] in text;
    }
  }

  lemma SimpleTailParses(st: StyleText, after: Text, reals: nat)
    requires IsText(st) && |PrintText(st)| <= MAX_LENGTH && after != [] && after[0] == RIGHT_CURLY
    ensures var t := PrintText(st);
            ParseSimpleStyle(t + after, reals) == Ok([Marked(t, ARG_STYLE, |t|, 0)], after, reals)
  {
    hide PrintText, IsText;
    TextParses(st, after, 0);
    Slice(PrintText(st), after);
  }

  // ---------- messages ----------

  function First(s: Text): Text {
    if s == [] then [] else [s[0]]
  }

  /** Where a message of this level and parent type ends. */
  predicate IsEnd(level: nat, parent: ArgType, end: Text) {
    if level == 0 then parent == NONE && end == []
    else if parent == CHOICE then end == [RIGHT_CURLY] || end == [PIPE]
    else (parent == PLURAL || parent == SELECT || parent == SELECTORDINAL) && end == [RIGHT_CURLY]
  }

  function LimitFor(level: nat, parent: ArgType, end: Text): Event {
    if level == 0 then LimitEvent([], 0, 0)
    else if parent == CHOICE then LimitEvent([], if end == [PIPE] then 1 else 0, level)
    else LimitEvent([RIGHT_CURLY], 1, level)
  }

  function RestFor(level: nat, parent: ArgType, after: Text): Text
    requires IsEnd(level, parent, First(after))
  {
    if level == 0 || parent == CHOICE then after else after[1..]
  }

  lemma DoneParses(cx: Context, level: nat, parent: ArgType, after: Text, reals: nat)
    requires (level > 0 || cx.inMessage) && IsEnd(level, parent, First(after))
    ensures ParseContent(cx, after, level, parent, false, reals) ==
            Ok([LimitFor(level, parent, First(after))], RestFor(level, parent, after), reals)
  {
    if level > 0 {
      assert TokenAt(cx, after, level, parent, false) == LimitToken;
    }
  }

  lemma TokenParses(cx: Context, e: Event, t: Text, level: nat, parent: ArgType, quoted: bool, quoted': bool, reals: nat)
    requires level > 0 || cx.inMessage
    requires e.text + t != [] && TokenAt(cx, e.text + t, level, parent, quoted) == Token(e, quoted')
    ensures ParseContent(cx, e.text + t, level, parent, quoted, reals) ==
            Prepend([e], ParseContent(cx, t, level, parent, quoted', reals))
  {
    hide TokenAt;
    Slice(e.text, t);
  }

  lemma {:induction false} QuotedParses(cx: Context, text: Text, t: Text, level: nat, parent: ArgType, reals: nat)
    requires level > 0 || cx.inMessage
    ensures ParseContent(cx, Doubled(text) + t, level, parent, true, reals) ==
            Prepend(QuotedEvents(text), ParseContent(cx, t, level, parent, true, reals))
    decreases |text|
  {
    hide ParseContent, Chars, TokenAt;
    SyntaxChars();
    var after := ParseContent(cx, t, level, parent, true, reals);
    if text == [] {
      assert Doubled(text) + t == t;
      assert Prepend([], after) == after by {
        if after.Ok? {
          assert [] + after.events == after.events;
        }
      }
    } else {
      var e := if text[0] == APOS then DOUBLE_APOS else Plain([text[0]]);
      var u := Doubled(text[1..]) + t;
      Assoc(e.text, Doubled(text[1..]), t);
      QuotedToken(cx, text[0], u, level, parent);
      TokenParses(cx, e, u, level, parent, true, true, reals);
      QuotedParses(cx, text[1..], t, level, parent, reals);
      PrependTwice([e], QuotedEvents(text[1..]), after);
    }
  }

  lemma QuotedToken(cx: Context, c: int, u: Text, level: nat, parent: ArgType)
    ensures var e := if c == APOS then DOUBLE_APOS else Plain([c]);
            TokenAt(cx, e.text + u, level, parent, true) == Token(e, true)
  {
  }

  // ---------- items ----------

  lemma SmallItemParses(cx: Context, i: Item, level: nat, parent: ArgType, t: Text, reals: nat)
    requires (level > 0 || cx.inMessage) && IsItem(cx, i, level, parent, t) && !i.Arg? && !i.Quoted?
    ensures ParseContent(cx, PrintItem(i) + t, level, parent, false, reals) ==
            Prepend(ItemEvents(i, level, reals), ParseContent(cx, t, level, parent, false, reals))
  {
    hide ParseContent;
    SyntaxChars();
    assert Chars("'{") == [APOS, LEFT_CURLY] && Chars("{}") == [LEFT_CURLY, RIGHT_CURLY];
    var e := ItemEvents(i, level, reals)[0];
    assert TokenAt(cx, e.text + t, level, parent, false) == Token(e, false);
    TokenParses(cx, e, t, level, parent, false, false, reals);
  }

  lemma QuotableStarts(cx: Context, parent: ArgType, c: int)
    ensures IsQuotable(cx, parent, c) <==> c != APOS && StartsQuote(cx, parent, c)
  {
    assert Chars("{}") == [LEFT_CURLY, RIGHT_CURLY];
  }

  lemma OpenQuoteParses(cx: Context, text: Text, t: Text, level: nat, parent: ArgType, reals: nat)
    requires (level > 0 || cx.inMessage) && text != [] && IsQuotable(cx, parent, text[0])
    ensures ParseContent(cx, [APOS] + (Doubled(text) + t), level, parent, false, reals) ==
            Prepend([QUOTE] + QuotedEvents(text), ParseContent(cx, t, level, parent, true, reals))
  {
    hide ParseContent, QuotedEvents, IsQuotable;
    QuotableStarts(cx, parent, text[0]);
    var u := Doubled(text) + t;
    assert u[0] == text[0];
    assert TokenAt(cx, [APOS] + u, level, parent, false) == Token(QUOTE, true);
    TokenParses(cx, QUOTE, u, level, parent, false, true, reals);
    QuotedParses(cx, text, t, level, parent, reals);
    PrependTwice([QUOTE], QuotedEvents(text), ParseContent(cx, t, level, parent, true, reals));
  }

  lemma QuotedItemParses(cx: Context, text: Text, level: nat, parent: ArgType, t: Text, reals: nat)
    requires (level > 0 || cx.inMessage) && IsItem(cx, Quoted(text), level, parent, t)
    ensures ParseContent(cx, PrintItem(Quoted(text)) + t, level, parent, false, reals) ==
            Prepend(ItemEvents(Quoted(text), level, reals), ParseContent(cx, t, level, parent, false, reals))
  {
    hide ParseContent, QuotedEvents, Doubled, Chars;
    SyntaxChars();
    var u := [APOS] + t;
    var next := ParseContent(cx, t, level, parent, false, reals);
    assert PrintItem(Quoted(text)) + t == [APOS] + (Doubled(text) + u);
    OpenQuoteParses(cx, text, u, level, parent, reals);
    assert TokenAt(cx, u, level, parent, true) == Token(QUOTE, false);
    TokenParses(cx, QUOTE, t, level, parent, true, false, reals);
    PrependTwice([QUOTE] + QuotedEvents(text), [QUOTE], next);
    Assoc([QUOTE], QuotedEvents(text), [QUOTE]);
  }

  /** An item depends on the next character only. */
  lemma ItemLooksAhead(cx: Context, i: Item, level: nat, parent: ArgType, a: Text, after: Text)
    requires IsItem(cx, i, level, parent, a + First(after))
    ensures IsItem(cx, i, level, parent, a + after)
  {
    hide IsQuotable, IsStyle, IsId, AreWhite, Chars;
    SyntaxChars();
    var x, y := a + First(after), a + after;
    assert (x == [] <==> y == []) && (x != [] ==> x[0] == y[0]);
  }

  // ---------- what comes before a message ----------

  lemma SeparatorIs(cx: Context, c: int)
    requires IsPatternContext(cx) && c in Chars("#<\U{2264}")
    ensures c == POUND || c == LESS_THAN || c == LESS_OR_EQUAL
    ensures !cx.isWhiteSpace(c) && !IsDoubleChar(c)
  {
    assert Chars("#<\U{2264}") == [POUND, LESS_THAN, LESS_OR_EQUAL];
    ContextFacts(cx, c);
  }

  /** A number ends where white space or other text starts. */
  lemma NumberEnds(cx: Context, n: Numeral, allowInfinity: bool, white: Text, t: Text)
    requires IsPatternContext(cx) && IsNumeral(cx, n, allowInfinity) && AreWhite(cx, white)
    requires t == [] || !IsDoubleChar(t[0])
    ensures PrintNumeral(n) != [] && PrefixLength(IsDoubleChar, PrintNumeral(n) + (white + t)) == |PrintNumeral(n)|
  {
    hide IsNumeral, PrintNumeral, PrefixLength, IsDoubleChar, IsPatternContext;
    NumeralChars(cx, n, allowInfinity);
    var next := white + t;
    if white != [] {
      ContextFacts(cx, white[0]);
      assert next[0] == white[0];
    } else {
      assert next == t;
    }
    AllPrefix(IsDoubleChar, PrintNumeral(n), next);
  }

  lemma ChoiceFrontParses(cx: Context, c: Choices, t: Text, reals: nat)
    requires IsPatternContext(cx) && IsNumeral(cx, c.number, true) && AreWhite(cx, c.white) && c.separator in Chars("#<\U{2264}")
    requires reals + NumeralReals(c.number) <= MAX_REALS
    ensures ChoiceFront(cx, PrintNumeral(c.number) + (c.white + ([c.separator] + t)), reals) ==
            Front(ChoiceFrontEvents(c, reals), |PrintNumeral(c.number)| + |c.white| + 1, reals + NumeralReals(c.number), false, false)
  {
    hide IsNumeral, PrintNumeral, PrefixLength, IsDoubleChar, IsPatternContext, ParseDouble, NumeralEvent, Chars;
    SeparatorIs(cx, c.separator);
    var n, next := PrintNumeral(c.number), [c.separator] + t;
    NumberEnds(cx, c.number, true, c.white, next);
    assert |n| <= MAX_LENGTH by {
      ShortNumeral(cx, c.number, true);
    }
    var s := n + (c.white + next);
    Slice(n, c.white + next);
    NumeralParses(cx, c.number, true, reals);
    AllPrefix(cx.isWhiteSpace, c.white, next);
    Slice3(n, c.white, next);
    assert s[|n| + |c.white|] == c.separator;
  }

  lemma ShortNumeral(cx: Context, n: Numeral, allowInfinity: bool)
    requires IsNumeral(cx, n, allowInfinity)
    ensures |PrintNumeral(n)| <= MAX_LENGTH
  {
  }

  lemma OffsetParses(cx: Context, argType: ArgType, o: Offset, t: Text, reals: nat)
    requires IsPatternContext(cx) && IsPlural(argType) && IsOffset(cx, o, t)
    requires reals + NumeralReals(o.number) <= MAX_REALS
    ensures var s := OFFSET_COLON + (o.white1 + (PrintNumeral(o.number) + t));
            SelectorFront(cx, argType, s, true, reals) ==
            Front([Plain(OFFSET_COLON)] + ([Plain(o.white1)] + [NumeralEvent(o.number, reals)]),
                  7 + |o.white1| + |PrintNumeral(o.number)|, reals + NumeralReals(o.number), true, false)
  {
    hide IsOffset, PrefixLength, IsPatternContext, OffsetFront, PrintNumeral, NumeralEvent;
    var u := o.white1 + (PrintNumeral(o.number) + t);
    var s := OFFSET_COLON + u;
    assert s[0] == 0x6F && s[..7] == OFFSET_COLON && s[7..] == u;
    OffsetKeyword(cx, u);
    OffsetFrontParses(cx, o, t, reals);
  }

  lemma OffsetKeyword(cx: Context, u: Text)
    requires IsPatternContext(cx)
    ensures PrefixLength(cx.isIdentifierPart, OFFSET_COLON + u) == 6
  {
    hide IsPatternContext, PrefixLength;
    var word := OFFSET_COLON[..6];
    forall i | 0 <= i < 6 ensures cx.isIdentifierPart(word[i]) {
      ContextFacts(cx, word[i]);
    }
    ContextFacts(cx, COLON);
    AllPrefix(cx.isIdentifierPart, word, [COLON] + u);
    assert OFFSET_COLON + u == word + ([COLON] + u);
  }

  lemma OffsetFrontParses(cx: Context, o: Offset, t: Text, reals: nat)
    requires IsPatternContext(cx) && IsOffset(cx, o, t) && reals + NumeralReals(o.number) <= MAX_REALS
    ensures OffsetFront(cx, OFFSET_COLON, o.white1 + (PrintNumeral(o.number) + t), reals) ==
            Front([Plain(OFFSET_COLON)] + ([Plain(o.white1)] + [NumeralEvent(o.number, reals)]),
                  7 + |o.white1| + |PrintNumeral(o.number)|, reals + NumeralReals(o.number), true, false)
  {
    hide IsNumeral, PrintNumeral, PrefixLength, IsDoubleChar, IsPatternContext, ParseDouble, NumeralEvent, IsNumberChar;
    var n := PrintNumeral(o.number);
    if t != [] {
      NumberChars(t[0]);
    }
    NumberEnds(cx, o.number, false, [], t);
    assert [] + t == t;
    ShortNumeral(cx, o.number, false);
    NumeralParses(cx, o.number, false, reals);
    NumeralChars(cx, o.number, false);
    ContextFacts(cx, n[0]);
    AllPrefix(cx.isWhiteSpace, o.white1, n + t);
    Slice3(o.white1, n, t);
    Slice(o.white1, n + t);
  }

  lemma SelectorParses(cx: Context, argType: ArgType, sel: Selector, white1: Text, t: Text, isEmpty: bool, reals: nat)
    requires IsPatternContext(cx) && IsSelector(cx, sel, argType) && AreWhite(cx, white1)
    requires reals + SelectorReals(sel) <= MAX_REALS
    ensures PrintSelector(sel) != [] && !cx.isWhiteSpace(PrintSelector(sel)[0]) && PrintSelector(sel)[0] != RIGHT_CURLY
    ensures SelectorFront(cx, argType, PrintSelector(sel) + (white1 + ([LEFT_CURLY] + t)), isEmpty, reals) ==
            Front(SelectorEvents(sel, reals), |PrintSelector(sel)|, reals + SelectorReals(sel), false, sel == Keyword(Chars("other")))
  {
    match sel
    case Keyword(word) => KeywordParses(cx, argType, word, white1, t, isEmpty, reals);
    case Explicit(number) => ExplicitParses(cx, argType, number, white1, t, isEmpty, reals);
  }

  lemma KeywordParses(cx: Context, argType: ArgType, word: Text, white1: Text, t: Text, isEmpty: bool, reals: nat)
    requires IsPatternContext(cx) && IsIdentifier(cx, word) && |word| <= MAX_LENGTH && AreWhite(cx, white1)
    ensures !cx.isWhiteSpace(word[0]) && word[0] != RIGHT_CURLY
    ensures SelectorFront(cx, argType, word + (white1 + ([LEFT_CURLY] + t)), isEmpty, reals) ==
            Front([Marked(word, ARG_SELECTOR, |word|, 0)], |word|, reals, false, word == Chars("other"))
  {
    hide PrefixLength, IsPatternContext, OffsetFront, Chars;
    SyntaxWords();
    var next := white1 + ([LEFT_CURLY] + t);
    ContextFacts(cx, word[0]);
    ContextFacts(cx, next[0]);
    assert next[0] == if white1 == [] then LEFT_CURLY else white1[0];
    AllPrefix(cx.isIdentifierPart, word, next);
    Slice(word, next);
    var s := word + next;
    assert s[0] == word[0];
    if |word| == 6 {
      assert s[6] == next[0] && OFFSET_COLON[6] == COLON;
      assert !(OFFSET_COLON <= s);
    }
  }

  lemma ExplicitParses(cx: Context, argType: ArgType, number: Numeral, white1: Text, t: Text, isEmpty: bool, reals: nat)
    requires IsPatternContext(cx) && IsSelector(cx, Explicit(number), argType) && AreWhite(cx, white1)
    requires reals + NumeralReals(number) <= MAX_REALS
    ensures var s := PrintSelector(Explicit(number));
            && s != [] && s[0] == EQUAL && !cx.isWhiteSpace(EQUAL)
            && SelectorFront(cx, argType, s + (white1 + ([LEFT_CURLY] + t)), isEmpty, reals) ==
               Front(SelectorEvents(Explicit(number), reals), |s|, reals + NumeralReals(number), false, false)
  {
    hide IsNumeral, PrintNumeral, PrefixLength, IsPatternContext, ParseDouble, NumeralEvent, Chars, OffsetFront;
    SyntaxChars();
    ContextFacts(cx, EQUAL);
    var n, next := PrintNumeral(number), white1 + ([LEFT_CURLY] + t);
    var s := ([EQUAL] + n) + next;
    NumberEnds(cx, number, false, white1, [LEFT_CURLY] + t);
    NumeralParses(cx, number, false, reals);
    assert s[0] == EQUAL && s[1..] == n + next && s[1..1 + |n|] == n;
  }

  // ---------- whole trees ----------

  lemma {:induction false} ContentParses(cx: Context, m: Message, level: nat, parent: ArgType, after: Text, reals: nat)
    requires IsPatternContext(cx) && (level > 0 || cx.inMessage)
    requires IsEnd(level, parent, First(after)) && IsMessage(cx, m, level, parent, First(after))
    requires reals + Reals(m) <= MAX_REALS
    ensures ParseContent(cx, Print(m) + after, level, parent, false, reals) ==
            Ok(ContentEvents(m, level, reals, LimitFor(level, parent, First(after))), RestFor(level, parent, after), reals + Reals(m))
    decreases m, 0
  {
    hide ParseContent, IsItem, ItemEvents, IsQuotable, QuotedEvents, Doubled, PrintItem, ItemReals, LimitFor, RestFor, Chars;
    match m
    case Done =>
      assert Print(m) + after == after;
      DoneParses(cx, level, parent, after, reals);
    case OpenQuote(text) => OpenPatternParses(cx, text, parent, reals);
    case Next(item, rest) =>
      var t := Print(rest) + after;
      Assoc(PrintItem(item), Print(rest), after);
      ItemLooksAhead(cx, item, level, parent, Print(rest), after);
      ItemParses(cx, item, level, parent, t, reals);
      ContentParses(cx, rest, level, parent, after, reals + ItemReals(item));
  }

  lemma OpenPatternParses(cx: Context, text: Text, parent: ArgType, reals: nat)
    requires cx.inMessage && text != [] && IsQuotable(cx, parent, text[0]) && IsEnd(0, parent, [])
    ensures ParseContent(cx, Print(OpenQuote(text)) + [], 0, parent, false, reals) ==
            Ok(ContentEvents(OpenQuote(text), 0, reals, LimitFor(0, parent, [])), RestFor(0, parent, []), reals)
  {
    hide TokenAt, IsQuotable, QuotedEvents, Doubled, Chars;
    SyntaxChars();
    assert Print(OpenQuote(text)) + [] == [APOS] + (Doubled(text) + []);
    OpenQuoteParses(cx, text, [], 0, parent, reals);
    Assoc([QUOTE], QuotedEvents(text), [MISSING_APOS, LimitEvent([], 0, 0)]);
    assert [MISSING_APOS] + [LimitEvent([], 0, 0)] == [MISSING_APOS, LimitEvent([], 0, 0)];
  }

  lemma {:induction false} ItemParses(cx: Context, i: Item, level: nat, parent: ArgType, t: Text, reals: nat)
    requires IsPatternContext(cx) && (level > 0 || cx.inMessage) && IsItem(cx, i, level, parent, t)
    requires reals + ItemReals(i) <= MAX_REALS
    ensures ParseContent(cx, PrintItem(i) + t, level, parent, false, reals) ==
            Prepend(ItemEvents(i, level, reals), ParseContent(cx, t, level, parent, false, reals + ItemReals(i)))
    decreases i, 1
  {
    hide ParseContent, IsItem, ItemEvents, PrintItem, IsPatternContext;
    if i.Arg? {
      ArgParses(cx, i, level, parent, t, reals);
      ArgIsRead(cx, i, t, level, parent, reals);
    } else if i.Quoted? {
      QuotedItemParses(cx, i.text, level, parent, t, reals);
    } else {
      SmallItemParses(cx, i, level, parent, t, reals);
    }
  }

  /** An argument in a message. */
  lemma ArgIsRead(cx: Context, i: Item, t: Text, level: nat, parent: ArgType, reals: nat)
    requires (level > 0 || cx.inMessage) && i.Arg?
    requires var s := PrintItem(i) + t;
             s != [] && s[0] == LEFT_CURLY && ParseArg(cx, s, level, reals) == Ok(ItemEvents(i, level, reals), t, reals + ItemReals(i))
    ensures ParseContent(cx, PrintItem(i) + t, level, parent, false, reals) ==
            Prepend(ItemEvents(i, level, reals), ParseContent(cx, t, level, parent, false, reals + ItemReals(i)))
  {
    hide ParseArg, ItemEvents, PrintItem;
    assert TokenAt(cx, PrintItem(i) + t, level, parent, false) == ArgToken;
  }

  lemma ArgText(i: Item, t: Text)
    requires i.Arg?
    ensures var next := (if HasTail(i.style) then [COMMA] + Tail(i.style) else []) + ([RIGHT_CURLY] + t);
            && EndsHead(i.style, next)
            && PrintItem(i) + t == [LEFT_CURLY] + (i.white + (PrintId(i.id) + (i.white1 + (Head(i.style) + next))))
  {
    hide PrintId, PrintStyle, Head, Tail, Chars;
    SyntaxChars();
    var tail := if HasTail(i.style) then [COMMA] + Tail(i.style) else [];
    StyleIsText(i.style);
    InBraces(i.white, PrintId(i.id), i.white1, PrintStyle(i.style), t);
    Assoc(Head(i.style), tail, [RIGHT_CURLY] + t);
  }

  lemma InBraces(a: Text, b: Text, c: Text, d: Text, t: Text)
    ensures ([LEFT_CURLY] + (a + (b + (c + (d + [RIGHT_CURLY]))))) + t == [LEFT_CURLY] + (a + (b + (c + (d + ([RIGHT_CURLY] + t)))))
  {
  }

  lemma StyleIsText(s: ArgStyle)
    ensures PrintStyle(s) == Head(s) + if HasTail(s) then [COMMA] + Tail(s) else []
  {
    hide PrintText, PrintChoices, PrintOffset, PrintCases, Chars;
    SyntaxChars();
  }

  lemma {:induction false} ArgParses(cx: Context, i: Item, level: nat, parent: ArgType, t: Text, reals: nat)
    requires IsPatternContext(cx) && (level > 0 || cx.inMessage) && i.Arg? && IsItem(cx, i, level, parent, t)
    requires reals + ItemReals(i) <= MAX_REALS
    ensures var s := PrintItem(i) + t;
            s != [] && s[0] == LEFT_CURLY && ParseArg(cx, s, level, reals) == Ok(ItemEvents(i, level, reals), t, reals + ItemReals(i))
    decreases i, 0
  {
    hide ParseHeader, ParseStyle, PrintItem, IsStyleForm, IsPatternContext, PrintId, IsId, AreWhite, Head, Tail, HeadEvents, TailEvents, HasOther,
         IdEvent, StyleReals, StyleType, HasTail, EndsHead, ArgEvents;
    var style := i.style;
    var end := [RIGHT_CURLY] + t;
    var next := (if HasTail(style) then [COMMA] + Tail(style) else []) + end;
    ArgText(i, t);
    HeaderParses(cx, i.white, i.id, i.white1, style, level + 1, next);
    var s := PrintItem(i) + t;
    var front := i.white + (PrintId(i.id) + (i.white1 + Head(style)));
    assert s == [LEFT_CURLY] + (front + next) by {
      AfterFour(i.white, PrintId(i.id), i.white1, Head(style), next);
    }
    assert s[1..] == i.white + (PrintId(i.id) + (i.white1 + (Head(style) + next)));
    if HasTail(style) {
      AfterComma(front, Tail(style), end);
      TailParses(cx, style, level, end, reals);
      assert end[1..] == t;
    } else {
      NoTailNoReals(style);
      assert next == end;
      assert s[2 + |front|..] == t;
    }
  }

  lemma AfterComma(front: Text, tail: Text, end: Text)
    ensures ([LEFT_CURLY] + (front + (([COMMA] + tail) + end)))[2 + |front|..] == tail + end
  {
  }

  lemma NoTailNoReals(s: ArgStyle)
    requires !HasTail(s)
    ensures StyleReals(s) == 0
  {
  }

  lemma {:induction false} TailParses(cx: Context, s: ArgStyle, level: nat, end: Text, reals: nat)
    requires IsPatternContext(cx) && InMessageFormatPattern(cx, level) && HasTail(s) && IsStyle(cx, s, level + 1)
    requires end != [] && end[0] == RIGHT_CURLY && reals + StyleReals(s) <= MAX_REALS
    ensures ParseStyle(cx, StyleType(s), Tail(s) + end, level, reals) == Ok(TailEvents(s, level + 1, reals), end, reals + StyleReals(s))
    decreases s, 1
  {
    hide IsPatternContext, AreChoices, AreCases, IsOffset, IsText, PrintText, PrintChoices, PrintCases, PrintOffset, AreWhite,
         ParseSimpleStyle, ParseChoiceStyle, ParsePluralOrSelectStyle, CasesEvents, ChoicesEvents, OffsetEvents, Spells, AreLetters, HasOther;
    match s
    case SimpleStyle(_, _, _, text) => SimpleTailParses(text.value, end, reals);
    case ChoiceStyle(_, _, _, white2, choices) => ChoiceTailParses(cx, choices, white2, level, end, reals);
    case ComplexStyle(argType, _, _, _, offset, cases, white2) => ComplexTailParses(cx, s, level, end, reals);
  }

  lemma {:induction false} ChoiceTailParses(cx: Context, c: Choices, white: Text, level: nat, end: Text, reals: nat)
    requires IsPatternContext(cx) && InMessageFormatPattern(cx, level) && AreWhite(cx, white) && level < 32767 && AreChoices(cx, c, level + 1)
    requires end != [] && end[0] == RIGHT_CURLY && reals + ChoicesReals(c) <= MAX_REALS
    ensures ParseChoiceStyle(cx, (white + PrintChoices(c)) + end, level, reals) ==
            Ok([Plain(white)] + ChoicesEvents(c, level + 1, reals), end, reals + ChoicesReals(c))
    decreases c, 1
  {
    hide IsPatternContext, PrintChoices, AreChoices, ParseChoices, ChoicesEvents, PrefixLength, IsDoubleChar;
    var t := PrintChoices(c) + end;
    Assoc(white, PrintChoices(c), end);
    ChoicesStart(cx, c, level + 1, end);
    AllPrefix(cx.isWhiteSpace, white, t);
    Slice(white, t);
    ChoicesParse(cx, c, level, end, reals);
  }

  lemma ChoicesStart(cx: Context, c: Choices, level: nat, end: Text)
    requires IsPatternContext(cx) && AreChoices(cx, c, level)
    ensures var t := PrintChoices(c) + end; t != [] && !cx.isWhiteSpace(t[0]) && t[0] != RIGHT_CURLY
  {
    hide IsPatternContext, PrintNumeral, IsNumeral, IsMessage;
    NumeralChars(cx, c.number, true);
    var t := PrintChoices(c) + end;
    assert t[0] == PrintNumeral(c.number)[0];
    ContextFacts(cx, t[0]);
  }

  lemma {:induction false} ChoicesParse(cx: Context, c: Choices, level: nat, end: Text, reals: nat)
    requires IsPatternContext(cx) && InMessageFormatPattern(cx, level) && level < 32767 && AreChoices(cx, c, level + 1)
    requires end != [] && end[0] == RIGHT_CURLY && reals + ChoicesReals(c) <= MAX_REALS
    ensures ParseChoices(cx, PrintChoices(c) + end, level, reals) == Ok(ChoicesEvents(c, level + 1, reals), end, reals + ChoicesReals(c))
    decreases c, 0
  {
    hide *;
    var n := PrintNumeral(c.number);
    var next := PrintMore(c.more) + end;
    var t := Print(c.message) + next;
    var reals1 := reals + NumeralReals(c.number);
    ChoicesFacts(cx, c, level + 1);
    ChoicesText(c, end);
    ChoiceFrontParses(cx, c, t, reals);
    MoreStart(c.more, level + 1, end);
    WholeParses(cx, c.message, [], level + 1, CHOICE, next, reals1);
    assert [] + t == t;
    ChoiceMessageEnds(cx, level + 1, next);
    MoreParse(cx, c.more, level, end, reals1 + Reals(c.message));
    ChoicesAreRead(cx, PrintChoices(c) + end, |n| + |c.white| + 1, t, level, reals, next);
    ChoicesEventsAre(c, level + 1, reals);
  }

  lemma ChoicesFacts(cx: Context, c: Choices, level: nat)
    requires AreChoices(cx, c, level)
    ensures IsNumeral(cx, c.number, true) && AreWhite(cx, c.white) && c.separator in Chars("#<\U{2264}")
    ensures IsMessage(cx, c.message, level, CHOICE, if c.more.NoMoreChoices? then Chars("}") else Chars("|"))
    ensures c.more.OrChoices? ==> AreWhite(cx, c.more.white) && AreChoices(cx, c.more.choices, level)
    ensures ChoicesReals(c) == NumeralReals(c.number) + Reals(c.message) + if c.more.OrChoices? then ChoicesReals(c.more.choices) else 0
  {
    hide IsNumeral, AreWhite, IsMessage, Chars;
  }

  lemma ChoicesText(c: Choices, end: Text)
    ensures var n, t := PrintNumeral(c.number), Print(c.message) + (PrintMore(c.more) + end);
            && PrintChoices(c) + end == n + (c.white + ([c.separator] + t))
            && (n + (c.white + ([c.separator] + t)))[|n| + |c.white| + 1..] == t
  {
    hide PrintNumeral, Print, PrintMore;
    AfterFour(PrintNumeral(c.number), c.white, [c.separator], Print(c.message) + PrintMore(c.more), end);
    Assoc(Print(c.message), PrintMore(c.more), end);
  }

  lemma ChoiceMessageEnds(cx: Context, level: nat, next: Text)
    requires level > 0 && IsEnd(level, CHOICE, First(next))
    ensures RestFor(level, CHOICE, next) == next && IsAfterContent(cx, level, CHOICE, next)
  {
  }

  /** A front, a message and what follows them. */
  lemma ChoicesAreRead(cx: Context, s: Text, k: nat, t: Text, level: nat, reals: nat, next: Text)
    requires var f := ChoiceFront(cx, s, reals);
             f.Front? && f.length == k && s[k..] == t && IsAfterContent(cx, level + 1, CHOICE, next)
    requires var f := ChoiceFront(cx, s, reals);
             var m := ParseMessage(cx, t, 0, level + 1, CHOICE, f.doubles);
             m.Ok? && m.rest == next && ParseMoreChoices(cx, next, level, m.doubles).Ok?
    ensures var f := ChoiceFront(cx, s, reals);
            var m := ParseMessage(cx, t, 0, level + 1, CHOICE, f.doubles);
            var more := ParseMoreChoices(cx, next, level, m.doubles);
            ParseChoices(cx, s, level, reals) == Ok((f.events + m.events) + more.events, more.rest, more.doubles)
  {
    hide ChoiceFront, ParseMessage, ParseMoreChoices;
  }

  lemma ChoicesEventsAre(c: Choices, level: nat, reals: nat)
    requires level > 0
    ensures var reals1 := reals + NumeralReals(c.number);
            var limit := LimitFor(level, CHOICE, if c.more.NoMoreChoices? then [RIGHT_CURLY] else [PIPE]);
            ChoicesEvents(c, level, reals) ==
            (ChoiceFrontEvents(c, reals) + WholeEvents(c.message, level, reals1, [], limit)) +
            MoreEvents(c.more, level, reals1 + Reals(c.message))
  {
    hide ChoiceFrontEvents, WholeEvents, MoreEvents, Reals;
  }

  lemma MoreStart(m: MoreChoices, level: nat, end: Text)
    requires level > 0 && end != [] && end[0] == RIGHT_CURLY
    ensures var start := First(PrintMore(m) + end);
            && start == (if m.NoMoreChoices? then [RIGHT_CURLY] else [PIPE]) && IsEnd(level, CHOICE, start)
    ensures Chars("}") == [RIGHT_CURLY] && Chars("|") == [PIPE]
  {
    hide PrintChoices, Chars;
    SyntaxChars();
  }

  lemma {:induction false} MoreParse(cx: Context, m: MoreChoices, level: nat, end: Text, reals: nat)
    requires IsPatternContext(cx) && InMessageFormatPattern(cx, level) && level < 32767
    requires m.OrChoices? ==> AreWhite(cx, m.white) && AreChoices(cx, m.choices, level + 1)
    requires end != [] && end[0] == RIGHT_CURLY
    requires reals + (if m.OrChoices? then ChoicesReals(m.choices) else 0) <= MAX_REALS
    requires IsAfterContent(cx, level + 1, CHOICE, PrintMore(m) + end)
    ensures ParseMoreChoices(cx, PrintMore(m) + end, level, reals) ==
            Ok(MoreEvents(m, level + 1, reals), end, reals + if m.OrChoices? then ChoicesReals(m.choices) else 0)
    decreases m, 1
  {
    hide IsPatternContext, PrintChoices, AreChoices, ParseChoices, ChoicesEvents, PrefixLength, IsDoubleChar, Chars;
    SyntaxChars();
    match m
    case NoMoreChoices => assert PrintMore(m) + end == end;
    case OrChoices(white, choices) =>
      var t := PrintChoices(choices) + end;
      var s := PrintMore(m) + end;
      assert s == [PIPE] + (white + t);
      ChoicesStart(cx, choices, level + 1, end);
      AllPrefix(cx.isWhiteSpace, white, t);
      assert s[1..] == white + t && s[..1 + |white|] == [PIPE] + white && s[1 + |white|..] == t;
      ChoicesParse(cx, choices, level, end, reals);
  }

  lemma {:induction false} WholeParses(cx: Context, m: Message, opening: Text, level: nat, parent: ArgType, after: Text, reals: nat)
    requires IsPatternContext(cx) && (level > 0 || cx.inMessage) && level <= 32767
    requires IsEnd(level, parent, First(after)) && IsMessage(cx, m, level, parent, First(after))
    requires reals + Reals(m) <= MAX_REALS
    ensures ParseMessage(cx, opening + (Print(m) + after), |opening|, level, parent, reals) ==
            Ok(WholeEvents(m, level, reals, opening, LimitFor(level, parent, First(after))), RestFor(level, parent, after), reals + Reals(m))
    decreases m, 1
  {
    hide ParseContent, ContentEvents, Print, IsMessage, IsPatternContext;
    ContentParses(cx, m, level, parent, after, reals);
    Slice(opening, Print(m) + after);
  }

  lemma {:induction false} ComplexTailParses(cx: Context, s: ArgStyle, level: nat, end: Text, reals: nat)
    requires IsPatternContext(cx) && InMessageFormatPattern(cx, level) && s.ComplexStyle? && IsStyleForm(cx, s, level + 1)
    requires end != [] && end[0] == RIGHT_CURLY && reals + StyleReals(s) <= MAX_REALS
    ensures ParsePluralOrSelectStyle(cx, s.argType, Tail(s) + end, level, true, false, reals) ==
            if HasOther(s.cases) then Ok(TailEvents(s, level + 1, reals), end, reals + StyleReals(s)) else Err(DEFAULT_KEYWORD_MISSING)
    decreases s, 0
  {
    hide IsPatternContext, AreCases, IsOffset, PrintCases, AreWhite, ParsePluralOrSelectStyle, CasesEvents, Spells, HasOther, OffsetEvents,
         PrintOffset;
    var after := s.white2 + end;
    var t := PrintCases(s.cases) + after;
    var offset := PrintOffset(s.offset);
    assert Tail(s) + end == offset + t;
    if s.offset.None? {
      CasesParse(cx, s.argType, s.cases, s.white2, level, true, false, end, reals);
      NoOffset(reals);
      assert offset + t == t;
      assert [] + CasesEvents(s.cases, level + 1, reals, s.white2) == CasesEvents(s.cases, level + 1, reals, s.white2);
    } else {
      var o := s.offset.value;
      CasesParse(cx, s.argType, s.cases, s.white2, level, false, false, end, reals + NumeralReals(o.number));
      OffsetStart(cx, s.cases, o, s.white2, end);
      OffsetStyleParses(cx, s.argType, o, t, level, reals);
    }
  }

  lemma NoOffset(reals: nat)
    ensures PrintOffset(None) == [] && OffsetEvents(None, reals) == [] && OffsetReals(None) == 0
  {
  }

  lemma OffsetStart(cx: Context, c: Cases, o: Offset, white2: Text, end: Text)
    requires IsPatternContext(cx) && IsOffset(cx, o, PrintCases(c)) && AreWhite(cx, white2) && end != [] && end[0] == RIGHT_CURLY
    ensures IsOffset(cx, o, PrintCases(c) + (white2 + end))
  {
    hide IsPatternContext, PrintCases, IsNumeral;
    var t := PrintCases(c) + (white2 + end);
    if PrintCases(c) != [] {
      assert t[0] == PrintCases(c)[0];
    } else if white2 != [] {
      assert t[0] == white2[0];
      ContextFacts(cx, t[0]);
    }
    NumberChars(t[0]);
  }

  lemma OffsetStyleParses(cx: Context, argType: ArgType, o: Offset, t: Text, level: nat, reals: nat)
    requires IsPatternContext(cx) && IsPlural(argType) && IsOffset(cx, o, t) && InMessageFormatPattern(cx, level)
    requires reals + NumeralReals(o.number) <= MAX_REALS
    ensures ParsePluralOrSelectStyle(cx, argType, PrintOffset(Some(o)) + t, level, true, false, reals) ==
            Prepend(OffsetEvents(Some(o), reals),
                    ParsePluralOrSelectStyle(cx, argType, t, level, false, false, reals + NumeralReals(o.number)))
  {
    hide IsPatternContext, IsNumeral, PrintNumeral, PrefixLength, SelectorFront, NumeralEvent, Chars, OFFSET_COLON;
    SyntaxWords();
    OffsetChar(cx);
    var n := PrintNumeral(o.number);
    var u := OFFSET_COLON + (o.white1 + (n + t));
    var s := PrintOffset(Some(o)) + t;
    assert s == o.white + u;
    AllPrefix(cx.isWhiteSpace, o.white, u);
    Slice(o.white, u);
    OffsetParses(cx, argType, o, t, reals);
    assert u[7 + |o.white1| + |n|..] == t;
    PrependTwice([Plain(o.white)], [Plain(OFFSET_COLON)] + ([Plain(o.white1)] + [NumeralEvent(o.number, reals)]),
                 ParsePluralOrSelectStyle(cx, argType, t, level, false, false, reals + NumeralReals(o.number)));
  }

  lemma OffsetChar(cx: Context)
    requires IsPatternContext(cx)
    ensures |OFFSET_COLON| == 7 && OFFSET_COLON[0] != RIGHT_CURLY && !cx.isWhiteSpace(OFFSET_COLON[0])
  {
    hide IsPatternContext;
    ContextFacts(cx, 0x6F);
  }

  lemma {:induction false} CasesParse(cx: Context, argType: ArgType, c: Cases, white2: Text, level: nat, isEmpty: bool, hasOther: bool, end: Text,
                                      reals: nat)
    requires IsPatternContext(cx) && InMessageFormatPattern(cx, level) && (c.Case? ==> level < 32767)
    requires argType == PLURAL || argType == SELECT || argType == SELECTORDINAL
    requires AreCases(cx, c, level + 1, argType) && AreWhite(cx, white2)
    requires end != [] && end[0] == RIGHT_CURLY && reals + CasesReals(c) <= MAX_REALS
    ensures ParsePluralOrSelectStyle(cx, argType, PrintCases(c) + (white2 + end), level, isEmpty, hasOther, reals) ==
            if hasOther || HasOther(c) then Ok(CasesEvents(c, level + 1, reals, white2), end, reals + CasesReals(c))
            else Err(DEFAULT_KEYWORD_MISSING)
    decreases c, 0
  {
    hide *;
    var after := white2 + end;
    if c.NoCases? {
      NoCasesAre(level + 1, reals, white2);
      assert [] + after == after;
      CasesEnd(cx, argType, white2, level, isEmpty, hasOther, end, reals);
    } else {
      var next := PrintCases(c.rest) + after;
      var reals1 := reals + SelectorReals(c.selector);
      var whole := WholeEvents(c.message, level + 1, reals1, [LEFT_CURLY], LimitEvent([RIGHT_CURLY], 1, level + 1));
      CaseFacts(cx, c, level + 1, argType);
      MessageInBraces(level + 1, argType, next);
      WholeParses(cx, c.message, [LEFT_CURLY], level + 1, argType, [RIGHT_CURLY] + next, reals1);
      CaseParses(cx, argType, c, next, level, isEmpty, hasOther, reals, whole, reals1 + Reals(c.message));
      CaseText(c, after);
      var other := hasOther || c.selector == Keyword(Chars("other"));
      CasesParse(cx, argType, c.rest, white2, level, false, other, end, reals1 + Reals(c.message));
      CaseIsFirst(c, level + 1, reals, white2, end,
                  ParsePluralOrSelectStyle(cx, argType, next, level, false, other, reals1 + Reals(c.message)));
    }
  }

  lemma CaseFacts(cx: Context, c: Cases, level: nat, argType: ArgType)
    requires c.Case? && AreCases(cx, c, level, argType)
    ensures AreWhite(cx, c.white) && IsSelector(cx, c.selector, argType) && AreWhite(cx, c.white1)
    ensures Chars("}") == [RIGHT_CURLY] && IsMessage(cx, c.message, level, argType, [RIGHT_CURLY]) && AreCases(cx, c.rest, level, argType)
    ensures HasOther(c) <==> c.selector == Keyword(Chars("other")) || HasOther(c.rest)
    ensures CasesReals(c) == SelectorReals(c.selector) + Reals(c.message) + CasesReals(c.rest)
  {
    hide AreWhite, IsSelector, IsMessage, Chars;
    SyntaxChars();
  }

  lemma NoCasesAre(level: nat, reals: nat, white2: Text)
    ensures PrintCases(NoCases) == [] && CasesReals(NoCases) == 0 && !HasOther(NoCases)
    ensures CasesEvents(NoCases, level, reals, white2) == [Plain(white2)]
  {
  }

  lemma CaseIsFirst(c: Cases, level: nat, reals: nat, white2: Text, end: Text, p: Parsed)
    requires c.Case?
    requires var reals2 := reals + SelectorReals(c.selector) + Reals(c.message);
             p.Ok? ==> p == Ok(CasesEvents(c.rest, level, reals2, white2), end, reals2 + CasesReals(c.rest))
    ensures var whole := WholeEvents(c.message, level, reals + SelectorReals(c.selector), [LEFT_CURLY], LimitEvent([RIGHT_CURLY], 1, level));
            Prepend([Plain(c.white)], Prepend(SelectorEvents(c.selector, reals), Prepend([Plain(c.white1)] + whole, p))) ==
            if p.Ok? then Ok(CasesEvents(c, level, reals, white2), end, reals + CasesReals(c)) else p
  {
    hide SelectorEvents, WholeEvents, SelectorReals, Reals;
  }

  lemma MessageInBraces(level: nat, argType: ArgType, next: Text)
    requires level > 0 && (argType == PLURAL || argType == SELECT || argType == SELECTORDINAL)
    ensures var after := [RIGHT_CURLY] + next;
            && First(after) == [RIGHT_CURLY] && IsEnd(level, argType, First(after)) && RestFor(level, argType, after) == next
            && LimitFor(level, argType, First(after)) == LimitEvent([RIGHT_CURLY], 1, level)
  {
  }

  lemma CaseText(c: Cases, after: Text)
    requires c.Case?
    ensures PrintCases(c) + after ==
            c.white + (PrintSelector(c.selector) + (c.white1 + ([LEFT_CURLY] + (Print(c.message) + ([RIGHT_CURLY] + (PrintCases(c.rest) + after))))))
  {
    hide Print, PrintSelector, Chars;
    SyntaxChars();
  }

  lemma CaseParses(cx: Context, argType: ArgType, c: Cases, next: Text, level: nat, isEmpty: bool, hasOther: bool, reals: nat,
                   whole: seq<Event>, reals2: nat)
    requires IsPatternContext(cx) && InMessageFormatPattern(cx, level)
    requires c.Case? && AreWhite(cx, c.white) && IsSelector(cx, c.selector, argType) && AreWhite(cx, c.white1)
    requires reals + SelectorReals(c.selector) <= MAX_REALS
    requires ParseMessage(cx, [LEFT_CURLY] + (Print(c.message) + ([RIGHT_CURLY] + next)), 1, level + 1, argType,
                          reals + SelectorReals(c.selector)) == Ok(whole, next, reals2)
    ensures var t := [LEFT_CURLY] + (Print(c.message) + ([RIGHT_CURLY] + next));
            ParsePluralOrSelectStyle(cx, argType, c.white + (PrintSelector(c.selector) + (c.white1 + t)), level, isEmpty, hasOther, reals) ==
            Prepend([Plain(c.white)], Prepend(SelectorEvents(c.selector, reals), Prepend([Plain(c.white1)] + whole,
              ParsePluralOrSelectStyle(cx, argType, next, level, false, hasOther || c.selector == Keyword(Chars("other")), reals2))))
  {
    hide IsPatternContext, PrintSelector, IsSelector, Print, PrefixLength, SelectorFront, SelectorEvents, ParseMessage, Chars, ParseSelected;
    var t := [LEFT_CURLY] + (Print(c.message) + ([RIGHT_CURLY] + next));
    var sel := PrintSelector(c.selector);
    var u := sel + (c.white1 + t);
    SelectorParses(cx, argType, c.selector, c.white1, Print(c.message) + ([RIGHT_CURLY] + next), isEmpty, reals);
    assert u[0] == sel[0];
    AllPrefix(cx.isWhiteSpace, c.white, u);
    Slice(c.white, u);
    Slice(sel, c.white1 + t);
    var other := hasOther || c.selector == Keyword(Chars("other"));
    SelectedParses(cx, argType, c.white1, t, level, other, reals + SelectorReals(c.selector), whole, next, reals2);
  }

  lemma SelectedParses(cx: Context, argType: ArgType, white1: Text, t: Text, level: nat, hasOther: bool, reals: nat,
                       whole: seq<Event>, next: Text, reals2: nat)
    requires IsPatternContext(cx) && InMessageFormatPattern(cx, level) && AreWhite(cx, white1) && t != [] && t[0] == LEFT_CURLY
    requires ParseMessage(cx, t, 1, level + 1, argType, reals) == Ok(whole, next, reals2)
    ensures ParseSelected(cx, argType, white1 + t, level, hasOther, reals) ==
            Prepend([Plain(white1)] + whole, ParsePluralOrSelectStyle(cx, argType, next, level, false, hasOther, reals2))
  {
    hide IsPatternContext, PrefixLength, ParseMessage, ParsePluralOrSelectStyle;
    ContextFacts(cx, LEFT_CURLY);
    AllPrefix(cx.isWhiteSpace, white1, t);
    Slice(white1, t);
  }

  lemma CasesEnd(cx: Context, argType: ArgType, white2: Text, level: nat, isEmpty: bool, hasOther: bool, end: Text, reals: nat)
    requires IsPatternContext(cx) && InMessageFormatPattern(cx, level) && AreWhite(cx, white2)
    requires end != [] && end[0] == RIGHT_CURLY
    ensures ParsePluralOrSelectStyle(cx, argType, white2 + end, level, isEmpty, hasOther, reals) ==
            if hasOther then Ok([Plain(white2)], end, reals) else Err(DEFAULT_KEYWORD_MISSING)
  {
    hide IsPatternContext, PrefixLength, ParseSelector;
    ContextFacts(cx, RIGHT_CURLY);
    AllPrefix(cx.isWhiteSpace, white2, end);
    Slice(white2, end);
  }
}
