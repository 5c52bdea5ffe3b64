/** The parts of a written pattern are those of its tree. */
module MessageTrees {
  import opened Basics
  import opened MessageGrammar
  import opened MessageEvents
  import opened MessageParts
  import opened MessageSyntax
  import opened MessageNumerals
  import opened MessagePrinting

  /** Events with this text and, from this index and part number on, these parts. */
  predicate Yields(events: seq<Event>, text: Text, index: int, first: int, parts: seq<Part>) {
    TextOf(events) == text && PartsOf(events, index, first) == parts && PartCount(events) == |parts|
  }

  lemma YieldsConcat(a: seq<Event>, at: Text, ap: seq<Part>, b: seq<Event>, bt: Text, bp: seq<Part>, index: int, first: int)
    requires Yields(a, at, index, first, ap) && Yields(b, bt, index + |at|, first + |ap|, bp)
    ensures Yields(a + b, at + bt, index, first, ap + bp)
  {
    TextOfConcat(a, b);
    PartsConcat(a, b, index, first);
    PartCountConcat(a, b);
  }

  lemma YieldsOne(e: Event, index: int, first: int)
    ensures Yields([e], e.text, index, first, PartOf(e, index, first))
  {
    TextOfOne(e);
    PartsOfOne(e, index, first);
  }

  lemma YieldsNothing(index: int, first: int)
    ensures Yields([], [], index, first, [])
  {
  }

  lemma YieldsPlain(text: Text, index: int, first: int)
    ensures Yields([Plain(text)], text, index, first, [])
  {
    YieldsOne(Plain(text), index, first);
  }

  lemma YieldsLeaf(text: Text, kind: PartType, length: nat, value: int, index: int, first: int)
    ensures Yields([Marked(text, kind, length, value)], text, index, first, [Leaf(kind, index, length, value)])
  {
    YieldsOne(Marked(text, kind, length, value), index, first);
  }

  /** Plain text first. */
  lemma PlainFirst(text: Text, b: seq<Event>, bt: Text, bp: seq<Part>, index: int, first: int)
    requires Yields(b, bt, index + |text|, first, bp)
    ensures Yields([Plain(text)] + b, text + bt, index, first, bp)
  {
    hide Yields;
    YieldsPlain(text, index, first);
    YieldsConcat([Plain(text)], text, [], b, bt, bp, index, first);
    assert [] + bp == bp;
  }

  /** One part first. */
  lemma OneFirst(e: Event, p: Part, b: seq<Event>, bt: Text, bp: seq<Part>, index: int, first: int)
    requires PartOf(e, index, first) == [p] && Yields(b, bt, index + |e.text|, first + 1, bp)
    ensures Yields([e] + b, e.text + bt, index, first, [p] + bp)
  {
    hide Yields, PartOf;
    YieldsOne(e, index, first);
    YieldsConcat([e], e.text, [p], b, bt, bp, index, first);
  }

  // ---------- messages ----------

  lemma {:induction false} QuotedYields(text: Text, index: int, first: int)
    ensures Yields(QuotedEvents(text), Doubled(text), index, first, QuotedParts(text, index))
    decreases |text|
  {
    hide Yields, Chars;
    SyntaxChars();
    if text == [] {
      YieldsNothing(index, first);
    } else if text[0] == APOS {
      QuotedYields(text[1..], index + 2, first + 1);
      OneFirst(DOUBLE_APOS, Leaf(SKIP_SYNTAX, index + 1, 1, 0), QuotedEvents(text[1..]), Doubled(text[1..]),
               QuotedParts(text[1..], index + 2), index, first);
    } else {
      QuotedYields(text[1..], index + 1, first);
      PlainFirst([text[0]], QuotedEvents(text[1..]), Doubled(text[1..]), QuotedParts(text[1..], index + 1), index, first);
    }
  }

  /** Quoted text between an apostrophe and some other event. */
  lemma QuoteYields(text: Text, e: Event, p: Part, b: seq<Event>, bt: Text, bp: seq<Part>, index: int, first: int)
    requires var n := |QuotedParts(text, index + 1)|;
             var end := index + 1 + |Doubled(text)|;
             PartOf(e, end, first + 1 + n) == [p] && Yields(b, bt, end + |e.text|, first + 2 + n, bp)
    ensures Yields([QUOTE] + (QuotedEvents(text) + ([e] + b)), [APOS] + (Doubled(text) + (e.text + bt)), index, first,
                   [Leaf(SKIP_SYNTAX, index, 1, 0)] + (QuotedParts(text, index + 1) + ([p] + bp)))
  {
    hide Yields, PartOf, QuotedEvents, Doubled, QuotedParts;
    var quoted := QuotedParts(text, index + 1);
    var end := index + 1 + |Doubled(text)|;
    QuotedYields(text, index + 1, first + 1);
    OneFirst(e, p, b, bt, bp, end, first + 1 + |quoted|);
    YieldsConcat(QuotedEvents(text), Doubled(text), quoted, [e] + b, e.text + bt, [p] + bp, index + 1, first + 1);
    QuoteIs(index, first);
    OneFirst(QUOTE, Leaf(SKIP_SYNTAX, index, 1, 0), QuotedEvents(text) + ([e] + b), Doubled(text) + (e.text + bt),
             quoted + ([p] + bp), index, first);
  }

  lemma QuoteIs(index: int, first: int)
    ensures PartOf(QUOTE, index, first) == [Leaf(SKIP_SYNTAX, index, 1, 0)]
    ensures PartOf(DOUBLE_APOS, index, first) == [Leaf(SKIP_SYNTAX, index + 1, 1, 0)]
    ensures PartOf(LONE_APOS, index, first) == [Leaf(INSERT_CHAR, index + 1, 0, APOS)]
    ensures PartOf(MISSING_APOS, index, first) == [Leaf(INSERT_CHAR, index, 0, APOS)]
    ensures PartOf(NUMBER_SIGN, index, first) == [Leaf(REPLACE_NUMBER, index, 1, 0)]
  {
  }

  lemma {:induction false} ContentYields(m: Message, level: nat, index: int, first: nat, reals: nat, text: Text, length: nat)
    ensures Yields(ContentEvents(m, level, reals, LimitEvent(text, length, level)), Print(m) + text, index, first,
                   ContentParts(m, level, index, first, reals) + [Leaf(MSG_LIMIT, index + |Print(m)|, length, level)])
    decreases m, 0
  {
    hide Yields, ItemEvents, ItemParts, PrintItem, Chars, PartOf, QuotedEvents, QuotedParts, Doubled;
    SyntaxChars();
    var limit := LimitEvent(text, length, level);
    var end := Leaf(MSG_LIMIT, index + |Print(m)|, length, level);
    match m
    case Done =>
      YieldsLeaf(text, MSG_LIMIT, length, level, index, first);
      assert [] + text == text && [] + [end] == [end];
    case OpenQuote(q) =>
      OpenYields(q, level, index, first, reals, text, length);
    case Next(item, rest) =>
      var parts := ItemParts(item, level, index, first, reals);
      ItemYields(item, level, index, first, reals);
      ContentYields(rest, level, index + |PrintItem(item)|, first + |parts|, reals + ItemReals(item), text, length);
      var more := ContentParts(rest, level, index + |PrintItem(item)|, first + |parts|, reals + ItemReals(item));
      YieldsConcat(ItemEvents(item, level, reals), PrintItem(item), parts,
                   ContentEvents(rest, level, reals + ItemReals(item), limit), Print(rest) + text, more + [end], index, first);
      Assoc(PrintItem(item), Print(rest), text);
      Assoc(parts, more, [end]);
  }

  lemma OpenYields(q: Text, level: nat, index: int, first: nat, reals: nat, text: Text, length: nat)
    ensures var m := OpenQuote(q);
            Yields(ContentEvents(m, level, reals, LimitEvent(text, length, level)), Print(m) + text, index, first,
                   ContentParts(m, level, index, first, reals) + [Leaf(MSG_LIMIT, index + |Print(m)|, length, level)])
  {
    hide Yields, Chars, PartOf, QuotedEvents, QuotedParts, Doubled;
    SyntaxChars();
    var m, limit := OpenQuote(q), LimitEvent(text, length, level);
    var n, end := |QuotedParts(q, index + 1)|, index + 1 + |Doubled(q)|;
    var p, last := Leaf(INSERT_CHAR, end, 0, APOS), Leaf(MSG_LIMIT, end, length, level);
    QuoteIs(end, first + 1 + n);
    YieldsLeaf(text, MSG_LIMIT, length, level, end, first + 2 + n);
    QuoteYields(q, MISSING_APOS, p, [limit], text, [last], index, first);
    assert [MISSING_APOS] + [limit] == [MISSING_APOS, limit];
    assert [APOS] + (Doubled(q) + ([] + text)) == Print(m) + text;
    assert [Leaf(SKIP_SYNTAX, index, 1, 0)] + (QuotedParts(q, index + 1) + ([p] + [last])) ==
           ContentParts(m, level, index, first, reals) + [last];
  }

  lemma {:induction false} WholeYields(m: Message, level: nat, index: int, first: nat, reals: nat, opening: Text, text: Text, length: nat)
    ensures Yields(WholeEvents(m, level, reals, opening, LimitEvent(text, length, level)), opening + (Print(m) + text), index, first,
                   WholeParts(m, level, index, first, reals, |opening|, length))
    decreases m, 1
  {
    hide ContentEvents, ContentParts, Print, PartsOf, PartCount, TextOf;
    ContentYields(m, level, index + |opening|, first + 1, reals, text, length);
    var content := ContentEvents(m, level, reals, LimitEvent(text, length, level));
    var parts := ContentParts(m, level, index + |opening|, first + 1, reals);
    var end := Leaf(MSG_LIMIT, index + |opening| + |Print(m)|, length, level);
    var e := Event(opening, 0, Some(Mark(MSG_START, |opening|, level, PartCount(content))));
    var p := Part(MSG_START, index, |opening|, level, first + 1 + |parts|);
    OneFirst(e, p, content, Print(m) + text, parts + [end], index, first);
    Assoc([p], parts, [end]);
  }

  // ---------- items ----------

  lemma {:induction false} ItemYields(i: Item, level: nat, index: int, first: nat, reals: nat)
    ensures Yields(ItemEvents(i, level, reals), PrintItem(i), index, first, ItemParts(i, level, index, first, reals))
    decreases i, 1
  {
    if i.Arg? {
      ArgYields(i, level, index, first, reals);
    } else {
      SmallItemYields(i, level, index, first, reals);
    }
  }

  lemma SmallItemYields(i: Item, level: nat, index: int, first: nat, reals: nat)
    requires !i.Arg?
    ensures Yields(ItemEvents(i, level, reals), PrintItem(i), index, first, ItemParts(i, level, index, first, reals))
  {
    hide Yields, Chars, PartOf, QuotedEvents, QuotedParts, Doubled;
    SyntaxChars();
    match i
    case Char(c) => YieldsPlain([c], index, first);
    case Quoted(q) =>
      var n, end := |QuotedParts(q, index + 1)|, index + 1 + |Doubled(q)|;
      var p := Leaf(SKIP_SYNTAX, end, 1, 0);
      QuoteIs(end, first + 1 + n);
      YieldsNothing(end + 1, first + 2 + n);
      QuoteYields(q, QUOTE, p, [], [], [], index, first);
      assert [QUOTE] + [] == [QUOTE] && [APOS] + [] == [APOS] && [p] + [] == [p];
      Assoc([Leaf(SKIP_SYNTAX, index, 1, 0)], QuotedParts(q, index + 1), [p]);
    case ApostrophePair =>
      QuoteIs(index, first);
      YieldsOne(DOUBLE_APOS, index, first);
    case LoneApostrophe =>
      QuoteIs(index, first);
      YieldsOne(LONE_APOS, index, first);
    case NumberSign =>
      QuoteIs(index, first);
      YieldsOne(NUMBER_SIGN, index, first);
  }

  lemma {:induction false} ArgYields(i: Item, level: nat, index: int, first: nat, reals: nat)
    requires i.Arg?
    ensures Yields(ItemEvents(i, level, reals), PrintItem(i), index, first, ItemParts(i, level, index, first, reals))
    decreases i, 0
  {
    hide Yields, Chars, PrintId, IdPart, IdEvent, StyleParts, PrintStyle, HeadEvents, TailEvents, HasTail, ArgEvents, TypeNumber, StyleType;
    SyntaxChars();
    var style := i.style;
    var start := index + 1 + |i.white|;
    var next := start + |PrintId(i.id)| + |i.white1|;
    var styleEvents := if HasTail(style) then HeadEvents(style) + ([Plain([COMMA])] + TailEvents(style, level + 1, reals)) else HeadEvents(style);
    var styleParts := StyleParts(style, level + 1, next, first + 2, reals);
    StyleYields(style, level + 1, next, first + 2, reals);
    PlainFirst(i.white1, styleEvents, PrintStyle(style), styleParts, next - |i.white1|, first + 2);
    IdYields(i.id, start, first + 1);
    YieldsConcat([IdEvent(i.id)], PrintId(i.id), [IdPart(i.id, start)], [Plain(i.white1)] + styleEvents, i.white1 + PrintStyle(style),
                 styleParts, start, first + 1);
    var inner := [Plain(i.white)] + ([IdEvent(i.id)] + ([Plain(i.white1)] + styleEvents));
    var innerParts := [IdPart(i.id, start)] + styleParts;
    var text := i.white + (PrintId(i.id) + (i.white1 + PrintStyle(style)));
    PlainFirst(i.white, [IdEvent(i.id)] + ([Plain(i.white1)] + styleEvents), PrintId(i.id) + (i.white1 + PrintStyle(style)),
               innerParts, index + 1, first + 1);
    InnerIs(i, level, reals);
    BracesYield(StyleType(style), inner, text, innerParts, index, first);
    assert PrintItem(i) == [LEFT_CURLY] + (text + [RIGHT_CURLY]);
    Assoc([Part(ARG_START, index, 1, TypeNumber(StyleType(style)), first + 1 + |innerParts|)], innerParts,
          [Leaf(ARG_LIMIT, index + 1 + |text|, 1, TypeNumber(StyleType(style)))]);
  }

  lemma InnerIs(i: Item, level: nat, reals: nat)
    requires i.Arg?
    ensures var style := i.style;
            var more := if HasTail(style) then HeadEvents(style) + ([Plain([COMMA])] + TailEvents(style, level + 1, reals)) else HeadEvents(style);
            ItemEvents(i, level, reals) ==
            ArgEvents(StyleType(style), [Plain(i.white)] + ([IdEvent(i.id)] + ([Plain(i.white1)] + more)))
  {
    hide HeadEvents, TailEvents, HasTail, IdEvent, ArgEvents, StyleType;
    var style := i.style;
    var front := [Plain(i.white)] + [IdEvent(i.id), Plain(i.white1)];
    assert front + HeadEvents(style) == [Plain(i.white)] + ([IdEvent(i.id)] + ([Plain(i.white1)] + HeadEvents(style)));
    if HasTail(style) {
      var tail := [Plain([COMMA])] + TailEvents(style, level + 1, reals);
      Assoc(front, HeadEvents(style), tail);
      assert front + (HeadEvents(style) + tail) == [Plain(i.white)] + ([IdEvent(i.id)] + ([Plain(i.white1)] + (HeadEvents(style) + tail)));
    }
  }

  lemma BracesYield(argType: ArgType, inner: seq<Event>, text: Text, parts: seq<Part>, index: int, first: nat)
    requires Yields(inner, text, index + 1, first + 1, parts)
    ensures Yields(ArgEvents(argType, inner), [LEFT_CURLY] + (text + [RIGHT_CURLY]), index, first,
                   [Part(ARG_START, index, 1, TypeNumber(argType), first + 1 + |parts|)] +
                   (parts + [Leaf(ARG_LIMIT, index + 1 + |text|, 1, TypeNumber(argType))]))
  {
    hide TextOf, PartsOf, PartCount;
    assert TypeValue(argType) == TypeNumber(argType);
    var value := TypeNumber(argType);
    var e := Event([LEFT_CURLY], 0, Some(Mark(ARG_START, 1, value, PartCount(inner) + 1)));
    var p, last := Part(ARG_START, index, 1, value, first + 1 + |parts|), Leaf(ARG_LIMIT, index + 1 + |text|, 1, value);
    var end := [Marked([RIGHT_CURLY], ARG_LIMIT, 1, value)];
    YieldsLeaf([RIGHT_CURLY], ARG_LIMIT, 1, value, index + 1 + |text|, first + 1 + |parts|);
    YieldsConcat(inner, text, parts, end, [RIGHT_CURLY], [last], index + 1, first + 1);
    OneFirst(e, p, inner + end, text + [RIGHT_CURLY], parts + [last], index, first);
    Assoc([e], inner, end);
  }

  lemma IdYields(id: ArgId, index: int, first: int)
    ensures Yields([IdEvent(id)], PrintId(id), index, first, [IdPart(id, index)])
  {
    YieldsOne(IdEvent(id), index, first);
  }

  // ---------- styles ----------

  function HeadParts(s: ArgStyle, index: int): seq<Part> {
    if s.SimpleStyle? then [Leaf(ARG_TYPE, index + 1 + |s.white|, |s.name|, 0)] else []
  }

  lemma HeadYields(s: ArgStyle, index: int, first: int)
    ensures Yields(HeadEvents(s), Head(s), index, first, HeadParts(s, index))
  {
    hide Yields;
    if s.NoStyle? {
      YieldsNothing(index, first);
    } else {
      var name := TypeName(s);
      var start := index + 1 + |s.white|;
      var e := if s.SimpleStyle? then Marked(name, ARG_TYPE, |name|, 0) else Plain(name);
      YieldsOne(e, start, first);
      YieldsPlain(s.white1, start + |name|, first + |HeadParts(s, index)|);
      YieldsConcat([e], name, HeadParts(s, index), [Plain(s.white1)], s.white1, [], start, first);
      assert HeadParts(s, index) + [] == HeadParts(s, index);
      PlainFirst(s.white, [e] + [Plain(s.white1)], name + s.white1, HeadParts(s, index), index + 1, first);
      PlainFirst([COMMA], [Plain(s.white)] + ([e] + [Plain(s.white1)]), s.white + (name + s.white1), HeadParts(s, index), index, first);
      assert [Plain(s.white)] + ([e] + [Plain(s.white1)]) == [Plain(s.white), e, Plain(s.white1)];
    }
  }

  function TailParts(s: ArgStyle, level: nat, index: int, first: nat, reals: nat): seq<Part>
    requires HasTail(s)
  {
    match s
    case SimpleStyle(_, _, _, text) => [Leaf(ARG_STYLE, index, |PrintText(text.value)|, 0)]
    case ChoiceStyle(_, _, _, white2, choices) => ChoicesParts(choices, level, index + |white2|, first, reals)
    case ComplexStyle(_, _, _, _, offset, cases, _) =>
      var parts := OffsetParts(offset, index, reals);
      parts + CasesParts(cases, level, index + |PrintOffset(offset)|, first + |parts|, reals + OffsetReals(offset))
  }

  lemma StylePartsAre(s: ArgStyle, level: nat, index: int, first: nat, reals: nat)
    ensures var head := HeadParts(s, index);
            StyleParts(s, level, index, first, reals) ==
            if HasTail(s) then head + TailParts(s, level, index + |Head(s)| + 1, first + |head|, reals) else head
  {
    hide ChoicesParts, CasesParts, OffsetParts, PrintOffset, PrintText;
    if HasTail(s) && !s.SimpleStyle? {
      var tail := TailParts(s, level, index + |Head(s)| + 1, first, reals);
      assert [] + tail == tail;
    }
  }

  lemma {:induction false} StyleYields(s: ArgStyle, level: nat, index: int, first: nat, reals: nat)
    ensures Yields(if HasTail(s) then HeadEvents(s) + ([Plain([COMMA])] + TailEvents(s, level, reals)) else HeadEvents(s),
                   PrintStyle(s), index, first, StyleParts(s, level, index, first, reals))
    decreases s, 2
  {
    hide Yields, HeadEvents, Head, HeadParts, TailEvents, Tail, TailParts, HasTail, StyleParts, PrintStyle;
    StylePartsAre(s, level, index, first, reals);
    StyleIsText(s);
    HeadYields(s, index, first);
    if HasTail(s) {
      var head := HeadParts(s, index);
      var start := index + |Head(s)|;
      var tail := TailParts(s, level, start + 1, first + |head|, reals);
      TailYields(s, level, start + 1, first + |head|, reals);
      PlainFirst([COMMA], TailEvents(s, level, reals), Tail(s), tail, start, first + |head|);
      YieldsConcat(HeadEvents(s), Head(s), head, [Plain([COMMA])] + TailEvents(s, level, reals), [COMMA] + Tail(s), tail, index, first);
    } else {
      assert Head(s) + [] == Head(s);
    }
  }

  lemma {:induction false} TailYields(s: ArgStyle, level: nat, index: int, first: nat, reals: nat)
    requires HasTail(s)
    ensures Yields(TailEvents(s, level, reals), Tail(s), index, first, TailParts(s, level, index, first, reals))
    decreases s, 1
  {
    hide Yields, ChoicesEvents, ChoicesParts, PrintChoices, CasesEvents, CasesParts, PrintCases, OffsetEvents, OffsetParts, PrintOffset, PrintText;
    match s
    case SimpleStyle(_, _, _, text) =>
      var t := PrintText(text.value);
      YieldsLeaf(t, ARG_STYLE, |t|, 0, index, first);
    case ChoiceStyle(_, _, _, white2, choices) =>
      ChoicesYield(choices, level, index + |white2|, first, reals);
      PlainFirst(white2, ChoicesEvents(choices, level, reals), PrintChoices(choices),
                 ChoicesParts(choices, level, index + |white2|, first, reals), index, first);
    case ComplexStyle(_, _, _, _, offset, cases, white2) =>
      var parts := OffsetParts(offset, index, reals);
      var start := index + |PrintOffset(offset)|;
      OffsetYields(offset, index, first, reals);
      CasesYield(cases, level, start, first + |parts|, reals + OffsetReals(offset), white2);
      YieldsConcat(OffsetEvents(offset, reals), PrintOffset(offset), parts,
                   CasesEvents(cases, level, reals + OffsetReals(offset), white2), PrintCases(cases) + white2,
                   CasesParts(cases, level, start, first + |parts|, reals + OffsetReals(offset)), index, first);
  }

  lemma NumeralYields(n: Numeral, index: int, first: int, reals: nat)
    ensures Yields([NumeralEvent(n, reals)], PrintNumeral(n), index, first, [NumeralPart(n, index, reals)])
  {
    hide PrintNumeral;
    YieldsOne(NumeralEvent(n, reals), index, first);
  }

  lemma OffsetYields(o: Option<Offset>, index: int, first: int, reals: nat)
    ensures Yields(OffsetEvents(o, reals), PrintOffset(o), index, first, OffsetParts(o, index, reals))
  {
    hide Yields, NumeralEvent, NumeralPart, PrintNumeral, Chars;
    SyntaxWords();
    if o.None? {
      YieldsNothing(index, first);
    } else {
      var Offset(white, white1, number) := o.value;
      var start := index + |white| + 7 + |white1|;
      var e, n, p := [NumeralEvent(number, reals)], PrintNumeral(number), [NumeralPart(number, start, reals)];
      NumeralYields(number, start, first, reals);
      PlainFirst(white1, e, n, p, start - |white1|, first);
      PlainFirst(OFFSET_COLON, [Plain(white1)] + e, white1 + n, p, index + |white|, first);
      PlainFirst(white, [Plain(OFFSET_COLON)] + ([Plain(white1)] + e), OFFSET_COLON + (white1 + n), p, index, first);
    }
  }

  lemma {:induction false} ChoicesYield(c: Choices, level: nat, index: int, first: nat, reals: nat)
    ensures Yields(ChoicesEvents(c, level, reals), PrintChoices(c), index, first, ChoicesParts(c, level, index, first, reals))
    decreases c, 0
  {
    hide Yields, WholeEvents, WholeParts, Print, PrintNumeral, NumeralPart, NumeralEvent, ChoiceFrontEvents, PrintMore, MoreEvents;
    var separator := index + |PrintNumeral(c.number)| + |c.white|;
    var reals1 := reals + NumeralReals(c.number);
    var length := if c.more.NoMoreChoices? then 0 else 1;
    var limit := LimitEvent([], length, level);
    var front := [NumeralPart(c.number, index, reals), Leaf(ARG_SELECTOR, separator, 1, 0)];
    var whole := WholeParts(c.message, level, separator + 1, first + 2, reals1, 0, length);
    var frontText := PrintNumeral(c.number) + (c.white + [c.separator]);
    FrontYields(c, index, first, reals);
    WholeYields(c.message, level, separator + 1, first + 2, reals1, [], [], length);
    assert [] + (Print(c.message) + []) == Print(c.message);
    YieldsConcat(ChoiceFrontEvents(c, reals), frontText, front, WholeEvents(c.message, level, reals1, [], limit), Print(c.message), whole,
                 index, first);
    var next := separator + 1 + |Print(c.message)|;
    var more := if c.more.NoMoreChoices? then [] else
                ChoicesParts(c.more.choices, level, next + 1 + |c.more.white|, first + |front + whole|, reals1 + Reals(c.message));
    MoreYield(c.more, level, next, first + |front + whole|, reals1 + Reals(c.message));
    YieldsConcat(ChoiceFrontEvents(c, reals) + WholeEvents(c.message, level, reals1, [], limit), frontText + Print(c.message), front + whole,
                 MoreEvents(c.more, level, reals1 + Reals(c.message)), PrintMore(c.more), more, index, first);
    ChoicesAreText(c);
    assert c.more.NoMoreChoices? ==> (front + whole) + more == front + whole;
  }

  lemma ChoicesAreText(c: Choices)
    ensures PrintChoices(c) == ((PrintNumeral(c.number) + (c.white + [c.separator])) + Print(c.message)) + PrintMore(c.more)
  {
    hide PrintNumeral, Print, PrintMore;
  }

  lemma FrontYields(c: Choices, index: int, first: int, reals: nat)
    ensures Yields(ChoiceFrontEvents(c, reals), PrintNumeral(c.number) + (c.white + [c.separator]), index, first,
                   [NumeralPart(c.number, index, reals), Leaf(ARG_SELECTOR, index + |PrintNumeral(c.number)| + |c.white|, 1, 0)])
  {
    hide Yields, NumeralEvent, NumeralPart, PrintNumeral;
    var n := PrintNumeral(c.number);
    var separator := index + |n| + |c.white|;
    var e := Marked([c.separator], ARG_SELECTOR, 1, 0);
    var p, q := NumeralPart(c.number, index, reals), Leaf(ARG_SELECTOR, separator, 1, 0);
    NumeralYields(c.number, index, first, reals);
    YieldsLeaf([c.separator], ARG_SELECTOR, 1, 0, separator, first + 1);
    PlainFirst(c.white, [e], [c.separator], [q], index + |n|, first + 1);
    YieldsConcat([NumeralEvent(c.number, reals)], n, [p], [Plain(c.white)] + [e], c.white + [c.separator], [q], index, first);
    Assoc([NumeralEvent(c.number, reals)], [Plain(c.white)], [e]);
    assert [p] + [q] == [p, q];
  }

  lemma {:induction false} MoreYield(m: MoreChoices, level: nat, index: int, first: nat, reals: nat)
    ensures Yields(MoreEvents(m, level, reals), PrintMore(m), index, first,
                   if m.NoMoreChoices? then [] else ChoicesParts(m.choices, level, index + 1 + |m.white|, first, reals))
    decreases m, 1
  {
    hide Yields, ChoicesEvents, PrintChoices, ChoicesParts, Chars;
    SyntaxChars();
    match m
    case NoMoreChoices => YieldsNothing(index, first);
    case OrChoices(white, choices) =>
      ChoicesYield(choices, level, index + 1 + |white|, first, reals);
      PlainFirst([PIPE] + white, ChoicesEvents(choices, level, reals), PrintChoices(choices),
                 ChoicesParts(choices, level, index + 1 + |white|, first, reals), index, first);
      Assoc([PIPE], white, PrintChoices(choices));
  }

  lemma SelectorYields(s: Selector, index: int, first: int, reals: nat)
    ensures Yields(SelectorEvents(s, reals), PrintSelector(s), index, first, SelectorParts(s, index, reals))
  {
    hide Yields, NumeralEvent, NumeralPart, PrintNumeral, Chars;
    SyntaxChars();
    match s
    case Keyword(word) => YieldsLeaf(word, ARG_SELECTOR, |word|, 0, index, first);
    case Explicit(number) =>
      var e := Marked([EQUAL], ARG_SELECTOR, |PrintSelector(s)|, 0);
      NumeralYields(number, index + 1, first + 1, reals);
      OneFirst(e, Leaf(ARG_SELECTOR, index, |PrintSelector(s)|, 0), [NumeralEvent(number, reals)], PrintNumeral(number),
               [NumeralPart(number, index + 1, reals)], index, first);
      assert SelectorParts(s, index, reals) ==
             [Leaf(ARG_SELECTOR, index, |PrintSelector(s)|, 0)] + [NumeralPart(number, index + 1, reals)];
  }

  lemma {:induction false} CasesYield(c: Cases, level: nat, index: int, first: nat, reals: nat, white2: Text)
    ensures Yields(CasesEvents(c, level, reals, white2), PrintCases(c) + white2, index, first, CasesParts(c, level, index, first, reals))
    decreases c, 0
  {
    hide Yields, WholeEvents, WholeParts, Print, SelectorEvents, SelectorParts, PrintSelector, Chars;
    match c
    case NoCases =>
      YieldsPlain(white2, index, first);
      assert [] + white2 == white2;
    case Case(white, selector, white1, message, rest) =>
      var start := index + |white|;
      var front := SelectorParts(selector, start, reals);
      var reals1 := reals + SelectorReals(selector);
      var open := start + |PrintSelector(selector)| + |white1|;
      var whole := WholeParts(message, level, open, first + |front|, reals1, 1, 1);
      var limit := LimitEvent([RIGHT_CURLY], 1, level);
      var wholeEvents := WholeEvents(message, level, reals1, [LEFT_CURLY], limit);
      var wholeText := [LEFT_CURLY] + (Print(message) + [RIGHT_CURLY]);
      var next := open + 1 + |Print(message)| + 1;
      var restEvents := CasesEvents(rest, level, reals1 + Reals(message), white2);
      var restParts := CasesParts(rest, level, next, first + |front + whole|, reals1 + Reals(message));
      SelectorYields(selector, start, first, reals);
      WholeYields(message, level, open, first + |front|, reals1, [LEFT_CURLY], [RIGHT_CURLY], 1);
      PlainFirst(white1, wholeEvents, wholeText, whole, open - |white1|, first + |front|);
      CasesYield(rest, level, next, first + |front + whole|, reals1 + Reals(message), white2);
      YieldsConcat([Plain(white1)] + wholeEvents, white1 + wholeText, whole, restEvents, PrintCases(rest) + white2, restParts,
                   open - |white1|, first + |front|);
      var tail := (white1 + wholeText) + (PrintCases(rest) + white2);
      YieldsConcat(SelectorEvents(selector, reals), PrintSelector(selector), front, ([Plain(white1)] + wholeEvents) + restEvents, tail,
                   whole + restParts, start, first);
      PlainFirst(white, SelectorEvents(selector, reals) + (([Plain(white1)] + wholeEvents) + restEvents), PrintSelector(selector) + tail,
                 front + (whole + restParts), index, first);
      CaseIsText(c, white2);
      Assoc(front, whole, restParts);
  }

  lemma CaseIsText(c: Cases, white2: Text)
    requires c.Case?
    ensures PrintCases(c) + white2 ==
            c.white + (PrintSelector(c.selector) +
            ((c.white1 + ([LEFT_CURLY] + (Print(c.message) + [RIGHT_CURLY]))) + (PrintCases(c.rest) + white2)))
  {
    hide PrintSelector, Print, Chars;
    SyntaxChars();
  }

  // ---------- patterns ----------

  /** Every pattern of the syntax parses, and its parts are the parts of its tree. */
  lemma PatternParses(cx: Context, m: Message)
    requires IsPatternContext(cx) && cx.inMessage && IsPattern(cx, m)
    ensures var r := ParsePattern(cx, Print(m)); r.Ok? && PartsOf(r.events, 0, 0) == PatternParts(m)
  {
    hide IsPatternContext, IsMessage, WholeEvents, WholeParts, Print, PartsOf, ParseMessage;
    WholeParses(cx, m, [], 0, NONE, [], 0);
    assert [] + (Print(m) + []) == Print(m);
    WholeYields(m, 0, 0, 0, 0, [], [], 0);
  }
}
