/** Patterns in full: two with every part, and one whose text auto-quoting changes. */
module MessageExamples {
  import opened Basics
  import opened MessageGrammar
  import opened MessageParts
  import opened MessageSyntax
  import opened MessageNumerals
  import opened MessagePrinting
  import opened MessageTrees
  import MessageText
  import MessageApostrophes

  /** A numbered argument of a complex type whose only case is for "other". */
  function OtherOnly(argType: ArgType, n: nat, m: Message): Item {
    Arg([], Numbered(n), [], ComplexStyle(argType, [], Chars(WordOf(argType)), [], None, Case([], Keyword(Chars("other")), [], m, NoCases), []))
  }

  lemma OtherOnlyIsItem(cx: Context, argType: ArgType, n: nat, m: Message, level: nat, parent: ArgType, next: Text)
    requires IsPatternContext(cx) && (argType == PLURAL || argType == SELECT) && n < 10 && level < 32767
    requires IsMessage(cx, m, level + 1, argType, Chars("}")) && Reals(m) == 0
    ensures IsItem(cx, OtherOnly(argType, n, m), level, parent, next) && ItemReals(OtherOnly(argType, n, m)) == 0
  {
    hide IsMessage, Reals;
    var other := Chars("other");
    forall i | 0 <= i < |other| ensures cx.isIdentifierPart(other[i]) {
      assert IsLetter(other[i]);
    }
    var style := OtherOnly(argType, n, m).style;
    assert IsSelector(cx, Keyword(other), argType) && AreWhite(cx, []);
    assert AreCases(cx, NoCases, level + 1, argType) && AreCases(cx, style.cases, level + 1, argType);
    assert style.cases.selector == Keyword(Chars("other")) && HasOther(style.cases);
    assert CasesReals(NoCases) == 0 && CasesReals(style.cases) == 0;
    assert Spells(style.word, WordOf(argType));
    assert IsStyleForm(cx, style, level + 1);
  }

  lemma OtherOnlyText(argType: ArgType, n: nat, m: Message)
    requires n < 10
    ensures PrintItem(OtherOnly(argType, n, m)) ==
            Chars("{") + ([0x30 + n] + (Chars(",") + (Chars(WordOf(argType)) +
            (Chars(",") + (Chars("other") + (Chars("{") + (Print(m) + Chars("}}"))))))))
  {
    hide Print, WordOf, Chars;
    BothBraces();
    var i := OtherOnly(argType, n, m);
    var word, comma, open, close := Chars(WordOf(argType)), Chars(","), Chars("{"), Chars("}");
    BareCase(Chars("other"), open, Print(m), close);
    var cases := Chars("other") + (open + (Print(m) + close));
    assert PrintCases(NoCases) == [] && PrintCases(i.style.cases) == cases;
    BareStyleText(comma, word, cases);
    assert PrintStyle(i.style) == comma + (word + (comma + cases));
    assert Decimal(n) == [0x30 + n];
    BareArgText(open, [0x30 + n], comma + (word + (comma + cases)), close);
    InFour(comma, word, comma, Chars("other"), open, Print(m), close);
  }

  lemma BareCase(word: Text, open: Text, m: Text, close: Text)
    ensures [] + (word + ([] + (open + (m + (close + []))))) == word + (open + (m + close))
  {
  }

  lemma BareStyleText(comma: Text, word: Text, cases: Text)
    ensures comma + ([] + (word + ([] + (comma + ([] + (cases + [])))))) == comma + (word + (comma + cases))
  {
  }

  lemma BareArgText(open: Text, id: Text, style: Text, close: Text)
    ensures open + ([] + (id + ([] + (style + close)))) == open + (id + (style + close))
  {
  }

  lemma InFour(a: Text, b: Text, c: Text, d: Text, e: Text, m: Text, close: Text)
    ensures (a + (b + (c + (d + (e + (m + close)))))) + close == a + (b + (c + (d + (e + (m + (close + close))))))
  {
    AfterFour(a, b, c, d + (e + (m + close)), close);
    AfterFour(d, e, m, close, close);
  }

  lemma BothBraces()
    ensures Chars("}}") == Chars("}") + Chars("}")
  {
  }

  lemma OtherOnlyParts(argType: ArgType, n: nat, m: Message, level: nat, index: nat, first: nat)
    requires n < 10 && Reals(m) == 0
    ensures var k := |WordOf(argType)|;
            var content := ContentParts(m, level + 1, index + 10 + k, first + 4, 0);
            var end := index + 10 + k + |Print(m)|;
            ItemParts(OtherOnly(argType, n, m), level, index, first, 0) ==
            [Part(ARG_START, index, 1, TypeNumber(argType), first + 5 + |content|), Leaf(ARG_NUMBER, index + 1, 1, n),
             Leaf(ARG_SELECTOR, index + 4 + k, 5, 0), Part(MSG_START, index + 9 + k, 1, level + 1, first + 4 + |content|)] +
            content + [Leaf(MSG_LIMIT, end, 1, level + 1), Leaf(ARG_LIMIT, end + 1, 1, TypeNumber(argType))]
  {
    hide Print, WordOf, TypeNumber, ContentParts, CasesParts, Chars, PrintItem;
    WordLengths(argType);
    OtherOnlyText(argType, n, m);
    var i, k := OtherOnly(argType, n, m), |WordOf(argType)|;
    assert |PrintItem(i)| == 12 + k + |Print(m)|;
    assert PrintId(i.id) == [0x30 + n];
    var cases := CasesParts(i.style.cases, level + 1, index + 4 + k, first + 2, 0);
    CaseParts(m, level + 1, index + 4 + k, first + 2);
    assert [] + cases == cases;
    assert StyleParts(i.style, level + 1, index + 2, first + 2, 0) == cases;
  }

  lemma WordLengths(argType: ArgType)
    ensures |Chars(WordOf(argType))| == |WordOf(argType)| && |Chars("other")| == 5
    ensures |Chars("{")| == 1 && |Chars(",")| == 1 && |Chars("}}")| == 2 && |Chars("}")| == 1
  {
  }

  lemma CaseParts(m: Message, level: nat, index: nat, first: nat)
    ensures var content := ContentParts(m, level, index + 6, first + 2, 0);
            CasesParts(Case([], Keyword(Chars("other")), [], m, NoCases), level, index, first, 0) ==
            [Leaf(ARG_SELECTOR, index, 5, 0), Part(MSG_START, index + 5, 1, level, first + 2 + |content|)] +
            content + [Leaf(MSG_LIMIT, index + 6 + |Print(m)|, 1, level)]
  {
    hide Print, ContentParts, Chars;
    WordLengths(NONE);
    var content := ContentParts(m, level, index + 6, first + 2, 0);
    assert WholeParts(m, level, index + 5, first + 1, 0, 1, 1) ==
           [Part(MSG_START, index + 5, 1, level, first + 2 + |content|)] + content + [Leaf(MSG_LIMIT, index + 6 + |Print(m)|, 1, level)];
  }

  lemma OneItem(i: Item, level: nat, index: int, first: nat)
    ensures Print(Next(i, Done)) == PrintItem(i)
    ensures ContentParts(Next(i, Done), level, index, first, 0) == ItemParts(i, level, index, first, 0)
  {
    hide PrintItem, ItemParts;
    assert Print(Done) == [];
    var parts := ItemParts(i, level, index, first, 0);
    assert ContentParts(Done, level, index + |PrintItem(i)|, first + |parts|, ItemReals(i)) == [];
  }

  /** The sign "#" alone, as the number or as a character. */
  function Sign(argType: ArgType): Item {
    if IsPlural(argType) then NumberSign else Char('#' as int)
  }

  function SignPattern(argType: ArgType): Message {
    Next(OtherOnly(argType, 0, Next(Sign(argType), Done)), Done)
  }

  lemma SignIs(cx: Context, argType: ArgType)
    requires argType == PLURAL || argType == SELECT
    ensures var m := Next(Sign(argType), Done);
            IsMessage(cx, m, 1, argType, Chars("}")) && Print(m) == Chars("#") && |Chars("#")| == 1 && Reals(m) == 0
    ensures ContentParts(Next(Sign(argType), Done), 1, 16, 5, 0) == if IsPlural(argType) then [Leaf(REPLACE_NUMBER, 16, 1, 0)] else []
  {
    var i := Sign(argType);
    assert Chars("#") == ['#' as int];
    OneItem(i, 1, 16, 5);
    assert IsMessage(cx, Done, 1, argType, Chars("}")) && Reals(Done) == 0;
    assert IsItem(cx, i, 1, argType, Print(Done) + Chars("}"));
  }

  function SignText(argType: ArgType): Text {
    Chars("{") + ([0x30] + (Chars(",") + (Chars(WordOf(argType)) +
    (Chars(",") + (Chars("other") + (Chars("{") + (Chars("#") + Chars("}}"))))))))
  }

  lemma SignParses(cx: Context, argType: ArgType)
    requires IsPatternContext(cx) && cx.inMessage && (argType == PLURAL || argType == SELECT)
    ensures var r := ParsePattern(cx, SignText(argType));
            r.Ok? && PartsOf(r.events, 0, 0) == PatternParts(SignPattern(argType))
  {
    hide *;
    var m := Next(Sign(argType), Done);
    var i := OtherOnly(argType, 0, m);
    SignPatternIs(argType);
    SignIs(cx, argType);
    OtherOnlyIsItem(cx, argType, 0, m, 0, NONE, Print(Done) + []);
    OtherOnlyText(argType, 0, m);
    OneItem(i, 0, 0, 1);
    OneIsPattern(cx, i);
    PatternParses(cx, Next(i, Done));
  }

  lemma SignPatternIs(argType: ArgType)
    ensures SignPattern(argType) == Next(OtherOnly(argType, 0, Next(Sign(argType), Done)), Done)
    ensures SignText(argType) ==
            Chars("{") + ([0x30] + (Chars(",") + (Chars(WordOf(argType)) + (Chars(",") + (Chars("other") + (Chars("{") + (Chars("#") + Chars("}}"))))))))
  {
  }

  lemma OneIsPattern(cx: Context, i: Item)
    requires IsItem(cx, i, 0, NONE, Print(Done) + []) && ItemReals(i) == 0
    ensures IsPattern(cx, Next(i, Done))
  {
    hide IsItem, ItemReals;
    assert IsMessage(cx, Done, 0, NONE, []) && Reals(Done) == 0;
  }

  lemma SignParts(cx: Context, argType: ArgType)
    requires argType == PLURAL || argType == SELECT
    ensures var number := if IsPlural(argType) then [Part(REPLACE_NUMBER, 16, 1, 0, 0)] else [];
            var n := |number|;
            PatternParts(SignPattern(argType)) ==
            [Part(MSG_START, 0, 0, 0, 7 + n)] +
            ([Part(ARG_START, 0, 1, TypeNumber(argType), 6 + n), Leaf(ARG_NUMBER, 1, 1, 0),
              Leaf(ARG_SELECTOR, 10, 5, 0), Part(MSG_START, 15, 1, 1, 5 + n)] +
             number + [Leaf(MSG_LIMIT, 17, 1, 1), Leaf(ARG_LIMIT, 18, 1, TypeNumber(argType))]) +
            [Leaf(MSG_LIMIT, 19, 0, 0)]
  {
    hide IsMessage, Reals, Print, PrintItem, ItemParts, ContentParts, OtherOnly, Sign, Chars, TypeNumber, SignPattern, PatternParts;
    var m := Next(Sign(argType), Done);
    var i := OtherOnly(argType, 0, m);
    SignPatternIs(argType);
    WordLengths(argType);
    assert |WordOf(argType)| == 6;
    SignIs(cx, argType);
    OtherOnlyText(argType, 0, m);
    OtherOnlyParts(argType, 0, m, 0, 0, 1);
    OneItem(i, 0, 0, 1);
    assert |PrintItem(i)| == 19;
    OnePatternParts(i);
  }

  lemma OnePatternParts(i: Item)
    ensures var parts := ItemParts(i, 0, 0, 1, 0);
            PatternParts(Next(i, Done)) == [Part(MSG_START, 0, 0, 0, 1 + |parts|)] + parts + [Leaf(MSG_LIMIT, |PrintItem(i)|, 0, 0)]
  {
    hide ItemParts, PrintItem, ContentParts, Print;
    OneItem(i, 0, 0, 1);
  }

  /** In a plural message "#" stands for the number. */
  lemma PluralNumberSign(cx: Context)
    requires IsPatternContext(cx) && cx.inMessage
    ensures var r := ParsePattern(cx, Chars("{0,plural,other{#}}"));
            && r.Ok?
            && PartsOf(r.events, 0, 0) ==
               [Part(MSG_START, 0, 0, 0, 8), Part(ARG_START, 0, 1, 3, 7), Part(ARG_NUMBER, 1, 1, 0, 0), Part(ARG_SELECTOR, 10, 5, 0, 0),
                Part(MSG_START, 15, 1, 1, 6), Part(REPLACE_NUMBER, 16, 1, 0, 0), Part(MSG_LIMIT, 17, 1, 1, 0), Part(ARG_LIMIT, 18, 1, 3, 0),
                Part(MSG_LIMIT, 19, 0, 0, 0)]
  {
    PluralText();
    hide ParsePattern, PartsOf, Chars, PatternParts, SignPattern, SignText;
    SignParses(cx, PLURAL);
    SignParts(cx, PLURAL);
  }

  lemma PluralText()
    ensures SignText(PLURAL) == Chars("{0,plural,other{#}}")
  {
  }

  /** In a select message it is a character. */
  lemma SelectNumberSign(cx: Context)
    requires IsPatternContext(cx) && cx.inMessage
    ensures var r := ParsePattern(cx, Chars("{0,select,other{#}}"));
            && r.Ok?
            && PartsOf(r.events, 0, 0) ==
               [Part(MSG_START, 0, 0, 0, 7), Part(ARG_START, 0, 1, 4, 6), Part(ARG_NUMBER, 1, 1, 0, 0), Part(ARG_SELECTOR, 10, 5, 0, 0),
                Part(MSG_START, 15, 1, 1, 5), Part(MSG_LIMIT, 17, 1, 1, 0), Part(ARG_LIMIT, 18, 1, 4, 0), Part(MSG_LIMIT, 19, 0, 0, 0)]
  {
    SelectText();
    hide ParsePattern, PartsOf, Chars, PatternParts, SignPattern, SignText;
    SignParses(cx, SELECT);
    SignParts(cx, SELECT);
  }

  lemma SelectText()
    ensures SignText(SELECT) == Chars("{0,select,other{#}}")
  {
  }

  // ---------- auto-quoting ----------

  /** The pattern "{0,choice,0#'a}". */
  function ChoicePattern(): Item {
    Arg([], Numbered(0), [], ChoiceStyle([], Chars("choice"), [], [],
      Choice(Small(NoSign, 0, 0), [], '#' as int, Next(LoneApostrophe, Next(Char('a' as int), Done)), NoMoreChoices)))
  }

  lemma ChoicesAreText()
    ensures PrintNumeral(ChoicePattern().style.choices.number) == ['0' as int]
    ensures Print(Next(Char('a' as int), Done)) == ['a' as int] && Print(Done) == []
  {
    var c := ChoicePattern().style.choices;
    assert Print(Next(Char('a' as int), Done)) == ['a' as int];
    assert PrintNumeral(c.number) == ['0' as int];
  }

  lemma ChoiceIsItem(cx: Context)
    requires !cx.doubleRequired
    ensures ChoicePattern().Arg? && IsItem(cx, ChoicePattern(), 0, NONE, []) && ItemReals(ChoicePattern()) == 0
  {
    ChoicesAreText();
    hide Print, PrintNumeral;
    var style := ChoicePattern().style;
    var c := style.choices;
    assert IsMessage(cx, Done, 1, CHOICE, Chars("}"));
    assert IsMessage(cx, Next(Char('a' as int), Done), 1, CHOICE, Chars("}"));
    assert IsItem(cx, LoneApostrophe, 1, CHOICE, ['a' as int] + Chars("}"));
    assert IsMessage(cx, c.message, 1, CHOICE, Chars("}"));
    assert IsNumeral(cx, c.number, true);
    assert Chars("#<\U{2264}")[0] == '#' as int;
    assert AreChoices(cx, c, 1);
    assert Spells(style.word, "choice");
    assert IsStyleForm(cx, style, 1);
    assert Reals(Done) == 0 && Reals(Next(Char('a' as int), Done)) == 0 && ChoicesReals(c) == 0;
  }

  lemma ChoiceInserts()
    ensures LONE_APOS in ItemEvents(ChoicePattern(), 0, 0)
  {
    var style := ChoicePattern().style;
    var c := style.choices;
    var limit := LimitEvent([], 0, 1);
    assert ItemEvents(LoneApostrophe, 1, 0) == [LONE_APOS];
    assert LONE_APOS in ContentEvents(c.message, 1, 0, limit);
    assert LONE_APOS in WholeEvents(c.message, 1, 0, [], limit);
    assert LONE_APOS in ChoicesEvents(c, 1, 0);
    assert LONE_APOS in TailEvents(style, 1, 0);
  }

  /** Auto-quoting "{0,choice,0#'a}" shows one more apostrophe. */
  lemma QuotedChoiceShowsMore(cx: Context)
    requires IsPatternContext(cx) && cx.inMessage && !cx.doubleRequired
    ensures var s := PrintItem(ChoicePattern());
            && ParsePattern(cx, s).Ok?
            && var quoted := Inserted(s, PartsOf(ParsePattern(cx, s).events, 0, 0), 0);
               MessageText.Shown(cx, quoted, 0, NONE, false, 0) != MessageText.Shown(cx, s, 0, NONE, false, 0)
  {
    hide IsPatternContext, ChoicePattern, PrintItem, IsItem, ItemEvents, ParseArg, ParsePattern, PartsOf, Inserted, MessageText.Shown,
         ItemReals, Chars;
    var i := ChoicePattern();
    var s := PrintItem(i);
    ChoiceIsItem(cx);
    ChoiceInserts();
    assert s + [] == s;
    ArgParses(cx, i, 0, NONE, [], 0);
    ArgShown(cx, s);
  }

  /** A pattern that is an argument with an apostrophe to be doubled. */
  lemma ArgShown(cx: Context, s: Text)
    requires cx.inMessage && s != [] && s[0] == LEFT_CURLY
    requires var g := ParseArg(cx, s, 0, 0); g.Ok? && g.rest == [] && LONE_APOS in g.events
    ensures ParsePattern(cx, s).Ok?
    ensures var quoted := Inserted(s, PartsOf(ParsePattern(cx, s).events, 0, 0), 0);
            MessageText.Shown(cx, quoted, 0, NONE, false, 0) != MessageText.Shown(cx, s, 0, NONE, false, 0)
  {
    hide ParseHeader, ParseStyle, ParseArg, PartsOf, MessageText.Shown, Inserted, MessageApostrophes.Inserts, PartCount;
    var g := ParseArg(cx, s, 0, 0);
    MessageApostrophes.InsertsNone(g.events);
    assert TokenAt(cx, s, 0, NONE, false) == ArgToken;
    assert ParseContent(cx, [], 0, NONE, false, g.doubles).Ok?;
    assert s[0..] == s;
    MessageApostrophes.ArgCaseInserts(cx, s, 0, NONE, false, 0);
    assert ParseContent(cx, s, 0, NONE, false, 0).Ok?;
    MessageApostrophes.AutoQuotingKeepsShownTextIff(cx, s);
  }
}
