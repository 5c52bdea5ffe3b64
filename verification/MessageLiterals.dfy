/** The text that a pattern shows, by its tree. */
module MessageLiterals {
  import opened MessageGrammar
  import opened MessageEvents
  import opened MessageParts
  import opened MessageSyntax
  import opened MessageNumerals
  import opened MessagePrinting
  import opened MessageTrees
  import MessageText

  /** Quoting is gone, and arguments stand as they are but for their apostrophes. */
  function Literal(m: Message): Text {
    match m
    case Done => []
    case OpenQuote(text) => text
    case Next(item, rest) => ItemLiteral(item) + Literal(rest)
  }

  function ItemLiteral(i: Item): Text {
    match i
    case Char(c) => [c]
    case ApostrophePair => Chars("'")
    case Quoted(text) => text
    case LoneApostrophe => Chars("'")
    case NumberSign => Chars("#")
    case Arg(_, _, _, _) => MessageText.Reduced(PrintItem(i))
  }

  // ---------- reducing apostrophes ----------

  function Apostrophes(n: nat): Text {
    seq(n, _ => '\'' as int)
  }

  /** Of a run of apostrophes half as many are left. */
  lemma {:induction false} ReducedRun(n: nat, t: Text)
    requires t == [] || t[0] != APOS
    ensures MessageText.Reduced(Apostrophes(n) + t) == Apostrophes(n / 2) + MessageText.Reduced(t)
  {
    var s := Apostrophes(n) + t;
    if n >= 2 {
      ReducedRun(n - 2, t);
      assert s[2..] == Apostrophes(n - 2) + t;
      assert Apostrophes(n / 2) == [APOS] + Apostrophes((n - 2) / 2);
      Assoc([APOS], Apostrophes((n - 2) / 2), MessageText.Reduced(t));
    } else if n == 1 {
      assert s == [APOS] + t && s[1..] == t;
      assert Apostrophes(0) + MessageText.Reduced(t) == MessageText.Reduced(t);
    } else {
      assert s == t;
      assert Apostrophes(0) + MessageText.Reduced(t) == MessageText.Reduced(t);
    }
  }

  /** Other characters stay. */
  lemma {:induction false} ReducedOther(a: Text, t: Text)
    requires APOS !in a
    ensures MessageText.Reduced(a + t) == a + MessageText.Reduced(t)
    decreases |a|
  {
    if a == [] {
      assert a + t == t;
      assert a + MessageText.Reduced(t) == MessageText.Reduced(t);
    } else {
      assert a[0] in a && (a + t)[1..] == a[1..] + t;
      ReducedOther(a[1..], t);
      assert a == [a[0]] + a[1..];
      Assoc([a[0]], a[1..], MessageText.Reduced(t));
    }
  }

  // ---------- messages ----------

  lemma ShownToken(cx: Context, e: Event, t: Text, level: nat, parent: ArgType, quoted: bool, quoted': bool, reals: nat)
    requires level > 0 || cx.inMessage
    requires e.text + t != [] && TokenAt(cx, e.text + t, level, parent, quoted) == Token(e, quoted')
    ensures MessageText.Shown(cx, e.text + t, level, parent, quoted, reals) ==
            MessageText.LiteralText(e) + MessageText.Shown(cx, t, level, parent, quoted', reals)
  {
    hide TokenAt, MessageText.LiteralText;
    Slice(e.text, t);
  }

  lemma {:induction false} QuotedIsShown(cx: Context, text: Text, t: Text, level: nat, parent: ArgType, reals: nat)
    requires level > 0 || cx.inMessage
    ensures MessageText.Shown(cx, Doubled(text) + t, level, parent, true, reals) == text + MessageText.Shown(cx, t, level, parent, true, reals)
    decreases |text|
  {
    hide MessageText.Shown, Chars, TokenAt;
    SyntaxChars();
    var shown := MessageText.Shown(cx, t, level, parent, true, reals);
    if text == [] {
      assert Doubled(text) + t == t;
      assert text + shown == shown;
    } else {
      var e := if text[0] == APOS then DOUBLE_APOS else Plain([text[0]]);
      var u := Doubled(text[1..]) + t;
      Assoc(e.text, Doubled(text[1..]), t);
      QuotedToken(cx, text[0], u, level, parent);
      ShownToken(cx, e, u, level, parent, true, true, reals);
      QuotedIsShown(cx, text[1..], t, level, parent, reals);
      assert text == [text[0]] + text[1..];
      Assoc([text[0]], text[1..], shown);
    }
  }

  lemma OpenQuoteIsShown(cx: Context, text: Text, t: Text, level: nat, parent: ArgType, reals: nat)
    requires (level > 0 || cx.inMessage) && text != [] && IsQuotable(cx, parent, text[0])
    ensures MessageText.Shown(cx, [APOS] + (Doubled(text) + t), level, parent, false, reals) ==
            text + MessageText.Shown(cx, t, level, parent, true, reals)
  {
    hide MessageText.Shown, IsQuotable;
    QuotableStarts(cx, parent, text[0]);
    var u := Doubled(text) + t;
    assert u[0] == text[0];
    assert TokenAt(cx, [APOS] + u, level, parent, false) == Token(QUOTE, true);
    ShownToken(cx, QUOTE, u, level, parent, false, true, reals);
    QuotedIsShown(cx, text, t, level, parent, reals);
  }

  lemma ItemIsShown(cx: Context, i: Item, level: nat, parent: ArgType, t: Text, reals: nat)
    requires IsPatternContext(cx) && (level > 0 || cx.inMessage) && IsItem(cx, i, level, parent, t)
    requires reals + ItemReals(i) <= MAX_REALS
    ensures MessageText.Shown(cx, PrintItem(i) + t, level, parent, false, reals) ==
            ItemLiteral(i) + MessageText.Shown(cx, t, level, parent, false, reals + ItemReals(i))
  {
    hide IsPatternContext, IsItem, PrintItem, MessageText.Shown;
    if i.Arg? {
      ArgIsShown(cx, i, level, parent, t, reals);
    } else if i.Quoted? {
      QuotedItemIsShown(cx, i.text, level, parent, t, reals);
    } else {
      SmallItemIsShown(cx, i, level, parent, t, reals);
    }
  }

  lemma ArgIsShown(cx: Context, i: Item, level: nat, parent: ArgType, t: Text, reals: nat)
    requires IsPatternContext(cx) && (level > 0 || cx.inMessage) && i.Arg? && IsItem(cx, i, level, parent, t)
    requires reals + ItemReals(i) <= MAX_REALS
    ensures MessageText.Shown(cx, PrintItem(i) + t, level, parent, false, reals) ==
            ItemLiteral(i) + MessageText.Shown(cx, t, level, parent, false, reals + ItemReals(i))
  {
    hide IsPatternContext, IsItem, PrintItem, ParseArg, ItemEvents, ItemReals, MessageText.Reduced;
    ArgParses(cx, i, level, parent, t, reals);
    var s := PrintItem(i) + t;
    assert TokenAt(cx, s, level, parent, false) == ArgToken;
    assert s[..|s| - |t|] == PrintItem(i);
  }

  lemma QuotedItemIsShown(cx: Context, text: Text, level: nat, parent: ArgType, t: Text, reals: nat)
    requires (level > 0 || cx.inMessage) && IsItem(cx, Quoted(text), level, parent, t)
    ensures MessageText.Shown(cx, PrintItem(Quoted(text)) + t, level, parent, false, reals) ==
            text + MessageText.Shown(cx, t, level, parent, false, reals)
  {
    hide MessageText.Shown, Doubled, Chars;
    SyntaxChars();
    var u := [APOS] + t;
    assert PrintItem(Quoted(text)) + t == [APOS] + (Doubled(text) + u);
    OpenQuoteIsShown(cx, text, u, level, parent, reals);
    assert TokenAt(cx, u, level, parent, true) == Token(QUOTE, false);
    ShownToken(cx, QUOTE, t, level, parent, true, false, reals);
    assert MessageText.LiteralText(QUOTE) == [];
  }

  lemma SmallItemIsShown(cx: Context, i: Item, level: nat, parent: ArgType, t: Text, reals: nat)
    requires (level > 0 || cx.inMessage) && IsItem(cx, i, level, parent, t) && !i.Arg? && !i.Quoted?
    ensures MessageText.Shown(cx, PrintItem(i) + t, level, parent, false, reals) ==
            ItemLiteral(i) + MessageText.Shown(cx, t, level, parent, false, reals)
  {
    hide MessageText.Shown;
    SyntaxChars();
    assert Chars("'{") == [APOS, LEFT_CURLY] && Chars("{}") == [LEFT_CURLY, RIGHT_CURLY];
    var e := ItemEvents(i, level, reals)[0];
    assert TokenAt(cx, e.text + t, level, parent, false) == Token(e, false);
    ShownToken(cx, e, t, level, parent, false, false, reals);
  }

  /** What a message shows is its tree's literal text, wherever it stands. */
  lemma {:induction false} MessageIsShown(cx: Context, m: Message, level: nat, parent: ArgType, after: Text, reals: nat)
    requires IsPatternContext(cx) && (level > 0 || cx.inMessage)
    requires IsEnd(level, parent, First(after)) && IsMessage(cx, m, level, parent, First(after))
    requires reals + Reals(m) <= MAX_REALS
    ensures MessageText.Shown(cx, Print(m) + after, level, parent, false, reals) == Literal(m)
    decreases m
  {
    hide MessageText.Shown, IsItem, PrintItem, ItemReals, IsPatternContext, Chars, Doubled;
    SyntaxChars();
    EndIsShown(cx, level, parent, after, reals + Reals(m));
    match m
    case Done => assert Print(m) + after == after;
    case OpenQuote(text) =>
      OpenQuoteIsShown(cx, text, after, level, parent, reals);
      Assoc([APOS], Doubled(text), after);
      NothingShown(cx, level, parent, true, reals);
      assert text + [] == text;
    case Next(item, rest) =>
      Assoc(PrintItem(item), Print(rest), after);
      ItemLooksAhead(cx, item, level, parent, Print(rest), after);
      ItemIsShown(cx, item, level, parent, Print(rest) + after, reals);
      MessageIsShown(cx, rest, level, parent, after, reals + ItemReals(item));
  }

  lemma NothingShown(cx: Context, level: nat, parent: ArgType, quoted: bool, reals: nat)
    requires level > 0 || cx.inMessage
    ensures MessageText.Shown(cx, [], level, parent, quoted, reals) == []
  {
  }

  lemma EndIsShown(cx: Context, level: nat, parent: ArgType, after: Text, reals: nat)
    requires (level > 0 || cx.inMessage) && IsEnd(level, parent, First(after))
    ensures MessageText.Shown(cx, after, level, parent, false, reals) == []
  {
    if level > 0 {
      assert TokenAt(cx, after, level, parent, false) == LimitToken;
    }
  }

  /** The text without skip syntax of a written pattern is its tree's literal text. */
  lemma PatternTextIsLiteral(cx: Context, m: Message)
    requires IsPatternContext(cx) && cx.inMessage && IsPattern(cx, m)
    ensures MessageText.Unskipped(Print(m), PatternParts(m), 0, 0) == Literal(m)
  {
    hide IsPatternContext, IsMessage, Print, PatternParts, PartsOf, ParsePattern, MessageText.Unskipped, MessageText.Shown, Literal;
    PatternParses(cx, m);
    MessageText.PatternTextIsShown(cx, Print(m));
    MessageIsShown(cx, m, 0, NONE, [], 0);
    assert Print(m) + [] == Print(m);
  }
}
