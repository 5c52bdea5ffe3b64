/** Every text that parses is a written pattern: the syntax is exactly what the parser accepts. */
module MessageReading {
  import opened Basics
  import opened MessageGrammar
  import opened MessageEvents
  import opened MessageParts
  import opened MessageSyntax
  import opened MessageNumerals
  import opened MessagePrinting
  import opened MessageTrees

  predicate All(p: int -> bool, s: Text) {
    forall i :: 0 <= i < |s| ==> p(s[i])
  }

  lemma {:induction false} PrefixIs(p: int -> bool, s: Text)
    ensures var n := PrefixLength(p, s); All(p, s[..n]) && (n < |s| ==> !p(s[n]))
  {
    if s != [] && p(s[0]) {
      PrefixIs(p, s[1..]);
      var n := PrefixLength(p, s[1..]);
      assert s[..n + 1] == [s[0]] + s[1..][..n];
    }
  }

  lemma Split(s: Text, i: nat)
    requires i <= |s|
    ensures s == s[..i] + s[i..]
  {
  }

  lemma WhitePrefix(cx: Context, s: Text)
    ensures AreWhite(cx, s[..PrefixLength(cx.isWhiteSpace, s)])
  {
    PrefixIs(cx.isWhiteSpace, s);
  }

  // ---------- the start of an argument ----------

  lemma WordIs(white: int -> bool, part: int -> bool, s: Text)
    ensures var w := WordAt(white, part, s);
            && All(white, s[..w.start]) && All(part, s[w.start..w.end]) && All(white, s[w.end..w.next])
            && s == s[..w.start] + (s[w.start..w.end] + (s[w.end..w.next] + s[w.next..]))
  {
    hide PrefixLength, All;
    var w := WordAt(white, part, s);
    PrefixIs(white, s);
    PrefixIs(part, s[w.start..]);
    PrefixIs(white, s[w.end..]);
    assert s[w.start..w.end] == s[w.start..][..w.end - w.start];
    assert s[w.end..w.next] == s[w.end..][..w.next - w.end];
  }

  lemma NameTree(cx: Context, name: Text, white1: Text) returns (id: ArgId)
    requires NameEvents(name, white1).Header? && forall i :: 0 <= i < |name| ==> cx.isIdentifierPart(name[i])
    ensures IsId(cx, id) && PrintId(id) == name
  {
    if ArgNumber(name) >= 0 {
      NumbersAreDecimal(name);
      id := Numbered(ArgNumber(name));
    } else {
      id := Named(name);
      if AllDigits(name) && name != [] {
        var _ := DigitsAreDecimal(name);
      }
      assert !AllDigits(name);
      var i :| 0 <= i < |name| && !IsDigit(name[i]);
      assert !IsDecimalDigit(name[i]);
    }
  }

  /** A type between white space. */
  datatype TypeField = TypeField(white: Text, name: Text, white1: Text)

  predicate IsTypeField(cx: Context, f: TypeField, argType: ArgType) {
    && AreWhite(cx, f.white) && AreWhite(cx, f.white1) && AreLetters(f.name) && 0 < |f.name| <= MAX_LENGTH
    && TypeOf(f.name) == argType
  }

  function FieldText(f: TypeField): Text {
    [COMMA] + (f.white + (f.name + f.white1))
  }

  lemma TypeTree(cx: Context, s: Text) returns (f: TypeField)
    requires ParseType(cx, s).Header?
    ensures var h := ParseType(cx, s); IsTypeField(cx, f, h.argType) && s[..h.length] == f.white + (f.name + f.white1)
  {
    hide TypeOf, WordAt;
    var w := WordAt(cx.isWhiteSpace, IsArgTypeChar, s);
    WordIs(cx.isWhiteSpace, IsArgTypeChar, s);
    f := TypeField(s[..w.start], s[w.start..w.end], s[w.end..w.next]);
    assert forall i :: 0 <= i < |f.name| ==> IsArgTypeChar(f.name[i]) && IsLetter(f.name[i]);
    assert s[..w.next] == f.white + (f.name + f.white1);
  }

  lemma AfterNameTree(cx: Context, s: Text) returns (f: TypeField)
    requires ParseAfterName(cx, s).Header?
    ensures var h := ParseAfterName(cx, s);
            if h.argType == NONE then !h.hasStyle && s[..h.length] == []
            else IsTypeField(cx, f, h.argType) && s[..h.length] == FieldText(f) && (!h.hasStyle ==> h.argType == SIMPLE)
  {
    hide ParseType, IsTypeField;
    var h := ParseAfterName(cx, s);
    if h.argType != NONE {
      f := TypeTree(cx, s[1..]);
      var t := ParseType(cx, s[1..]);
      assert s[..1 + t.length] == [COMMA] + s[1..][..t.length];
    } else {
      f := TypeField([], [], []);
    }
  }

  lemma HeaderTree(cx: Context, s: Text) returns (white: Text, id: ArgId, white1: Text, f: TypeField)
    requires ParseHeader(cx, s).Header?
    ensures AreWhite(cx, white) && IsId(cx, id) && AreWhite(cx, white1)
    ensures var h := ParseHeader(cx, s);
            && (if h.hasStyle then h.argType != NONE else h.argType == NONE || h.argType == SIMPLE)
            && (h.argType != NONE ==> IsTypeField(cx, f, h.argType))
            && s[..h.length] == white + (PrintId(id) + (white1 + if h.argType == NONE then [] else FieldText(f)))
  {
    hide WordAt, NameEvents, ParseAfterName, IsTypeField, FieldText, IsId, PrintId;
    var w := WordAt(cx.isWhiteSpace, cx.isIdentifierPart, s);
    WordIs(cx.isWhiteSpace, cx.isIdentifierPart, s);
    white, white1 := s[..w.start], s[w.end..w.next];
    var name, next := s[w.start..w.end], s[w.next..];
    id := NameTree(cx, name, white1);
    f := AfterNameTree(cx, next);
    var n := ParseAfterName(cx, next).length;
    assert s[..w.next + n] == white + (name + (white1 + next[..n]));
  }

  // ---------- simple styles ----------

  lemma {:induction false} QuoteTree(s: Text, nested: nat) returns (text: Text, t: Text)
    requires SimpleStyleLength(s, nested, true).Style?
    ensures APOS !in text && s == text + ([APOS] + t)
    ensures SimpleStyleLength(s, nested, true) == Longer(|text| + 1, SimpleStyleLength(t, nested, false))
    decreases |s|
  {
    if s[0] == APOS {
      text, t := [], s[1..];
      assert s == [] + ([APOS] + t);
    } else {
      text, t := QuoteTree(s[1..], nested);
      assert s == [s[0]] + s[1..];
      Assoc([s[0]], text, [APOS] + t);
      text := [s[0]] + text;
    }
  }

  /** The text up to the closing brace of its nesting level. */
  lemma {:induction false} TextTree(s: Text, nested: nat) returns (st: StyleText, t: Text)
    requires SimpleStyleLength(s, nested, false).Style?
    ensures IsText(st) && s == PrintText(st) + ([RIGHT_CURLY] + t)
    ensures nested == 0 ==> SimpleStyleLength(s, nested, false) == Style(|PrintText(st)|)
    ensures nested > 0 ==> SimpleStyleLength(t, nested - 1, false).Style?
    decreases |s|
  {
    hide Chars, SimpleStyleLength;
    SyntaxChars();
    StyleChars();
    assert s == [s[0]] + s[1..];
    OpenStyle(s[0], s[1..], nested);
    if s[0] == RIGHT_CURLY {
      st, t := EndOfText, s[1..];
      assert s == [] + ([RIGHT_CURLY] + t);
    } else {
      if s[0] == LEFT_CURLY {
        var inner, u := TextTree(s[1..], nested + 1);
        var rest;
        rest, t := TextTree(u, nested);
        st := StyleBraces(inner, rest);
        AfterFour([LEFT_CURLY], PrintText(inner), [RIGHT_CURLY], PrintText(rest), [RIGHT_CURLY] + t);
      } else if s[0] == APOS {
        var text, u := QuoteTree(s[1..], nested);
        var rest;
        rest, t := TextTree(u, nested);
        st := StyleQuote(text, rest);
        AfterFour([APOS], text, [APOS], PrintText(rest), [RIGHT_CURLY] + t);
      } else {
        PlainStyleChar(s[0], s[1..], nested);
        var rest;
        rest, t := TextTree(s[1..], nested);
        st := StyleChar(s[0], rest);
        Assoc([s[0]], PrintText(rest), [RIGHT_CURLY] + t);
      }
      TextParses(st, [RIGHT_CURLY] + t, nested);
      OpenStyle(RIGHT_CURLY, t, nested);
    }
  }

  lemma StyleChars()
    ensures Chars("'{}") == [APOS, LEFT_CURLY, RIGHT_CURLY]
  {
  }

  // ---------- numbers and selectors ----------

  lemma DoubleTree(cx: Context, s: Text, allowInfinity: bool, reals: nat) returns (n: Numeral)
    requires ParseDouble(cx, s, allowInfinity, reals).Ok? && |s| <= MAX_LENGTH
    requires forall i :: 0 <= i < |s| ==> IsDoubleChar(s[i])
    ensures IsNumeral(cx, n, allowInfinity) && PrintNumeral(n) == s
    ensures ParseDouble(cx, s, allowInfinity, reals).doubles == reals + NumeralReals(n)
    ensures reals <= MAX_REALS ==> reals + NumeralReals(n) <= MAX_REALS
  {
    hide NumberOf, IsNumeral, PrintNumeral;
    n := NumberIsNumeral(cx, s, allowInfinity);
    NumeralIsRead(cx, n, allowInfinity);
  }

  /** The number at the start. */
  lemma NumberTree(cx: Context, s: Text, allowInfinity: bool, reals: nat) returns (n: Numeral)
    requires var k := PrefixLength(IsDoubleChar, s); k <= MAX_LENGTH && ParseDouble(cx, s[..k], allowInfinity, reals).Ok?
    ensures IsNumeral(cx, n, allowInfinity) && PrintNumeral(n) == s[..PrefixLength(IsDoubleChar, s)]
    ensures ParseDouble(cx, PrintNumeral(n), allowInfinity, reals).doubles == reals + NumeralReals(n)
    ensures reals <= MAX_REALS ==> reals + NumeralReals(n) <= MAX_REALS
  {
    hide IsNumeral, PrintNumeral, ParseDouble;
    PrefixIs(IsDoubleChar, s);
    n := DoubleTree(cx, s[..PrefixLength(IsDoubleChar, s)], allowInfinity, reals);
  }

  lemma SelectorTree(cx: Context, argType: ArgType, t: Text, isEmpty: bool, reals: nat) returns (sel: Selector)
    requires t != [] && reals <= MAX_REALS
    requires var f := SelectorFront(cx, argType, t, isEmpty, reals); f.Front? && !f.isOffset
    ensures var f := SelectorFront(cx, argType, t, isEmpty, reals);
            && IsSelector(cx, sel, argType) && t[..f.length] == PrintSelector(sel) && f.isOther == (sel == Keyword(Chars("other")))
            && f.doubles == reals + SelectorReals(sel) <= MAX_REALS
  {
    hide IsNumeral, PrintNumeral, ParseDouble, PrefixLength, Chars, OffsetFront;
    SyntaxChars();
    SyntaxWords();
    if HasPluralStyle(argType) && t[0] == EQUAL {
      var u := t[1..];
      var k := PrefixLength(IsDoubleChar, u);
      assert t[1..1 + k] == u[..k];
      var n := NumberTree(cx, u, false, reals);
      sel := Explicit(n);
      assert t[..1 + k] == [EQUAL] + u[..k];
    } else {
      PrefixIs(cx.isIdentifierPart, t);
      sel := Keyword(t[..PrefixLength(cx.isIdentifierPart, t)]);
    }
  }

  lemma OffsetTree(cx: Context, argType: ArgType, t: Text, reals: nat) returns (white1: Text, n: Numeral)
    requires t != [] && reals <= MAX_REALS
    requires var f := SelectorFront(cx, argType, t, true, reals); f.Front? && f.isOffset
    ensures var f := SelectorFront(cx, argType, t, true, reals);
            && IsPlural(argType) && AreWhite(cx, white1) && IsNumeral(cx, n, false)
            && t[..f.length] == OFFSET_COLON + (white1 + PrintNumeral(n)) && f.doubles == reals + NumeralReals(n) <= MAX_REALS
            && (f.length < |t| ==> !IsNumberChar(t[f.length]))
  {
    hide IsNumeral, PrintNumeral, ParseDouble, PrefixLength, IsDoubleChar, IsNumberChar;
    assert SelectorFront(cx, argType, t, true, reals) == OffsetFront(cx, t[..7], t[7..], reals);
    assert t[..7] == OFFSET_COLON;
    var u := t[7..];
    var v := PrefixLength(cx.isWhiteSpace, u);
    WhitePrefix(cx, u);
    white1 := u[..v];
    var m := PrefixLength(IsDoubleChar, u[v..]);
    assert u[v..v + m] == u[v..][..m];
    n := NumberTree(cx, u[v..], false, reals);
    assert t[..7 + v + m] == OFFSET_COLON + (white1 + u[v..][..m]);
    PrefixIs(IsDoubleChar, u[v..]);
    if 7 + v + m < |t| {
      assert t[7 + v + m] == u[v..][m];
      NumberChars(t[7 + v + m]);
    }
  }

  lemma ChoiceFrontTree(cx: Context, s: Text, reals: nat) returns (n: Numeral, white: Text, separator: int)
    requires ChoiceFront(cx, s, reals).Front? && reals <= MAX_REALS
    ensures var f := ChoiceFront(cx, s, reals);
            && IsNumeral(cx, n, true) && AreWhite(cx, white) && separator in Chars("#<\U{2264}")
            && s[..f.length] == PrintNumeral(n) + (white + [separator]) && f.doubles == reals + NumeralReals(n) <= MAX_REALS
  {
    hide IsNumeral, PrintNumeral, ParseDouble, PrefixLength, IsDoubleChar;
    var k := PrefixLength(IsDoubleChar, s);
    n := NumberTree(cx, s, true, reals);
    var u := s[k..];
    var v := PrefixLength(cx.isWhiteSpace, u);
    WhitePrefix(cx, u);
    white, separator := u[..v], s[k + v];
    assert Chars("#<\U{2264}") == [POUND, LESS_THAN, LESS_OR_EQUAL];
    assert s[..k + v + 1] == s[..k] + (white + [separator]);
  }

  // ---------- messages ----------

  predicate IsParent(level: nat, parent: ArgType) {
    if level == 0 then parent == NONE else parent == CHOICE || parent == PLURAL || parent == SELECT || parent == SELECTORDINAL
  }

  /** The text from the end of a message on. */
  function AfterText(level: nat, parent: ArgType, rest: Text): Text {
    if level == 0 || parent == CHOICE then rest else [RIGHT_CURLY] + rest
  }

  /** The tree of a message at the start of a text, with what was parsed from there. */
  ghost predicate IsContent(cx: Context, s: Text, level: nat, parent: ArgType, reals: nat, m: Message, r: Parsed) {
    && r.Ok?
    && var after := AfterText(level, parent, r.rest);
       && s == Print(m) + after && IsEnd(level, parent, First(after)) && IsMessage(cx, m, level, parent, First(after))
       && r.doubles == reals + Reals(m) <= MAX_REALS
  }

  lemma DoneContent(cx: Context, s: Text, level: nat, parent: ArgType, reals: nat)
    requires cx.inMessage && IsParent(level, parent) && reals <= MAX_REALS
    requires s == [] || TokenAt(cx, s, level, parent, false).LimitToken?
    requires ParseContent(cx, s, level, parent, false, reals).Ok?
    ensures IsContent(cx, s, level, parent, reals, Done, ParseContent(cx, s, level, parent, false, reals))
  {
    hide IsContent, TokenAt, ParseContent;
    var r := ParseContent(cx, s, level, parent, false, reals);
    LimitReads(cx, s, level, parent, reals);
    DoneIsContent(cx, s, level, parent, reals, r);
  }

  lemma LimitReads(cx: Context, s: Text, level: nat, parent: ArgType, reals: nat)
    requires cx.inMessage && IsParent(level, parent)
    requires s == [] || TokenAt(cx, s, level, parent, false).LimitToken?
    requires ParseContent(cx, s, level, parent, false, reals).Ok?
    ensures var r := ParseContent(cx, s, level, parent, false, reals);
            r.doubles == reals && s == AfterText(level, parent, r.rest) && IsEnd(level, parent, First(s))
  {
    hide TokenAt;
    if s != [] && parent != CHOICE {
      assert s == [RIGHT_CURLY] + s[1..];
    }
  }

  lemma DoneIsContent(cx: Context, s: Text, level: nat, parent: ArgType, reals: nat, r: Parsed)
    requires r.Ok? && r.doubles == reals <= MAX_REALS && s == AfterText(level, parent, r.rest) && IsEnd(level, parent, First(s))
    ensures IsContent(cx, s, level, parent, reals, Done, r)
  {
    hide AfterText, IsEnd, First;
    assert [] + s == s;
  }

  lemma NextContent(cx: Context, s: Text, level: nat, parent: ArgType, reals: nat, i: Item, t: Text, rest: Message, r: Parsed, next: Parsed)
    requires s == PrintItem(i) + t && IsItem(cx, i, level, parent, t)
    requires IsContent(cx, t, level, parent, reals + ItemReals(i), rest, next)
    requires r.Ok? && r.rest == next.rest && r.doubles == next.doubles
    ensures IsContent(cx, s, level, parent, reals, Next(i, rest), r)
  {
    hide IsItem, PrintItem, IsEnd, ItemReals;
    var after := AfterText(level, parent, r.rest);
    Assoc(PrintItem(i), Print(rest), after);
    ItemLooksBack(cx, i, level, parent, Print(rest), after);
  }

  lemma ItemLooksBack(cx: Context, i: Item, level: nat, parent: ArgType, a: Text, after: Text)
    requires IsItem(cx, i, level, parent, a + after)
    ensures IsItem(cx, i, level, parent, a + First(after))
  {
    hide IsQuotable, IsStyle, IsId, AreWhite, Chars;
    SyntaxChars();
    var x, y := a + First(after), a + after;
    assert (x == [] <==> y == []) && (x != [] ==> x[0] == y[0]);
  }

  /** Quoted text, up to the end or to an apostrophe that has no second one. */
  lemma {:induction false} Undouble(s: Text) returns (text: Text, u: Text)
    ensures s == Doubled(text) + u && (u != [] ==> u[0] == APOS && (|u| > 1 ==> u[1] != APOS))
    ensures s != [] && s[0] != APOS ==> text != [] && text[0] == s[0]
    decreases |s|
  {
    hide Chars;
    SyntaxChars();
    if s == [] || (s[0] == APOS && (|s| > 1 ==> s[1] != APOS)) {
      text, u := [], s;
      assert [] + s == s;
    } else {
      var k := if s[0] == APOS then 2 else 1;
      var text1;
      text1, u := Undouble(s[k..]);
      text := [s[0]] + text1;
      assert text[1..] == text1;
      assert s == s[..k] + s[k..];
      assert s[..k] == if s[0] == APOS then [APOS, APOS] else [s[0]];
      Assoc(s[..k], Doubled(text1), u);
    }
  }

  lemma SmallItemTree(cx: Context, s: Text, level: nat, parent: ArgType) returns (i: Item, t: Text)
    requires s != [] && s[0] != LEFT_CURLY && !TokenAt(cx, s, level, parent, false).LimitToken?
    requires s[0] == APOS && |s| > 1 ==> !IsQuotable(cx, parent, s[1])
    ensures s == PrintItem(i) + t && IsItem(cx, i, level, parent, t) && !i.Arg? && !i.Quoted? && |t| < |s|
  {
    hide Chars, IsQuotable;
    SyntaxChars();
    CharChars();
    t := s[1..];
    if s[0] == APOS && |s| > 1 && s[1] == APOS {
      i, t := ApostrophePair, s[2..];
      assert s == [APOS, APOS] + t;
    } else if s[0] == APOS {
      i := LoneApostrophe;
      assert s == [APOS] + t;
    } else if IsPlural(parent) && s[0] == POUND {
      i := NumberSign;
      assert s == [POUND] + t;
    } else {
      i := Char(s[0]);
      assert s == [s[0]] + t;
    }
  }

  lemma CharChars()
    ensures Chars("'{") == [APOS, LEFT_CURLY]
  {
  }

  lemma {:induction false} ContentTree(cx: Context, s: Text, level: nat, parent: ArgType, reals: nat) returns (m: Message)
    requires cx.inMessage && IsParent(level, parent) && reals <= MAX_REALS
    requires ParseContent(cx, s, level, parent, false, reals).Ok?
    ensures IsContent(cx, s, level, parent, reals, m, ParseContent(cx, s, level, parent, false, reals))
    decreases |s|, 2
  {
    hide IsContent, IsItem, PrintItem, ItemEvents, IsQuotable, ParseArg, ParseContent, TokenAt, IsParent;
    var r := ParseContent(cx, s, level, parent, false, reals);
    if s == [] || TokenAt(cx, s, level, parent, false).LimitToken? {
      m := Done;
      DoneContent(cx, s, level, parent, reals);
    } else if s[0] == LEFT_CURLY {
      ArgIsNext(cx, s, level, parent, reals);
      var i := ArgTree(cx, s, level, parent, reals);
      var arg := ParseArg(cx, s, level, reals);
      var rest := ContentTree(cx, arg.rest, level, parent, arg.doubles);
      m := Next(i, rest);
      NextContent(cx, s, level, parent, reals, i, arg.rest, rest, r, ParseContent(cx, arg.rest, level, parent, false, arg.doubles));
    } else if s[0] == APOS && |s| > 1 && IsQuotable(cx, parent, s[1]) {
      m := QuoteContent(cx, s, level, parent, reals);
    } else {
      var i, t := SmallItemTree(cx, s, level, parent);
      SmallItemParses(cx, i, level, parent, t, reals);
      NoReals(i);
      var rest := ContentTree(cx, t, level, parent, reals);
      m := Next(i, rest);
      NextContent(cx, s, level, parent, reals, i, t, rest, r, ParseContent(cx, t, level, parent, false, reals));
    }
  }

  lemma NoReals(i: Item)
    requires !i.Arg?
    ensures ItemReals(i) == 0
  {
  }

  lemma ArgIsNext(cx: Context, s: Text, level: nat, parent: ArgType, reals: nat)
    requires (level > 0 || cx.inMessage) && s != [] && s[0] == LEFT_CURLY
    requires ParseContent(cx, s, level, parent, false, reals).Ok?
    ensures var r, arg := ParseContent(cx, s, level, parent, false, reals), ParseArg(cx, s, level, reals);
            && arg.Ok?
            && var next := ParseContent(cx, arg.rest, level, parent, false, arg.doubles);
               next.Ok? && r.rest == next.rest && r.doubles == next.doubles
  {
    hide ParseArg;
    assert TokenAt(cx, s, level, parent, false) == ArgToken;
  }

  lemma {:induction false} QuoteContent(cx: Context, s: Text, level: nat, parent: ArgType, reals: nat) returns (m: Message)
    requires cx.inMessage && IsParent(level, parent) && reals <= MAX_REALS
    requires |s| > 1 && s[0] == APOS && IsQuotable(cx, parent, s[1]) && ParseContent(cx, s, level, parent, false, reals).Ok?
    ensures IsContent(cx, s, level, parent, reals, m, ParseContent(cx, s, level, parent, false, reals))
    decreases |s|, 1
  {
    hide IsContent, IsItem, PrintItem, ItemEvents, ParseContent, Doubled, QuotedEvents, Chars;
    var text, u := Undouble(s[1..]);
    assert s == [APOS] + (Doubled(text) + u);
    OpenQuoteParses(cx, text, u, level, parent, reals);
    if u == [] {
      m := OpenQuote(text);
      OpenContent(cx, s, level, parent, reals, text);
    } else {
      var i, t := Quoted(text), u[1..];
      assert u == [APOS] + t;
      QuotedIsItem(cx, text, level, parent, t);
      Assoc([APOS], Doubled(text) + [APOS], t);
      Assoc(Doubled(text), [APOS], t);
      QuotedItemParses(cx, text, level, parent, t, reals);
      NoReals(i);
      var rest := ContentTree(cx, t, level, parent, reals);
      m := Next(i, rest);
      NextContent(cx, s, level, parent, reals, i, t, rest, ParseContent(cx, s, level, parent, false, reals),
                  ParseContent(cx, t, level, parent, false, reals));
    }
  }

  lemma QuotedIsItem(cx: Context, text: Text, level: nat, parent: ArgType, t: Text)
    requires text != [] && IsQuotable(cx, parent, text[0]) && (t != [] ==> t[0] != APOS)
    ensures IsItem(cx, Quoted(text), level, parent, t) && PrintItem(Quoted(text)) == [APOS] + (Doubled(text) + [APOS])
  {
    hide IsQuotable, Chars, Doubled;
    SyntaxChars();
  }

  lemma OpenContent(cx: Context, s: Text, level: nat, parent: ArgType, reals: nat, text: Text)
    requires cx.inMessage && IsParent(level, parent) && reals <= MAX_REALS
    requires text != [] && IsQuotable(cx, parent, text[0]) && s == [APOS] + (Doubled(text) + [])
    requires ParseContent(cx, s, level, parent, false, reals) ==
             Prepend([QUOTE] + QuotedEvents(text), ParseContent(cx, [], level, parent, true, reals))
    requires ParseContent(cx, s, level, parent, false, reals).Ok?
    ensures IsContent(cx, s, level, parent, reals, OpenQuote(text), ParseContent(cx, s, level, parent, false, reals))
  {
    hide IsQuotable, Chars, Doubled, QuotedEvents, TokenAt;
    SyntaxChars();
    assert ParseContent(cx, [], level, parent, true, reals) == Prepend([MISSING_APOS], ParseEnd(cx, level, parent, reals));
    hide ParseContent;
    assert Doubled(text) + [] == Doubled(text);
  }

  lemma {:induction false} WholeTree(cx: Context, s: Text, k: nat, level: nat, parent: ArgType, reals: nat) returns (m: Message)
    requires cx.inMessage && IsParent(level, parent) && reals <= MAX_REALS && k <= |s|
    requires ParseMessage(cx, s, k, level, parent, reals).Ok?
    ensures level <= 32767 && IsContent(cx, s[k..], level, parent, reals, m, ParseMessage(cx, s, k, level, parent, reals))
    decreases |s|, 3
  {
    hide ParseContent, IsParent, Print, IsMessage, IsEnd, Reals;
    m := ContentTree(cx, s[k..], level, parent, reals);
  }

  // ---------- arguments ----------

  lemma {:induction false} ArgTree(cx: Context, s: Text, level: nat, parent: ArgType, reals: nat) returns (i: Item)
    requires cx.inMessage && reals <= MAX_REALS
    requires s != [] && s[0] == LEFT_CURLY && ParseArg(cx, s, level, reals).Ok?
    ensures var r := ParseArg(cx, s, level, reals);
            && s == PrintItem(i) + r.rest && IsItem(cx, i, level, parent, r.rest)
            && r.doubles == reals + ItemReals(i) <= MAX_REALS
    decreases |s|, 0
  {
    hide *;
    ArgReads(cx, s, level, reals);
    var h := ParseHeader(cx, s[1..]);
    var white, id, white1, f := HeaderTree(cx, s[1..]);
    var t := s[2 + h.length..];
    var r := ParseArg(cx, s, level, reals);
    var style;
    if h.hasStyle {
      style := StyleTree(cx, h.argType, f, t, level, reals);
      i := Arg(white, id, white1, style);
      StyledArg(cx, i, f, t, level, reals, ParseStyle(cx, h.argType, t, level, reals));
    } else {
      style := if h.argType == NONE then NoStyle else SimpleStyle(f.white, f.name, f.white1, None);
      BareStyle(cx, h.argType, f, level + 1);
      i := Arg(white, id, white1, style);
      BareArg(i, t);
    }
    ArgIsItem(cx, i, level, parent, r.rest);
  }

  lemma ArgIsItem(cx: Context, i: Item, level: nat, parent: ArgType, next: Text)
    requires i.Arg? && AreWhite(cx, i.white) && IsId(cx, i.id) && AreWhite(cx, i.white1) && IsStyle(cx, i.style, level + 1)
    ensures IsItem(cx, i, level, parent, next) && ItemReals(i) == StyleReals(i.style)
  {
    hide AreWhite, IsId, IsStyle, StyleReals;
  }

  lemma ArgReads(cx: Context, s: Text, level: nat, reals: nat)
    requires (level > 0 || cx.inMessage) && s != [] && s[0] == LEFT_CURLY && ParseArg(cx, s, level, reals).Ok?
    ensures var h := ParseHeader(cx, s[1..]);
            && h.Header? && 2 + h.length <= |s|
            && var r, t := ParseArg(cx, s, level, reals), s[2 + h.length..];
               if h.hasStyle then
                 var p := ParseStyle(cx, h.argType, t, level, reals);
                 p.Ok? && r.rest == p.rest[1..] && r.doubles == p.doubles && s == [LEFT_CURLY] + (s[1..][..h.length] + ([COMMA] + t))
               else r.rest == t && r.doubles == reals && s == [LEFT_CURLY] + (s[1..][..h.length] + ([RIGHT_CURLY] + t))
  {
    hide ParseHeader, ParseStyle, ArgEvents;
    SplitHeader(s, ParseHeader(cx, s[1..]).length);
  }

  lemma StyledArg(cx: Context, i: Item, f: TypeField, t: Text, level: nat, reals: nat, p: Parsed)
    requires i.Arg? && IsStyleOf(cx, i.style, f, t, level, reals, p) && p.rest != [] && p.rest[0] == RIGHT_CURLY
    ensures PrintItem(i) + p.rest[1..] == [LEFT_CURLY] + ((i.white + (PrintId(i.id) + (i.white1 + FieldText(f)))) + ([COMMA] + t))
    ensures IsStyle(cx, i.style, level + 1) && p.doubles == reals + StyleReals(i.style) <= MAX_REALS
  {
    hide PrintItem, PrintId, IsStyle, StyleReals, FieldText, HasTail, Tail, Head;
    assert p.rest == [RIGHT_CURLY] + p.rest[1..];
    ArgText(i, p.rest[1..]);
    WithTail(i.white, PrintId(i.id), i.white1, FieldText(f), Tail(i.style), p.rest);
  }

  lemma BareArg(i: Item, t: Text)
    requires i.Arg? && !HasTail(i.style)
    ensures PrintItem(i) + t == [LEFT_CURLY] + ((i.white + (PrintId(i.id) + (i.white1 + Head(i.style)))) + ([RIGHT_CURLY] + t))
  {
    hide PrintItem, PrintId, HasTail, Head;
    ArgText(i, t);
    WithoutTail(i.white, PrintId(i.id), i.white1, Head(i.style), [RIGHT_CURLY] + t);
  }

  lemma SplitHeader(s: Text, n: nat)
    requires 2 + n <= |s|
    ensures s == [s[0]] + (s[1..][..n] + ([s[1 + n]] + s[2 + n..]))
  {
  }

  lemma WithTail(a: Text, b: Text, c: Text, d: Text, tail: Text, end: Text)
    ensures [LEFT_CURLY] + ((a + (b + (c + d))) + ([COMMA] + (tail + end))) ==
            [LEFT_CURLY] + (a + (b + (c + (d + (([COMMA] + tail) + end)))))
  {
    Assoc([COMMA], tail, end);
    AfterFour(a, b, c, d, [COMMA] + (tail + end));
  }

  lemma WithoutTail(a: Text, b: Text, c: Text, d: Text, end: Text)
    ensures [LEFT_CURLY] + ((a + (b + (c + d))) + end) == [LEFT_CURLY] + (a + (b + (c + (d + ([] + end)))))
  {
    assert [] + end == end;
    AfterFour(a, b, c, d, end);
  }

  /** A style that ends with its type. */
  lemma BareStyle(cx: Context, argType: ArgType, f: TypeField, level: nat)
    requires argType == NONE || (argType == SIMPLE && IsTypeField(cx, f, argType))
    ensures var style := if argType == NONE then NoStyle else SimpleStyle(f.white, f.name, f.white1, None);
            && IsStyle(cx, style, level) && !HasTail(style) && StyleReals(style) == 0
            && Head(style) == if argType == NONE then [] else FieldText(f)
  {
    hide AreWhite, AreLetters, TypeOf, Spells;
    TypeIsSpelled(f.name);
  }

  /** The style of an argument whose type was read before. */
  ghost predicate IsStyleOf(cx: Context, style: ArgStyle, f: TypeField, s: Text, level: nat, reals: nat, r: Parsed) {
    && r.Ok? && HasTail(style) && Head(style) == FieldText(f) && IsStyle(cx, style, level + 1)
    && s == Tail(style) + r.rest && r.doubles == reals + StyleReals(style) <= MAX_REALS
  }

  lemma {:induction false} StyleTree(cx: Context, argType: ArgType, f: TypeField, s: Text, level: nat, reals: nat) returns (style: ArgStyle)
    requires cx.inMessage && reals <= MAX_REALS && argType != NONE && IsTypeField(cx, f, argType)
    requires ParseStyle(cx, argType, s, level, reals).Ok?
    ensures IsStyleOf(cx, style, f, s, level, reals, ParseStyle(cx, argType, s, level, reals))
    decreases |s|, 9
  {
    hide AreWhite, AreLetters, TypeOf, Spells, AreChoices, AreCases, IsOffset, HasOther, PrintChoices, PrintCases, PrintOffset, PrintText, IsText,
         ParseChoiceStyle, ParsePluralOrSelectStyle, ParseSimpleStyle;
    TypeIsSpelled(f.name);
    if argType == SIMPLE {
      var st := SimpleTailTree(s, reals);
      style := SimpleStyle(f.white, f.name, f.white1, Some(st));
      assert IsStyleForm(cx, style, level + 1);
    } else if argType == CHOICE {
      var white2, choices := ChoiceTailTree(cx, s, level, reals);
      style := ChoiceStyle(f.white, f.name, f.white1, white2, choices);
      assert IsStyleForm(cx, style, level + 1);
      Assoc(white2, PrintChoices(choices), ParseStyle(cx, argType, s, level, reals).rest);
    } else {
      var offset, cases, white2 := ComplexTree(cx, argType, s, level, reals);
      style := ComplexStyle(argType, f.white, f.name, f.white1, offset, cases, white2);
      assert IsStyleForm(cx, style, level + 1);
      var rest := ParseStyle(cx, argType, s, level, reals).rest;
      Assoc(PrintOffset(offset), PrintCases(cases) + white2, rest);
      Assoc(PrintCases(cases), white2, rest);
    }
  }

  lemma SimpleTailTree(s: Text, reals: nat) returns (st: StyleText)
    requires ParseSimpleStyle(s, reals).Ok?
    ensures var r := ParseSimpleStyle(s, reals);
            IsText(st) && |PrintText(st)| <= 0xFFFF && s == PrintText(st) + r.rest && r.doubles == reals
  {
    hide SimpleStyleLength;
    var t;
    st, t := TextTree(s, 0);
    Slice(PrintText(st), [RIGHT_CURLY] + t);
  }

  // ---------- choices ----------

  lemma {:induction false} ChoiceTailTree(cx: Context, s: Text, level: nat, reals: nat) returns (white: Text, c: Choices)
    requires cx.inMessage && reals <= MAX_REALS && ParseChoiceStyle(cx, s, level, reals).Ok?
    ensures var r := ParseChoiceStyle(cx, s, level, reals);
            && AreWhite(cx, white) && AreChoices(cx, c, level + 1) && level < 32767
            && s == white + (PrintChoices(c) + r.rest) && r.doubles == reals + ChoicesReals(c) <= MAX_REALS
    decreases |s|, 6
  {
    hide ParseChoices, AreChoices, PrintChoices, PrefixLength, ChoicesReals;
    var w := PrefixLength(cx.isWhiteSpace, s);
    WhitePrefix(cx, s);
    white := s[..w];
    c := ChoicesTree(cx, s[w..], level, reals);
    Split(s, w);
  }

  lemma {:induction false} ChoicesTree(cx: Context, s: Text, level: nat, reals: nat) returns (c: Choices)
    requires cx.inMessage && reals <= MAX_REALS && ParseChoices(cx, s, level, reals).Ok?
    ensures var r := ParseChoices(cx, s, level, reals);
            && AreChoices(cx, c, level + 1) && level < 32767
            && s == PrintChoices(c) + r.rest && r.doubles == reals + ChoicesReals(c) <= MAX_REALS
    decreases |s|, 5
  {
    hide ChoiceFront, ParseMessage, ParseMoreChoices, IsNumeral, PrintNumeral, Print, PrintMore, IsMessage, Chars, IsEnd;
    var f := ChoiceFront(cx, s, reals);
    var n, white, separator := ChoiceFrontTree(cx, s, reals);
    var t := s[f.length..];
    assert t[0..] == t;
    var message := WholeTree(cx, t, 0, level + 1, CHOICE, f.doubles);
    var p := ParseMessage(cx, t, 0, level + 1, CHOICE, f.doubles);
    var more := MoreTree(cx, p.rest, level, p.doubles);
    c := Choice(n, white, separator, message, more);
    SyntaxChars();
    var end := ParseMoreChoices(cx, p.rest, level, p.doubles).rest;
    Split(s, f.length);
    ChoicesAre(PrintNumeral(n), white, [separator], Print(message), PrintMore(more), end);
  }

  lemma ChoicesAre(a: Text, b: Text, c: Text, d: Text, e: Text, t: Text)
    ensures (a + (b + c)) + (d + (e + t)) == (a + (b + (c + (d + e)))) + t
  {
  }

  lemma {:induction false} MoreTree(cx: Context, s: Text, level: nat, reals: nat) returns (m: MoreChoices)
    requires cx.inMessage && reals <= MAX_REALS && IsAfterContent(cx, level + 1, CHOICE, s) && ParseMoreChoices(cx, s, level, reals).Ok?
    ensures var r := ParseMoreChoices(cx, s, level, reals);
            && (m.OrChoices? ==> AreWhite(cx, m.white) && AreChoices(cx, m.choices, level + 1))
            && First(s) == (if m.NoMoreChoices? then [RIGHT_CURLY] else [PIPE])
            && s == PrintMore(m) + r.rest
            && r.doubles == reals + (if m.OrChoices? then ChoicesReals(m.choices) else 0) <= MAX_REALS
    decreases |s|, 6
  {
    hide ParseChoices, AreChoices, PrintChoices, PrefixLength, ChoicesReals, Chars;
    SyntaxChars();
    if s[0] == RIGHT_CURLY {
      m := NoMoreChoices;
      assert [] + s == s;
    } else {
      var u := s[1..];
      var w := PrefixLength(cx.isWhiteSpace, u);
      WhitePrefix(cx, u);
      assert s[1 + w..] == u[w..];
      var choices := ChoicesTree(cx, u[w..], level, reals);
      m := OrChoices(u[..w], choices);
      Split(u, w);
      assert s == [PIPE] + u;
      var r := ParseMoreChoices(cx, s, level, reals);
      Assoc(u[..w], PrintChoices(choices), r.rest);
      Assoc([PIPE], u[..w] + PrintChoices(choices), r.rest);
    }
  }

  // ---------- cases ----------

  /** Cases and the white space after them. */
  ghost predicate AreCasesOf(cx: Context, argType: ArgType, c: Cases, white2: Text, s: Text, level: nat, hasOther: bool, reals: nat, r: Parsed) {
    && r.Ok? && AreCases(cx, c, level + 1, argType) && AreWhite(cx, white2) && (hasOther || HasOther(c)) && (c.Case? ==> level < 32767)
    && s == PrintCases(c) + (white2 + r.rest) && r.doubles == reals + CasesReals(c) <= MAX_REALS
  }

  predicate IsComplex(argType: ArgType) {
    argType == PLURAL || argType == SELECT || argType == SELECTORDINAL
  }

  lemma {:induction false} ComplexTree(cx: Context, argType: ArgType, s: Text, level: nat, reals: nat)
    returns (offset: Option<Offset>, cases: Cases, white2: Text)
    requires cx.inMessage && reals <= MAX_REALS && IsComplex(argType)
    requires ParsePluralOrSelectStyle(cx, argType, s, level, true, false, reals).Ok?
    ensures var r := ParsePluralOrSelectStyle(cx, argType, s, level, true, false, reals);
            && (offset.Some? ==> IsPlural(argType) && IsOffset(cx, offset.value, PrintCases(cases)))
            && AreCases(cx, cases, level + 1, argType) && HasOther(cases) && AreWhite(cx, white2) && level < 32767
            && s == PrintOffset(offset) + (PrintCases(cases) + (white2 + r.rest))
            && r.doubles == reals + OffsetReals(offset) + CasesReals(cases) <= MAX_REALS
    decreases |s|, 8
  {
    hide PrefixLength, SelectorFront, AreCases, IsNumeral, PrintNumeral, ParseSelector, IsOffset, PrintOffset, AreWhite, OffsetReals;
    var w := PrefixLength(cx.isWhiteSpace, s);
    var t := s[w..];
    WhitePrefix(cx, s);
    Split(s, w);
    SelectorIsNext(cx, argType, t, level, true, false, reals);
    var f := SelectorFront(cx, argType, t, true, reals);
    if f.isOffset {
      var white1, n := OffsetTree(cx, argType, t, reals);
      var u := t[f.length..];
      cases, white2 := CasesTree(cx, argType, u, level, false, f.doubles);
      offset := Some(Offset(s[..w], white1, n));
      assert PrintCases(cases) != [] ==> PrintCases(cases)[0] == u[0];
      Split(t, f.length);
      OffsetIs(cx, s[..w], white1, n, PrintCases(cases), u);
    } else {
      offset := None;
      cases, white2 := CaseTree(cx, argType, s[..w], t, level, true, false, reals);
      assert [] + s == s;
      NoOffset(reals);
    }
  }

  /** Reading on after a selector or an offset. */
  lemma SelectorIsNext(cx: Context, argType: ArgType, t: Text, level: nat, isEmpty: bool, hasOther: bool, reals: nat)
    requires t != [] && ParseSelector(cx, argType, t, level, isEmpty, hasOther, reals).Ok?
    ensures var f, r := SelectorFront(cx, argType, t, isEmpty, reals), ParseSelector(cx, argType, t, level, isEmpty, hasOther, reals);
            && f.Front?
            && (f.isOffset ==>
                  var next := ParsePluralOrSelectStyle(cx, argType, t[f.length..], level, false, hasOther, f.doubles);
                  next.Ok? && r.rest == next.rest && r.doubles == next.doubles)
  {
    hide SelectorFront, ParsePluralOrSelectStyle, ParseSelected;
  }

  lemma OffsetIs(cx: Context, white: Text, white1: Text, n: Numeral, cases: Text, u: Text)
    requires AreWhite(cx, white) && AreWhite(cx, white1) && IsNumeral(cx, n, false) && (cases != [] ==> !IsNumberChar(cases[0]))
    ensures var o := Offset(white, white1, n);
            && IsOffset(cx, o, cases) && OffsetReals(Some(o)) == NumeralReals(n)
            && white + ((OFFSET_COLON + (white1 + PrintNumeral(n))) + u) == PrintOffset(Some(o)) + u
  {
    hide IsNumeral, PrintNumeral, Chars, OFFSET_COLON, IsNumberChar;
    SyntaxWords();
    Assoc(white, OFFSET_COLON + (white1 + PrintNumeral(n)), u);
  }

  lemma {:induction false} CasesTree(cx: Context, argType: ArgType, s: Text, level: nat, hasOther: bool, reals: nat) returns (c: Cases, white2: Text)
    requires cx.inMessage && reals <= MAX_REALS && IsComplex(argType)
    requires ParsePluralOrSelectStyle(cx, argType, s, level, false, hasOther, reals).Ok?
    ensures AreCasesOf(cx, argType, c, white2, s, level, hasOther, reals, ParsePluralOrSelectStyle(cx, argType, s, level, false, hasOther, reals))
    decreases |s|, 8
  {
    hide PrefixLength, SelectorFront, ParseSelector, AreWhite, Chars;
    var w := PrefixLength(cx.isWhiteSpace, s);
    var t := s[w..];
    WhitePrefix(cx, s);
    Split(s, w);
    if t == [] || t[0] == RIGHT_CURLY {
      c, white2 := NoCases, s[..w];
      assert [] + s == s;
    } else {
      SelectorIsRead(cx, argType, t, level, hasOther, reals);
      OffsetsComeFirst(cx, argType, t, reals);
      c, white2 := CaseTree(cx, argType, s[..w], t, level, false, hasOther, reals);
    }
  }

  lemma SelectorIsRead(cx: Context, argType: ArgType, t: Text, level: nat, hasOther: bool, reals: nat)
    requires t != [] && ParseSelector(cx, argType, t, level, false, hasOther, reals).Ok?
    ensures SelectorFront(cx, argType, t, false, reals).Front?
  {
  }

  lemma OffsetsComeFirst(cx: Context, argType: ArgType, t: Text, reals: nat)
    requires t != []
    ensures var f := SelectorFront(cx, argType, t, false, reals); f.Front? ==> !f.isOffset
  {
    hide PrefixLength, ParseDouble;
  }

  lemma {:induction false} CaseTree(cx: Context, argType: ArgType, white: Text, t: Text, level: nat, isEmpty: bool, hasOther: bool, reals: nat)
    returns (c: Cases, white2: Text)
    requires cx.inMessage && reals <= MAX_REALS && IsComplex(argType) && AreWhite(cx, white)
    requires t != [] && ParseSelector(cx, argType, t, level, isEmpty, hasOther, reals).Ok?
    requires !SelectorFront(cx, argType, t, isEmpty, reals).isOffset
    ensures var r := ParseSelector(cx, argType, t, level, isEmpty, hasOther, reals);
            c.Case? && AreCasesOf(cx, argType, c, white2, white + t, level, hasOther, reals, r)
    decreases |t|, 7
  {
    hide PrefixLength, SelectorFront, AreWhite, IsSelector, PrintSelector, SelectorReals, ParseMessage, ParsePluralOrSelectStyle, IsMessage, Print,
         Chars, IsEnd;
    var f := SelectorFront(cx, argType, t, isEmpty, reals);
    var sel := SelectorTree(cx, argType, t, isEmpty, reals);
    var u := t[f.length..];
    Split(t, f.length);
    var w := PrefixLength(cx.isWhiteSpace, u);
    WhitePrefix(cx, u);
    var white1, v := u[..w], u[w..];
    Split(u, w);
    var message := WholeTree(cx, v, 1, level + 1, argType, f.doubles);
    var p := ParseMessage(cx, v, 1, level + 1, argType, f.doubles);
    var rest;
    rest, white2 := CasesTree(cx, argType, p.rest, level, hasOther || f.isOther, p.doubles);
    c := Case(white, sel, white1, message, rest);
    SyntaxChars();
    assert v == [LEFT_CURLY] + v[1..];
    var end := ParseSelector(cx, argType, t, level, isEmpty, hasOther, reals).rest;
    CaseText(c, white2 + end);
  }

  // ---------- patterns ----------

  lemma PatternTree(cx: Context, s: Text) returns (m: Message)
    requires cx.inMessage && ParsePattern(cx, s).Ok?
    ensures IsPattern(cx, m) && Print(m) == s
  {
    hide ParseMessage, IsMessage, Print;
    m := WholeTree(cx, s, 0, 0, NONE, 0);
    assert s[0..] == s;
    assert Print(m) + [] == Print(m);
  }

  /** A text parses exactly if it is a pattern, and then it has the parts of every tree that is written that way. */
  lemma ParsesIffPattern(cx: Context, s: Text)
    requires IsPatternContext(cx) && cx.inMessage
    ensures ParsePattern(cx, s).Ok? <==> exists m :: IsPattern(cx, m) && Print(m) == s
    ensures forall m :: IsPattern(cx, m) && Print(m) == s ==> PartsOf(ParsePattern(cx, s).events, 0, 0) == PatternParts(m)
  {
    hide IsPatternContext, IsPattern, Print, ParsePattern, PatternParts, PartsOf;
    if ParsePattern(cx, s).Ok? {
      var m := PatternTree(cx, s);
    }
    forall m | IsPattern(cx, m) && Print(m) == s
      ensures ParsePattern(cx, s).Ok? && PartsOf(ParsePattern(cx, s).events, 0, 0) == PatternParts(m)
    {
      PatternParses(cx, m);
    }
  }
}
