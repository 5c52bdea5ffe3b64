/**
  * Message patterns as trees: how a tree is written, which trees are patterns, and
  * the parts that a pattern consists of. Nothing in this module reads text, and its
  * characters, words and numbers are written out apart from those of the parser.
  */
module MessageSyntax {
  import opened Basics
  import opened MessageGrammar
  import opened MessageParts

  // ---------- trees ----------

  datatype Message =
    | Done
    /** Quoted text that only the end of the pattern ends. */
    | OpenQuote(text: Text)
    | Next(item: Item, rest: Message)

  datatype Item =
    | Char(c: int)
    | ApostrophePair
    | Quoted(text: Text)
    | LoneApostrophe
    | NumberSign
    | Arg(white: Text, id: ArgId, white1: Text, style: ArgStyle)

  datatype ArgId = Numbered(number: nat) | Named(name: Text)

  datatype ArgStyle =
    | NoStyle
    | SimpleStyle(white: Text, name: Text, white1: Text, text: Option<StyleText>)
    | ChoiceStyle(white: Text, word: Text, white1: Text, white2: Text, choices: Choices)
    | ComplexStyle(argType: ArgType, white: Text, word: Text, white1: Text, offset: Option<Offset>, cases: Cases, white2: Text)

  /** The text of a simple style: quotes hide braces, and the others come in pairs. */
  datatype StyleText =
    | EndOfText
    | StyleChar(c: int, rest: StyleText)
    | StyleQuote(text: Text, rest: StyleText)
    | StyleBraces(inner: StyleText, rest: StyleText)

  datatype Choices = Choice(number: Numeral, white: Text, separator: int, message: Message, more: MoreChoices)

  datatype MoreChoices = NoMoreChoices | OrChoices(white: Text, choices: Choices)

  datatype Offset = Offset(white: Text, white1: Text, number: Numeral)

  datatype Cases = NoCases | Case(white: Text, selector: Selector, white1: Text, message: Message, rest: Cases)

  datatype Selector = Keyword(word: Text) | Explicit(number: Numeral)

  datatype Sign = NoSign | Plus | Minus

  datatype Numeral =
    | Small(sign: Sign, zeros: nat, magnitude: nat)
    | Infinite(sign: Sign)
    | Real(text: Text)

  // ---------- how trees are written ----------

  function Chars(s: string): Text {
    seq(|s|, i requires 0 <= i < |s| => s[i] as int)
  }

  function Decimal(n: nat): Text {
    if n < 10 then ['0' as int + n] else Decimal(n / 10) + ['0' as int + n % 10]
  }

  function Zeros(n: nat): Text {
    seq(n, _ => '0' as int)
  }

  function PrintSign(s: Sign): Text {
    match s
    case NoSign => []
    case Plus => Chars("+")
    case Minus => Chars("-")
  }

  function PrintNumeral(n: Numeral): Text {
    match n
    case Small(sign, zeros, magnitude) => PrintSign(sign) + (Zeros(zeros) + Decimal(magnitude))
    case Infinite(sign) => PrintSign(sign) + Chars("\U{221E}")
    case Real(text) => text
  }

  /** Quoted text, with its apostrophes written twice. */
  function Doubled(s: Text): Text {
    if s == [] then [] else (if s[0] == '\'' as int then Chars("''") else [s[0]]) + Doubled(s[1..])
  }

  function Print(m: Message): Text {
    match m
    case Done => []
    case OpenQuote(text) => Chars("'") + Doubled(text)
    case Next(item, rest) => PrintItem(item) + Print(rest)
  }

  function PrintItem(i: Item): Text {
    match i
    case Char(c) => [c]
    case ApostrophePair => Chars("''")
    case Quoted(text) => Chars("'") + (Doubled(text) + Chars("'"))
    case LoneApostrophe => Chars("'")
    case NumberSign => Chars("#")
    case Arg(white, id, white1, style) =>
      Chars("{") + (white + (PrintId(id) + (white1 + (PrintStyle(style) + Chars("}")))))
  }

  function PrintId(id: ArgId): Text {
    match id
    case Numbered(n) => Decimal(n)
    case Named(name) => name
  }

  function PrintStyle(s: ArgStyle): Text {
    match s
    case NoStyle => []
    case SimpleStyle(white, name, white1, text) =>
      Chars(",") + (white + (name + (white1 + if text.None? then [] else Chars(",") + PrintText(text.value))))
    case ChoiceStyle(white, word, white1, white2, choices) =>
      Chars(",") + (white + (word + (white1 + (Chars(",") + (white2 + PrintChoices(choices))))))
    case ComplexStyle(_, white, word, white1, offset, cases, white2) =>
      Chars(",") + (white + (word + (white1 + (Chars(",") + (PrintOffset(offset) + (PrintCases(cases) + white2))))))
  }

  function PrintText(t: StyleText): Text {
    match t
    case EndOfText => []
    case StyleChar(c, rest) => [c] + PrintText(rest)
    case StyleQuote(text, rest) => Chars("'") + (text + (Chars("'") + PrintText(rest)))
    case StyleBraces(inner, rest) => Chars("{") + (PrintText(inner) + (Chars("}") + PrintText(rest)))
  }

  function PrintChoices(c: Choices): Text {
    PrintNumeral(c.number) + (c.white + ([c.separator] + (Print(c.message) + PrintMore(c.more))))
  }

  function PrintMore(m: MoreChoices): Text {
    match m
    case NoMoreChoices => []
    case OrChoices(white, choices) => Chars("|") + (white + PrintChoices(choices))
  }

  function PrintOffset(o: Option<Offset>): Text {
    match o
    case None => []
    case Some(Offset(white, white1, number)) => white + (Chars("offset:") + (white1 + PrintNumeral(number)))
  }

  function PrintCases(c: Cases): Text {
    match c
    case NoCases => []
    case Case(white, selector, white1, message, rest) =>
      white + (PrintSelector(selector) + (white1 + (Chars("{") + (Print(message) + (Chars("}") + PrintCases(rest))))))
  }

  function PrintSelector(s: Selector): Text {
    match s
    case Keyword(word) => word
    case Explicit(number) => Chars("=") + PrintNumeral(number)
  }

  // ---------- which trees are patterns ----------

  predicate IsSyntax(c: int) {
    c in Chars("{},'|#<=:\U{2264}")
  }

  predicate IsDecimalDigit(c: int) {
    '0' as int <= c <= '9' as int
  }

  /** What the Pattern_White_Space and Pattern_Syntax properties of Unicode say of the characters that matter. */
  ghost predicate IsPatternContext(cx: Context) {
    && (forall c :: cx.isWhiteSpace(c) ==> !cx.isIdentifierPart(c) && !IsNumberChar(c) && !IsLetter(c) && !IsSyntax(c))
    && (forall c :: cx.isIdentifierPart(c) ==> !IsSyntax(c))
    && (forall c :: IsLetter(c) || IsDecimalDigit(c) ==> cx.isIdentifierPart(c))
  }

  predicate AreWhite(cx: Context, s: Text) {
    forall i :: 0 <= i < |s| ==> cx.isWhiteSpace(s[i])
  }

  predicate IsIdentifier(cx: Context, s: Text) {
    s != [] && forall i :: 0 <= i < |s| ==> cx.isIdentifierPart(s[i])
  }

  predicate IsLetter(c: int) {
    'a' as int <= c <= 'z' as int || 'A' as int <= c <= 'Z' as int
  }

  predicate AreLetters(s: Text) {
    forall i :: 0 <= i < |s| ==> IsLetter(s[i])
  }

  predicate IsNumberChar(c: int) {
    IsDecimalDigit(c) || c in Chars("+-.eE\U{221E}")
  }

  predicate AreNumberChars(s: Text) {
    forall i :: 0 <= i < |s| ==> IsNumberChar(s[i])
  }

  /** These letters in lower or upper case. */
  predicate Spells(s: Text, word: string) {
    && |s| == |word|
    && forall i :: 0 <= i < |s| ==> s[i] == word[i] as int || s[i] == word[i] as int - ('a' as int - 'A' as int)
  }

  predicate IsPlural(t: ArgType) {
    t == PLURAL || t == SELECTORDINAL
  }

  function WordOf(t: ArgType): string {
    match t
    case CHOICE => "choice"
    case PLURAL => "plural"
    case SELECT => "select"
    case SELECTORDINAL => "selectordinal"
    case _ => ""
  }

  predicate IsSmall(sign: Sign, magnitude: nat) {
    magnitude <= 32767 || (sign == Minus && magnitude == 32768)
  }

  ghost predicate PrintsSmall(text: Text) {
    exists sign, zeros, magnitude :: IsSmall(sign, magnitude) && PrintNumeral(Small(sign, zeros, magnitude)) == text
  }

  /** What follows the sign, if there is one. */
  function Unsigned(text: Text): Text {
    if text != [] && text[0] in Chars("+-") then text[1..] else text
  }

  ghost predicate IsNumeral(cx: Context, n: Numeral, allowInfinity: bool) {
    && |PrintNumeral(n)| <= 0xFFFF
    && match n
       case Small(sign, _, magnitude) => IsSmall(sign, magnitude)
       case Infinite(_) => allowInfinity
       case Real(text) =>
         && AreNumberChars(text) && Unsigned(text) != [] && Unsigned(text)[0] != 0x221E
         && |text| < 128 && cx.isDouble(text) && !PrintsSmall(text)
  }

  /** The characters with which an apostrophe starts quoted text. */
  predicate IsQuotable(cx: Context, parent: ArgType, c: int) {
    && c != '\'' as int
    && (cx.doubleRequired || c in Chars("{}") || (parent == CHOICE && c == '|' as int) || (IsPlural(parent) && c == '#' as int))
  }

  /** A message of an argument of the parent type, nested so deep, and the character that ends it. */
  ghost predicate IsMessage(cx: Context, m: Message, level: nat, parent: ArgType, end: Text)
    decreases m, 0
  {
    match m
    case Done => true
    case OpenQuote(text) => level == 0 && text != [] && IsQuotable(cx, parent, text[0])
    case Next(item, rest) => IsItem(cx, item, level, parent, Print(rest) + end) && IsMessage(cx, rest, level, parent, end)
  }

  ghost predicate IsItem(cx: Context, i: Item, level: nat, parent: ArgType, next: Text)
    decreases i, 0
  {
    match i
    case Char(c) =>
      && c !in Chars("'{") && (level > 0 ==> c != '}' as int)
      && (parent == CHOICE ==> c != '|' as int) && (IsPlural(parent) ==> c != '#' as int)
    case ApostrophePair => true
    case Quoted(text) => text != [] && IsQuotable(cx, parent, text[0]) && !(Chars("'") <= next)
    case LoneApostrophe => next == [] || (next[0] != '\'' as int && !IsQuotable(cx, parent, next[0]))
    case NumberSign => IsPlural(parent)
    case Arg(white, id, white1, style) =>
      AreWhite(cx, white) && IsId(cx, id) && AreWhite(cx, white1) && IsStyle(cx, style, level + 1)
  }

  predicate IsId(cx: Context, id: ArgId) {
    match id
    case Numbered(n) => n <= 32767
    case Named(name) =>
      && IsIdentifier(cx, name) && |name| <= 0xFFFF
      && exists i :: 0 <= i < |name| && !IsDecimalDigit(name[i])
  }

  /** Its messages are at this level. A complex style has a case for "other". */
  ghost predicate IsStyle(cx: Context, s: ArgStyle, level: nat)
    decreases s, 1
  {
    IsStyleForm(cx, s, level) && (s.ComplexStyle? ==> HasOther(s.cases))
  }

  ghost predicate IsStyleForm(cx: Context, s: ArgStyle, level: nat)
    decreases s, 0
  {
    match s
    case NoStyle => true
    case SimpleStyle(white, name, white1, text) =>
      && AreWhite(cx, white) && AreLetters(name) && 0 < |name| <= 0xFFFF && AreWhite(cx, white1)
      && !Spells(name, "choice") && !Spells(name, "plural") && !Spells(name, "select") && !Spells(name, "selectordinal")
      && (text.Some? ==> IsText(text.value) && |PrintText(text.value)| <= 0xFFFF)
    case ChoiceStyle(white, word, white1, white2, choices) =>
      && AreWhite(cx, white) && Spells(word, WordOf(CHOICE)) && AreWhite(cx, white1) && AreWhite(cx, white2)
      && level <= 32767 && AreChoices(cx, choices, level)
    case ComplexStyle(argType, white, word, white1, offset, cases, white2) =>
      && (argType == PLURAL || argType == SELECT || argType == SELECTORDINAL)
      && AreWhite(cx, white) && Spells(word, WordOf(argType)) && AreWhite(cx, white1) && AreWhite(cx, white2)
      && (offset.Some? ==> IsPlural(argType) && IsOffset(cx, offset.value, PrintCases(cases)))
      && (cases.Case? ==> level <= 32767) && AreCases(cx, cases, level, argType)
  }

  predicate IsText(t: StyleText) {
    match t
    case EndOfText => true
    case StyleChar(c, rest) => c !in Chars("'{}") && IsText(rest)
    case StyleQuote(text, rest) => '\'' as int !in text && IsText(rest)
    case StyleBraces(inner, rest) => IsText(inner) && IsText(rest)
  }

  ghost predicate AreChoices(cx: Context, c: Choices, level: nat)
    decreases c, 0
  {
    && IsNumeral(cx, c.number, true) && AreWhite(cx, c.white) && c.separator in Chars("#<\U{2264}")
    && IsMessage(cx, c.message, level, CHOICE, if c.more.NoMoreChoices? then Chars("}") else Chars("|"))
    && (c.more.OrChoices? ==> AreWhite(cx, c.more.white) && AreChoices(cx, c.more.choices, level))
  }

  /** What follows does not go on with the number. */
  ghost predicate IsOffset(cx: Context, o: Offset, next: Text) {
    && AreWhite(cx, o.white) && AreWhite(cx, o.white1) && IsNumeral(cx, o.number, false)
    && (next != [] ==> !IsNumberChar(next[0]))
  }

  ghost predicate AreCases(cx: Context, c: Cases, level: nat, argType: ArgType)
    decreases c, 0
  {
    match c
    case NoCases => true
    case Case(white, selector, white1, message, rest) =>
      && AreWhite(cx, white) && IsSelector(cx, selector, argType) && AreWhite(cx, white1)
      && IsMessage(cx, message, level, argType, Chars("}"))
      && AreCases(cx, rest, level, argType)
  }

  ghost predicate IsSelector(cx: Context, s: Selector, argType: ArgType) {
    && |PrintSelector(s)| <= 0xFFFF
    && match s
       case Keyword(word) => IsIdentifier(cx, word)
       case Explicit(number) => IsPlural(argType) && IsNumeral(cx, number, false)
  }

  predicate HasOther(c: Cases) {
    c.Case? && (c.selector == Keyword(Chars("other")) || HasOther(c.rest))
  }

  /** The most floating-point numbers that a pattern can hold. */
  const MAX_REALS := 32768

  ghost predicate IsPattern(cx: Context, m: Message) {
    IsMessage(cx, m, 0, NONE, []) && Reals(m) <= MAX_REALS
  }

  // ---------- how many floating-point numbers a tree holds ----------

  function NumeralReals(n: Numeral): nat {
    if n.Small? then 0 else 1
  }

  function Reals(m: Message): nat {
    if m.Next? then ItemReals(m.item) + Reals(m.rest) else 0
  }

  function ItemReals(i: Item): nat {
    if i.Arg? then StyleReals(i.style) else 0
  }

  function StyleReals(s: ArgStyle): nat {
    match s
    case ChoiceStyle(_, _, _, _, choices) => ChoicesReals(choices)
    case ComplexStyle(_, _, _, _, offset, cases, _) => OffsetReals(offset) + CasesReals(cases)
    case _ => 0
  }

  function ChoicesReals(c: Choices): nat {
    NumeralReals(c.number) + Reals(c.message) + if c.more.OrChoices? then ChoicesReals(c.more.choices) else 0
  }

  function OffsetReals(o: Option<Offset>): nat {
    if o.Some? then NumeralReals(o.value.number) else 0
  }

  function SelectorReals(s: Selector): nat {
    if s.Explicit? then NumeralReals(s.number) else 0
  }

  function CasesReals(c: Cases): nat {
    if c.Case? then SelectorReals(c.selector) + Reals(c.message) + CasesReals(c.rest) else 0
  }

  // ---------- the parts of a tree whose text starts at an index ----------

  function TypeNumber(t: ArgType): int {
    match t
    case NONE => 0
    case SIMPLE => 1
    case CHOICE => 2
    case PLURAL => 3
    case SELECT => 4
    case SELECTORDINAL => 5
  }

  function StyleType(s: ArgStyle): ArgType {
    match s
    case NoStyle => NONE
    case SimpleStyle(_, _, _, _) => SIMPLE
    case ChoiceStyle(_, _, _, _, _) => CHOICE
    case ComplexStyle(argType, _, _, _, _, _, _) => argType
  }

  /** A part that is not the start of anything. */
  function Leaf(kind: PartType, index: int, length: int, value: int): Part {
    Part(kind, index, length, value, 0)
  }

  /** The value of a floating-point number is how many there are before it. */
  function NumeralPart(n: Numeral, index: int, reals: nat): Part {
    match n
    case Small(sign, _, magnitude) => Leaf(ARG_INT, index, |PrintNumeral(n)|, if sign == Minus then -(magnitude as int) else magnitude)
    case _ => Leaf(ARG_DOUBLE, index, |PrintNumeral(n)|, reals)
  }

  /** A whole message between its opening and closing characters; first is the number of its first part. */
  function WholeParts(m: Message, level: nat, index: int, first: nat, reals: nat, opening: nat, closing: nat): seq<Part>
    decreases m, 1
  {
    var content := ContentParts(m, level, index + opening, first + 1, reals);
    [Part(MSG_START, index, opening, level, first + 1 + |content|)] + content +
    [Leaf(MSG_LIMIT, index + opening + |Print(m)|, closing, level)]
  }

  function ContentParts(m: Message, level: nat, index: int, first: nat, reals: nat): seq<Part>
    decreases m, 0
  {
    match m
    case Done => []
    case OpenQuote(text) =>
      [Leaf(SKIP_SYNTAX, index, 1, 0)] + QuotedParts(text, index + 1) +
      [Leaf(INSERT_CHAR, index + 1 + |Doubled(text)|, 0, '\'' as int)]
    case Next(item, rest) =>
      var parts := ItemParts(item, level, index, first, reals);
      parts + ContentParts(rest, level, index + |PrintItem(item)|, first + |parts|, reals + ItemReals(item))
  }

  /** The second one of each pair of apostrophes is skipped. */
  function QuotedParts(text: Text, index: int): seq<Part> {
    if text == [] then []
    else if text[0] == '\'' as int then [Leaf(SKIP_SYNTAX, index + 1, 1, 0)] + QuotedParts(text[1..], index + 2)
    else QuotedParts(text[1..], index + 1)
  }

  function ItemParts(i: Item, level: nat, index: int, first: nat, reals: nat): seq<Part>
    decreases i, 0
  {
    match i
    case Char(_) => []
    case ApostrophePair => [Leaf(SKIP_SYNTAX, index + 1, 1, 0)]
    case Quoted(text) =>
      [Leaf(SKIP_SYNTAX, index, 1, 0)] + QuotedParts(text, index + 1) +
      [Leaf(SKIP_SYNTAX, index + 1 + |Doubled(text)|, 1, 0)]
    case LoneApostrophe => [Leaf(INSERT_CHAR, index + 1, 0, '\'' as int)]
    case NumberSign => [Leaf(REPLACE_NUMBER, index, 1, 0)]
    case Arg(white, id, white1, style) =>
      var start := index + 1 + |white|;
      var inner := [IdPart(id, start)] + StyleParts(style, level + 1, start + |PrintId(id)| + |white1|, first + 2, reals);
      [Part(ARG_START, index, 1, TypeNumber(StyleType(style)), first + 1 + |inner|)] + inner +
      [Leaf(ARG_LIMIT, index + |PrintItem(i)| - 1, 1, TypeNumber(StyleType(style)))]
  }

  function IdPart(id: ArgId, index: int): Part {
    match id
    case Numbered(n) => Leaf(ARG_NUMBER, index, |PrintId(id)|, n)
    case Named(name) => Leaf(ARG_NAME, index, |name|, 0)
  }

  function StyleParts(s: ArgStyle, level: nat, index: int, first: nat, reals: nat): seq<Part>
    decreases s, 0
  {
    match s
    case NoStyle => []
    case SimpleStyle(white, name, white1, text) =>
      var start := index + 1 + |white|;
      [Leaf(ARG_TYPE, start, |name|, 0)] +
      (if text.None? then [] else [Leaf(ARG_STYLE, start + |name| + |white1| + 1, |PrintText(text.value)|, 0)])
    case ChoiceStyle(white, word, white1, white2, choices) =>
      ChoicesParts(choices, level, index + 1 + |white| + |word| + |white1| + 1 + |white2|, first, reals)
    case ComplexStyle(_, white, word, white1, offset, cases, _) =>
      var start := index + 1 + |white| + |word| + |white1| + 1;
      var parts := OffsetParts(offset, start, reals);
      parts + CasesParts(cases, level, start + |PrintOffset(offset)|, first + |parts|, reals + OffsetReals(offset))
  }

  function OffsetParts(o: Option<Offset>, index: int, reals: nat): seq<Part> {
    if o.None? then [] else [NumeralPart(o.value.number, index + |PrintOffset(o)| - |PrintNumeral(o.value.number)|, reals)]
  }

  function ChoicesParts(c: Choices, level: nat, index: int, first: nat, reals: nat): seq<Part>
    decreases c, 0
  {
    var separator := index + |PrintNumeral(c.number)| + |c.white|;
    var reals1 := reals + NumeralReals(c.number);
    var parts :=
      [NumeralPart(c.number, index, reals), Leaf(ARG_SELECTOR, separator, 1, 0)] +
      WholeParts(c.message, level, separator + 1, first + 2, reals1, 0, if c.more.NoMoreChoices? then 0 else 1);
    if c.more.NoMoreChoices? then parts
    else
      var next := separator + 1 + |Print(c.message)| + 1 + |c.more.white|;
      parts + ChoicesParts(c.more.choices, level, next, first + |parts|, reals1 + Reals(c.message))
  }

  function CasesParts(c: Cases, level: nat, index: int, first: nat, reals: nat): seq<Part>
    decreases c, 0
  {
    match c
    case NoCases => []
    case Case(white, selector, white1, message, rest) =>
      var start := index + |white|;
      var front := SelectorParts(selector, start, reals);
      var reals1 := reals + SelectorReals(selector);
      var open := start + |PrintSelector(selector)| + |white1|;
      var parts := front + WholeParts(message, level, open, first + |front|, reals1, 1, 1);
      parts + CasesParts(rest, level, open + 1 + |Print(message)| + 1, first + |parts|, reals1 + Reals(message))
  }

  function SelectorParts(s: Selector, index: int, reals: nat): seq<Part> {
    match s
    case Keyword(word) => [Leaf(ARG_SELECTOR, index, |word|, 0)]
    case Explicit(number) =>
      [Leaf(ARG_SELECTOR, index, |PrintSelector(s)|, 0), NumeralPart(number, index + 1, reals)]
  }

  /** The parts of a pattern. */
  function PatternParts(m: Message): seq<Part> {
    WholeParts(m, 0, 0, 0, 0, 0, 0)
  }
}
