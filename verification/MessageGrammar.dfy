/**
  * The message pattern syntax as functions from the rest of a pattern to the
  * events found in it. The texts of the events, put together, are what was read;
  * each event may hold one part.
  */
module MessageGrammar {
  import opened Basics

  type Text = seq<int>

  const APOS := 0x27
  const POUND := 0x23
  const PLUS := 0x2B
  const COMMA := 0x2C
  const MINUS := 0x2D
  const DOT := 0x2E
  const COLON := 0x3A
  const LESS_THAN := 0x3C
  const EQUAL := 0x3D
  const LEFT_CURLY := 0x7B
  const PIPE := 0x7C
  const RIGHT_CURLY := 0x7D
  const LESS_OR_EQUAL := 0x2264
  const INFINITY := 0x221E

  const MAX_LENGTH := 0xFFFF
  const MAX_VALUE := 0x7FFF

  datatype ArgType = NONE | SIMPLE | CHOICE | PLURAL | SELECT | SELECTORDINAL

  predicate HasPluralStyle(t: ArgType) {
    t == PLURAL || t == SELECTORDINAL
  }

  datatype PartType =
    | MSG_START | MSG_LIMIT | SKIP_SYNTAX | INSERT_CHAR | REPLACE_NUMBER
    | ARG_START | ARG_LIMIT | ARG_NUMBER | ARG_NAME | ARG_TYPE | ARG_STYLE
    | ARG_SELECTOR | ARG_INT | ARG_DOUBLE

  datatype Error = INDEX_OUTOFBOUNDS_ERROR | UNMATCHED_BRACES | PATTERN_SYNTAX_ERROR | DEFAULT_KEYWORD_MISSING

  /** The number in the value field of an ARG_START or ARG_LIMIT part. */
  function TypeValue(t: ArgType): int {
    match t
    case NONE => 0
    case SIMPLE => 1
    case CHOICE => 2
    case PLURAL => 3
    case SELECT => 4
    case SELECTORDINAL => 5
  }

  /** A part; span is how many parts further on its limit part is, or 0. */
  datatype Mark = Mark(kind: PartType, length: nat, value: int, span: nat)

  /** Text that was read, with a part that starts at some place in it. */
  datatype Event = Event(text: Text, at: nat, mark: Option<Mark>)

  function Plain(text: Text): Event {
    Event(text, 0, None)
  }

  function Marked(text: Text, kind: PartType, length: nat, value: int): Event {
    Event(text, 0, Some(Mark(kind, length, value, 0)))
  }

  datatype Parsed = Ok(events: seq<Event>, rest: Text, doubles: nat) | Err(error: Error)

  /**
    * What parsing depends on besides the pattern: the apostrophe mode, whether it
    * started with a message, the character properties and the number syntax.
    */
  datatype Context = Context(
    doubleRequired: bool,
    inMessage: bool,
    isWhiteSpace: int -> bool,
    isIdentifierPart: int -> bool,
    isDouble: Text -> bool)

  function Prepend(events: seq<Event>, p: Parsed): (r: Parsed)
    ensures r.Ok? <==> p.Ok?
    ensures r.Ok? ==> r.rest == p.rest
  {
    match p
    case Err(_) => p
    case Ok(more, rest, doubles) => Ok(events + more, rest, doubles)
  }

  // ---------- tokens ----------

  /** How many characters at the start satisfy p. */
  function PrefixLength(p: int -> bool, s: Text): (n: nat)
    ensures n <= |s|
  {
    if s != [] && p(s[0]) then 1 + PrefixLength(p, s[1..]) else 0
  }

  /** Where white space, then a word, then white space end. */
  datatype Word = Word(start: nat, end: nat, next: nat)

  function WordAt(isWhiteSpace: int -> bool, isPart: int -> bool, s: Text): (r: Word)
    ensures r.start <= r.end <= r.next <= |s|
  {
    var start := PrefixLength(isWhiteSpace, s);
    var end := start + PrefixLength(isPart, s[start..]);
    Word(start, end, end + PrefixLength(isWhiteSpace, s[end..]))
  }

  predicate IsDoubleChar(c: int) {
    !((c < 0x30 && c != PLUS && c != MINUS && c != DOT) || (c > 0x39 && c != 0x65 && c != 0x45 && c != INFINITY))
  }

  predicate IsArgTypeChar(c: int) {
    0x61 <= c <= 0x7A || 0x41 <= c <= 0x5A
  }

  predicate IsDigit(c: int) {
    0x30 <= c <= 0x39
  }

  predicate AllDigits(s: Text) {
    forall i :: 0 <= i < |s| ==> IsDigit(s[i])
  }

  function DigitsValue(s: Text): int {
    if s == [] then 0 else DigitsValue(s[..|s| - 1]) * 10 + (s[|s| - 1] - 0x30)
  }

  const ARG_NAME_NOT_NUMBER := -1
  const ARG_NAME_NOT_VALID := -2
  const INT32_MAX := 0x7FFF_FFFF

  /** An argument number has no leading zero and, but for its last digit, stays below INT32_MAX / 10. */
  function ArgNumber(s: Text): int {
    if s == [] then ARG_NAME_NOT_VALID
    else if !AllDigits(s) then ARG_NAME_NOT_NUMBER
    else if (s[0] == 0x30 && |s| > 1) || DigitsValue(s[..|s| - 1]) >= INT32_MAX / 10 then ARG_NAME_NOT_VALID
    else DigitsValue(s)
  }

  function Lower(s: Text): (r: Text)
    ensures |r| == |s| && forall i :: 0 <= i < |s| ==> r[i] == if 0x41 <= s[i] <= 0x5A then s[i] + 0x20 else s[i]
  {
    seq(|s|, i requires 0 <= i < |s| => if 0x41 <= s[i] <= 0x5A then s[i] + 0x20 else s[i])
  }

  const CHOICE_NAME: Text := [0x63, 0x68, 0x6F, 0x69, 0x63, 0x65]
  const PLURAL_NAME: Text := [0x70, 0x6C, 0x75, 0x72, 0x61, 0x6C]
  const SELECT_NAME: Text := [0x73, 0x65, 0x6C, 0x65, 0x63, 0x74]
  const ORDINAL_NAME: Text := [0x6F, 0x72, 0x64, 0x69, 0x6E, 0x61, 0x6C]
  const OFFSET_COLON: Text := [0x6F, 0x66, 0x66, 0x73, 0x65, 0x74, COLON]
  const OTHER_NAME: Text := [0x6F, 0x74, 0x68, 0x65, 0x72]

  function TypeOf(name: Text): ArgType {
    if Lower(name) == CHOICE_NAME then CHOICE
    else if Lower(name) == PLURAL_NAME then PLURAL
    else if Lower(name) == SELECT_NAME then SELECT
    else if Lower(name) == SELECT_NAME + ORDINAL_NAME then SELECTORDINAL
    else SIMPLE
  }

  // ---------- numbers ----------

  datatype Number = Int(value: int) | Double | Bad

  function HasSign(s: Text): bool {
    s != [] && (s[0] == MINUS || s[0] == PLUS)
  }

  /** A small integer, or a number for strtod(), or an infinity where that is allowed. */
  function NumberOf(cx: Context, s: Text, allowInfinity: bool): Number {
    var negative := if s != [] && s[0] == MINUS then 1 else 0;
    var digits := if HasSign(s) then s[1..] else s;
    if digits == [] then Bad
    else if digits[0] == INFINITY then (if allowInfinity && |digits| == 1 then Double else Bad)
    else if AllDigits(digits) && DigitsValue(digits) <= MAX_VALUE + negative then
      Int(if negative == 1 then -DigitsValue(digits) else DigitsValue(digits))
    else if |s| < 128 && cx.isDouble(s) then Double
    else Bad
  }

  /** The part for a number; a double is numbered by how many there were before. */
  function ParseDouble(cx: Context, s: Text, allowInfinity: bool, doubles: nat): Parsed {
    match NumberOf(cx, s, allowInfinity)
    case Int(v) => Ok([Marked(s, ARG_INT, |s|, v)], [], doubles)
    case Double =>
      if doubles > MAX_VALUE then Err(INDEX_OUTOFBOUNDS_ERROR)
      else Ok([Marked(s, ARG_DOUBLE, |s|, doubles)], [], doubles + 1)
    case Bad => Err(PATTERN_SYNTAX_ERROR)
  }

  // ---------- the start of an argument, up to its style ----------

  datatype Header =
    | BadHeader(error: Error)
    | Header(events: seq<Event>, argType: ArgType, hasStyle: bool, length: nat)

  function NameEvents(name: Text, white: Text): (r: Header)
  {
    var number := ArgNumber(name);
    if number >= 0 then
      if |name| > MAX_LENGTH || number > MAX_VALUE then BadHeader(INDEX_OUTOFBOUNDS_ERROR)
      else Header([Marked(name, ARG_NUMBER, |name|, number), Plain(white)], NONE, false, |name| + |white|)
    else if number == ARG_NAME_NOT_NUMBER then
      if |name| > MAX_LENGTH then BadHeader(INDEX_OUTOFBOUNDS_ERROR)
      else Header([Marked(name, ARG_NAME, |name|, 0), Plain(white)], NONE, false, |name| + |white|)
    else BadHeader(PATTERN_SYNTAX_ERROR)
  }

  /** After the opening brace: white space, name or number, and perhaps a comma and a type. */
  function ParseHeader(cx: Context, s: Text): (r: Header)
    ensures r.Header? ==> r.length < |s|
    ensures r.Header? ==> s[r.length] == if r.hasStyle then COMMA else RIGHT_CURLY
  {
    var w := WordAt(cx.isWhiteSpace, cx.isIdentifierPart, s);
    if w.start == |s| then BadHeader(UNMATCHED_BRACES)
    else
      HeaderAt(s[..w.start], NameEvents(s[w.start..w.end], s[w.end..w.next]), ParseAfterName(cx, s[w.next..]), w.next)
  }

  function HeaderAt(white: Text, name: Header, more: Header, length: nat): Header {
    if name.BadHeader? then name
    else if more.BadHeader? then more
    else Header([Plain(white)] + name.events + more.events, more.argType, more.hasStyle, length + more.length)
  }

  /** After the name: the end of the argument or its type. */
  function ParseAfterName(cx: Context, s: Text): (r: Header)
    ensures r.Header? ==> r.length < |s|
    ensures r.Header? ==> s[r.length] == if r.hasStyle then COMMA else RIGHT_CURLY
  {
    if s == [] then BadHeader(UNMATCHED_BRACES)
    else if s[0] == RIGHT_CURLY then Header([], NONE, false, 0)
    else if s[0] != COMMA then BadHeader(PATTERN_SYNTAX_ERROR)
    else
      var t := ParseType(cx, s[1..]);
      if t.BadHeader? then t
      else Header([Plain([COMMA])] + t.events, t.argType, t.hasStyle, 1 + t.length)
  }

  /** After the first comma. */
  function ParseType(cx: Context, s: Text): (r: Header)
    ensures r.Header? ==> r.length < |s|
    ensures r.Header? ==> s[r.length] == (if r.hasStyle then COMMA else RIGHT_CURLY) && r.argType != NONE
    ensures r.Header? && !r.hasStyle ==> r.argType == SIMPLE
  {
    var w := WordAt(cx.isWhiteSpace, IsArgTypeChar, s);
    if w.next == |s| then BadHeader(UNMATCHED_BRACES)
    else TypeAt(s[..w.start], s[w.start..w.end], s[w.end..w.next], s[w.next])
  }

  /** A type name between white space, and the character after it. */
  function TypeAt(white: Text, name: Text, white1: Text, c: int): (r: Header)
    ensures r.Header? ==> r.length == |white| + |name| + |white1| && r.hasStyle == (c == COMMA) && r.argType != NONE
    ensures r.Header? ==> c == (if r.hasStyle then COMMA else RIGHT_CURLY) && (!r.hasStyle ==> r.argType == SIMPLE)
  {
    if name == [] || (c != COMMA && c != RIGHT_CURLY) then BadHeader(PATTERN_SYNTAX_ERROR)
    else if |name| > MAX_LENGTH then BadHeader(INDEX_OUTOFBOUNDS_ERROR)
    else
      var argType := TypeOf(name);
      if c == RIGHT_CURLY && argType != SIMPLE then BadHeader(PATTERN_SYNTAX_ERROR)
      else
        var event := if argType == SIMPLE then Marked(name, ARG_TYPE, |name|, 0) else Plain(name);
        Header([Plain(white), event, Plain(white1)], argType, c == COMMA, |white| + |name| + |white1|)
  }

  // ---------- simple styles ----------

  datatype Style = Unclosed | UnclosedQuote | Style(length: nat)

  /** The style text ends at the brace that closes the argument; quoted braces do not count. */
  function SimpleStyleLength(s: Text, nestedBraces: nat, quoted: bool): (r: Style)
    ensures r.Style? ==> r.length < |s| && s[r.length] == RIGHT_CURLY
    decreases |s|
  {
    if s == [] then (if quoted then UnclosedQuote else Unclosed)
    else if quoted then OneMore(SimpleStyleLength(s[1..], nestedBraces, s[0] != APOS))
    else if s[0] == APOS then OneMore(SimpleStyleLength(s[1..], nestedBraces, true))
    else if s[0] == LEFT_CURLY then OneMore(SimpleStyleLength(s[1..], nestedBraces + 1, false))
    else if s[0] == RIGHT_CURLY && nestedBraces == 0 then Style(0)
    else if s[0] == RIGHT_CURLY then OneMore(SimpleStyleLength(s[1..], nestedBraces - 1, false))
    else OneMore(SimpleStyleLength(s[1..], nestedBraces, false))
  }

  function OneMore(r: Style): Style {
    if r.Style? then Style(r.length + 1) else r
  }

  function ParseSimpleStyle(s: Text, doubles: nat): (r: Parsed)
    ensures r.Ok? ==> |r.rest| <= |s| && r.rest != [] && r.rest[0] == RIGHT_CURLY
  {
    match SimpleStyleLength(s, 0, false)
    case Unclosed => Err(UNMATCHED_BRACES)
    case UnclosedQuote => Err(PATTERN_SYNTAX_ERROR)
    case Style(n) =>
      if n > MAX_LENGTH then Err(INDEX_OUTOFBOUNDS_ERROR)
      else Ok([Marked(s[..n], ARG_STYLE, n, 0)], s[n..], doubles)
  }

  // ---------- messages ----------

  /** Whether this character after an apostrophe starts quoted text. */
  predicate StartsQuote(cx: Context, parent: ArgType, c: int) {
    || cx.doubleRequired
    || c == LEFT_CURLY || c == RIGHT_CURLY
    || (parent == CHOICE && c == PIPE)
    || (HasPluralStyle(parent) && c == POUND)
  }

  predicate EndsMessage(level: nat, parent: ArgType, c: int) {
    (level > 0 && c == RIGHT_CURLY) || (parent == CHOICE && c == PIPE)
  }

  function LimitEvent(text: Text, length: nat, level: nat): Event {
    Marked(text, MSG_LIMIT, length, level)
  }

  const DOUBLE_APOS: Event := Event([APOS, APOS], 1, Some(Mark(SKIP_SYNTAX, 1, 0, 0)))
  const QUOTE: Event := Event([APOS], 0, Some(Mark(SKIP_SYNTAX, 1, 0, 0)))
  const LONE_APOS: Event := Event([APOS], 1, Some(Mark(INSERT_CHAR, 0, APOS, 0)))
  const MISSING_APOS: Event := Event([], 0, Some(Mark(INSERT_CHAR, 0, APOS, 0)))
  const NUMBER_SIGN: Event := Event([POUND], 0, Some(Mark(REPLACE_NUMBER, 1, 0, 0)))

  /** The number of parts. */
  function PartCount(events: seq<Event>): nat {
    if events == [] then 0 else PartCount(events[..|events| - 1]) + if events[|events| - 1].mark.Some? then 1 else 0
  }

  datatype Token = Token(event: Event, quoted: bool) | ArgToken | LimitToken

  /** The next character or apostrophe syntax, and whether quoted text follows. */
  function TokenAt(cx: Context, s: Text, level: nat, parent: ArgType, quoted: bool): (r: Token)
    requires s != []
    ensures r.Token? ==> r.event.text != [] && r.event.text <= s
    ensures r.ArgToken? ==> s[0] == LEFT_CURLY
    ensures r.LimitToken? ==> EndsMessage(level, parent, s[0])
  {
    if quoted then
      if s[0] != APOS then Token(Plain([s[0]]), true)
      else if |s| > 1 && s[1] == APOS then Token(DOUBLE_APOS, true)
      else Token(QUOTE, false)
    else if s[0] == APOS then
      if |s| == 1 then Token(LONE_APOS, false)
      else if s[1] == APOS then Token(DOUBLE_APOS, false)
      else if StartsQuote(cx, parent, s[1]) then Token(QUOTE, true)
      else Token(LONE_APOS, false)
    else if HasPluralStyle(parent) && s[0] == POUND then Token(NUMBER_SIGN, false)
    else if s[0] == LEFT_CURLY then ArgToken
    else if EndsMessage(level, parent, s[0]) then LimitToken
    else Token(Plain([s[0]]), false)
  }

  /** The content of a message and its limit. */
  function ParseContent(cx: Context, s: Text, level: nat, parent: ArgType, quoted: bool, doubles: nat): (r: Parsed)
    requires level > 0 || cx.inMessage
    ensures r.Ok? ==> |r.rest| <= |s| && IsAfterContent(cx, level, parent, r.rest)
    decreases |s|, 2
  {
    if s == [] then Prepend(if quoted then [MISSING_APOS] else [], ParseEnd(cx, level, parent, doubles))
    else
      match TokenAt(cx, s, level, parent, quoted)
      case Token(event, quoted') =>
        Prepend([event], ParseContent(cx, s[|event.text|..], level, parent, quoted', doubles))
      case ArgToken => ParseArgAndContent(cx, s, level, parent, doubles)
      case LimitToken =>
        // A choice style sees the terminator itself.
        if parent == CHOICE then Ok([LimitEvent([], if s[0] == RIGHT_CURLY then 0 else 1, level)], s, doubles)
        else Ok([LimitEvent([s[0]], 1, level)], s[1..], doubles)
  }

  function ParseArgAndContent(cx: Context, s: Text, level: nat, parent: ArgType, doubles: nat): (r: Parsed)
    requires s != [] && s[0] == LEFT_CURLY && (level > 0 || cx.inMessage)
    ensures r.Ok? ==> |r.rest| <= |s| && IsAfterContent(cx, level, parent, r.rest)
    decreases |s|, 1
  {
    match ParseArg(cx, s, level, doubles)
    case Err(error) => Err(error)
    case Ok(events, rest, n) => Prepend(events, ParseContent(cx, rest, level, parent, false, n))
  }

  /**
    * A message in a choice style stops at a terminator; only the outermost one may
    * stop at the end. The message of a whole pattern always does.
    */
  predicate IsAfterContent(cx: Context, level: nat, parent: ArgType, rest: Text) {
    && (parent == CHOICE && level > 0 ==>
         if rest == [] then level == 1 && !cx.inMessage else rest[0] == PIPE || rest[0] == RIGHT_CURLY)
    && (parent == NONE && level == 0 ==> rest == [])
  }

  /** The end of the pattern ends only a message that no brace encloses. */
  function ParseEnd(cx: Context, level: nat, parent: ArgType, doubles: nat): Parsed {
    if level > 0 && !(level == 1 && parent == CHOICE && !cx.inMessage) then Err(UNMATCHED_BRACES)
    else Ok([LimitEvent([], 0, level)], [], doubles)
  }

  /** A whole message; the first startLength characters open it. */
  function ParseMessage(cx: Context, s: Text, startLength: nat, level: nat, parent: ArgType, doubles: nat): (r: Parsed)
    requires level > 0 || cx.inMessage
    requires startLength <= |s|
    ensures r.Ok? ==> |r.rest| <= |s| - startLength && IsAfterContent(cx, level, parent, r.rest)
    decreases |s|, 3
  {
    if level > MAX_VALUE then Err(INDEX_OUTOFBOUNDS_ERROR)
    else
      match ParseContent(cx, s[startLength..], level, parent, false, doubles)
      case Err(error) => Err(error)
      case Ok(events, rest, n) =>
        Ok([Event(s[..startLength], 0, Some(Mark(MSG_START, startLength, level, PartCount(events))))] + events, rest, n)
  }

  /** A whole pattern. */
  function ParsePattern(cx: Context, s: Text): (r: Parsed)
    requires cx.inMessage
    ensures r.Ok? ==> r.rest == []
  {
    ParseMessage(cx, s, 0, 0, NONE, 0)
  }

  // ---------- arguments ----------

  function ArgEvents(argType: ArgType, inner: seq<Event>): seq<Event> {
    [Event([LEFT_CURLY], 0, Some(Mark(ARG_START, 1, TypeValue(argType), PartCount(inner) + 1)))] + inner +
    [Marked([RIGHT_CURLY], ARG_LIMIT, 1, TypeValue(argType))]
  }

  /** An argument, from brace to brace. */
  function ParseArg(cx: Context, s: Text, level: nat, doubles: nat): (r: Parsed)
    requires s != [] && s[0] == LEFT_CURLY
    requires level > 0 || cx.inMessage
    ensures r.Ok? ==> |r.rest| < |s|
    decreases |s|, 0
  {
    match ParseHeader(cx, s[1..])
    case BadHeader(error) => Err(error)
    case Header(events, argType, hasStyle, length) =>
      var rest := s[2 + length..];
      if !hasStyle then Ok(ArgEvents(argType, events), rest, doubles)
      else
        match ParseStyle(cx, argType, rest, level, doubles)
        case Err(error) => Err(error)
        case Ok(style, after, n) => Ok(ArgEvents(argType, events + ([Plain([COMMA])] + style)), after[1..], n)
  }

  function ParseStyle(cx: Context, argType: ArgType, s: Text, level: nat, doubles: nat): (r: Parsed)
    requires level > 0 || cx.inMessage
    ensures r.Ok? ==> |r.rest| <= |s| && r.rest != [] && r.rest[0] == RIGHT_CURLY
    decreases |s|, 9
  {
    if argType == CHOICE then ParseChoiceStyle(cx, s, level, doubles)
    else if argType == NONE || argType == SIMPLE then ParseSimpleStyle(s, doubles)
    else ParsePluralOrSelectStyle(cx, argType, s, level, true, false, doubles)
  }

  predicate InMessageFormatPattern(cx: Context, level: nat) {
    level > 0 || cx.inMessage
  }

  function ParseChoiceStyle(cx: Context, s: Text, level: nat, doubles: nat): (r: Parsed)
    ensures r.Ok? ==> |r.rest| <= |s|
    ensures r.Ok? && InMessageFormatPattern(cx, level) ==> r.rest != [] && r.rest[0] == RIGHT_CURLY
    decreases |s|, 6
  {
    var w := PrefixLength(cx.isWhiteSpace, s);
    if w == |s| || s[w] == RIGHT_CURLY then Err(PATTERN_SYNTAX_ERROR)
    else Prepend([Plain(s[..w])], ParseChoices(cx, s[w..], level, doubles))
  }

  /** What comes before a message in a complex style. */
  datatype Front =
    | BadFront(error: Error)
    | Front(events: seq<Event>, length: nat, doubles: nat, isOffset: bool, isOther: bool)

  /** A number and a separator. */
  function ChoiceFront(cx: Context, s: Text, doubles: nat): (r: Front)
    ensures r.Front? ==> 1 <= r.length <= |s|
  {
    var n := PrefixLength(IsDoubleChar, s);
    if n == 0 then BadFront(PATTERN_SYNTAX_ERROR)
    else if n > MAX_LENGTH then BadFront(INDEX_OUTOFBOUNDS_ERROR)
    else
      match ParseDouble(cx, s[..n], true, doubles)
      case Err(error) => BadFront(error)
      case Ok(number, _, doubles1) =>
        var w := n + PrefixLength(cx.isWhiteSpace, s[n..]);
        if w == |s| || !(s[w] == POUND || s[w] == LESS_THAN || s[w] == LESS_OR_EQUAL) then BadFront(PATTERN_SYNTAX_ERROR)
        else Front(number + [Plain(s[n..w])] + [Marked([s[w]], ARG_SELECTOR, 1, 0)], w + 1, doubles1, false, false)
  }

  /** Numbers, separators and messages, with vertical bars between. */
  function ParseChoices(cx: Context, s: Text, level: nat, doubles: nat): (r: Parsed)
    ensures r.Ok? ==> |r.rest| <= |s|
    ensures r.Ok? && InMessageFormatPattern(cx, level) ==> r.rest != [] && r.rest[0] == RIGHT_CURLY
    decreases |s|, 5
  {
    match ChoiceFront(cx, s, doubles)
    case BadFront(error) => Err(error)
    case Front(events, length, doubles1, _, _) =>
      match ParseMessage(cx, s[length..], 0, level + 1, CHOICE, doubles1)
      case Err(error) => Err(error)
      case Ok(message, rest, doubles2) => Prepend(events + message, ParseMoreChoices(cx, rest, level, doubles2))
  }

  /** After the message of a choice: the end of the style, or a vertical bar. */
  function ParseMoreChoices(cx: Context, s: Text, level: nat, doubles: nat): (r: Parsed)
    requires IsAfterContent(cx, level + 1, CHOICE, s)
    ensures r.Ok? ==> |r.rest| <= |s|
    ensures r.Ok? && InMessageFormatPattern(cx, level) ==> r.rest != [] && r.rest[0] == RIGHT_CURLY
    decreases |s|, 6
  {
    if s == [] then Ok([], s, doubles)
    else if s[0] == RIGHT_CURLY then
      if InMessageFormatPattern(cx, level) then Ok([], s, doubles) else Err(PATTERN_SYNTAX_ERROR)
    else
      var w := 1 + PrefixLength(cx.isWhiteSpace, s[1..]);
      Prepend([Plain(s[..w])], ParseChoices(cx, s[w..], level, doubles))
  }

  /** An explicit value, an offset or a word; at least one character. */
  function SelectorFront(cx: Context, argType: ArgType, t: Text, isEmpty: bool, doubles: nat): (r: Front)
    requires t != []
    ensures r.Front? ==> 1 <= r.length <= |t|
  {
    if HasPluralStyle(argType) && t[0] == EQUAL then
      var n := 1 + PrefixLength(IsDoubleChar, t[1..]);
      if n == 1 then BadFront(PATTERN_SYNTAX_ERROR)
      else if n > MAX_LENGTH then BadFront(INDEX_OUTOFBOUNDS_ERROR)
      else
        match ParseDouble(cx, t[1..n], false, doubles)
        case Err(error) => BadFront(error)
        case Ok(number, _, doubles1) => Front([Marked([EQUAL], ARG_SELECTOR, n, 0)] + number, n, doubles1, false, false)
    else
      var n := PrefixLength(cx.isIdentifierPart, t);
      if n == 0 then BadFront(PATTERN_SYNTAX_ERROR)
      else if HasPluralStyle(argType) && n == 6 && OFFSET_COLON <= t then
        if !isEmpty then BadFront(PATTERN_SYNTAX_ERROR) else OffsetFront(cx, t[..7], t[7..], doubles)
      else if n > MAX_LENGTH then BadFront(INDEX_OUTOFBOUNDS_ERROR)
      else Front([Marked(t[..n], ARG_SELECTOR, n, 0)], n, doubles, false, t[..n] == OTHER_NAME)
  }

  /** The value of an offset. */
  function OffsetFront(cx: Context, keyword: Text, t: Text, doubles: nat): (r: Front)
    ensures r.Front? ==> |keyword| <= r.length <= |keyword| + |t| && r.isOffset && !r.isOther
  {
    var v := PrefixLength(cx.isWhiteSpace, t);
    var m := v + PrefixLength(IsDoubleChar, t[v..]);
    if m == v then BadFront(PATTERN_SYNTAX_ERROR)
    else if m - v > MAX_LENGTH then BadFront(INDEX_OUTOFBOUNDS_ERROR)
    else
      match ParseDouble(cx, t[v..m], false, doubles)
      case Err(error) => BadFront(error)
      case Ok(number, _, doubles1) =>
        Front([Plain(keyword)] + ([Plain(t[..v])] + number), |keyword| + m, doubles1, true, false)
  }

  /** Selectors with messages, after an optional offset. */
  function ParsePluralOrSelectStyle(cx: Context, argType: ArgType, s: Text, level: nat, isEmpty: bool, hasOther: bool, doubles: nat): (r: Parsed)
    ensures r.Ok? ==> |r.rest| <= |s|
    ensures r.Ok? && InMessageFormatPattern(cx, level) ==> r.rest != [] && r.rest[0] == RIGHT_CURLY
    decreases |s|, 8
  {
    var w := PrefixLength(cx.isWhiteSpace, s);
    var t := s[w..];
    if t == [] || t[0] == RIGHT_CURLY then
      if (t == []) == InMessageFormatPattern(cx, level) then Err(PATTERN_SYNTAX_ERROR)
      else if !hasOther then Err(DEFAULT_KEYWORD_MISSING)
      else Ok([Plain(s[..w])], t, doubles)
    else Prepend([Plain(s[..w])], ParseSelector(cx, argType, t, level, isEmpty, hasOther, doubles))
  }

  function ParseSelector(cx: Context, argType: ArgType, t: Text, level: nat, isEmpty: bool, hasOther: bool, doubles: nat): (r: Parsed)
    requires t != []
    ensures r.Ok? ==> |r.rest| <= |t|
    ensures r.Ok? && InMessageFormatPattern(cx, level) ==> r.rest != [] && r.rest[0] == RIGHT_CURLY
    decreases |t|, 7
  {
    match SelectorFront(cx, argType, t, isEmpty, doubles)
    case BadFront(error) => Err(error)
    case Front(events, length, doubles1, isOffset, isOther) =>
      if isOffset then Prepend(events, ParsePluralOrSelectStyle(cx, argType, t[length..], level, false, hasOther, doubles1))
      else Prepend(events, ParseSelected(cx, argType, t[length..], level, hasOther || isOther, doubles1))
  }

  /** The message for a selector, and what follows it. */
  function ParseSelected(cx: Context, argType: ArgType, s: Text, level: nat, hasOther: bool, doubles: nat): (r: Parsed)
    ensures r.Ok? ==> |r.rest| <= |s|
    ensures r.Ok? && InMessageFormatPattern(cx, level) ==> r.rest != [] && r.rest[0] == RIGHT_CURLY
    decreases |s|, 6
  {
    var w := PrefixLength(cx.isWhiteSpace, s);
    if w == |s| || s[w] != LEFT_CURLY then Err(PATTERN_SYNTAX_ERROR)
    else
      match ParseMessage(cx, s[w..], 1, level + 1, argType, doubles)
      case Err(error) => Err(error)
      case Ok(message, rest, doubles1) =>
        Prepend([Plain(s[..w])] + message, ParsePluralOrSelectStyle(cx, argType, rest, level, false, hasOther, doubles1))
  }
}
