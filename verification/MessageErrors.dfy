/** Texts that are not patterns, and the errors that they get. */
module MessageErrors {
  import opened MessageGrammar
  import opened MessageEvents
  import opened MessageSyntax
  import opened MessageNumerals
  import opened MessagePrinting

  /** Items only: nothing is left open. */
  predicate IsClosed(m: Message) {
    m.Done? || (m.Next? && IsClosed(m.rest))
  }

  /** What goes wrong after well-formed items goes wrong for the whole text. */
  lemma {:induction false} FailsAfter(cx: Context, before: Message, s: Text, level: nat, parent: ArgType, reals: nat, e: Error)
    requires IsPatternContext(cx) && (level > 0 || cx.inMessage)
    requires IsClosed(before) && IsMessage(cx, before, level, parent, First(s)) && reals + Reals(before) <= MAX_REALS
    requires ParseContent(cx, s, level, parent, false, reals + Reals(before)) == Err(e)
    ensures ParseContent(cx, Print(before) + s, level, parent, false, reals) == Err(e)
    decreases before
  {
    hide ParseContent, IsItem, ItemEvents, PrintItem, ItemReals, IsPatternContext;
    if before.Done? {
      assert Print(before) + s == s;
    } else {
      Assoc(PrintItem(before.item), Print(before.rest), s);
      ItemLooksAhead(cx, before.item, level, parent, Print(before.rest), s);
      ItemParses(cx, before.item, level, parent, Print(before.rest) + s, reals);
      FailsAfter(cx, before.rest, s, level, parent, reals + ItemReals(before.item), e);
    }
  }

  /** The same for an argument in a whole pattern. */
  lemma ArgFails(cx: Context, before: Message, s: Text, e: Error)
    requires IsPatternContext(cx) && cx.inMessage && IsClosed(before)
    requires IsMessage(cx, before, 0, NONE, First(s)) && Reals(before) <= MAX_REALS
    requires s != [] && s[0] == LEFT_CURLY && ParseArg(cx, s, 0, Reals(before)) == Err(e)
    ensures ParsePattern(cx, Print(before) + s) == Err(e)
  {
    hide ParseArg, IsPatternContext, IsMessage, Print, Reals, IsClosed;
    assert TokenAt(cx, s, 0, NONE, false) == ArgToken;
    FailsAfter(cx, before, s, 0, NONE, 0, e);
    hide ParseContent;
    var t := Print(before) + s;
    assert t[0..] == t;
  }

  /** A message that the end of the text leaves open, inside an argument. */
  lemma UnclosedMessageFails(cx: Context, m: Message, level: nat, parent: ArgType, reals: nat)
    requires IsPatternContext(cx) && cx.inMessage && level > 0 && IsClosed(m)
    requires IsMessage(cx, m, level, parent, []) && reals + Reals(m) <= MAX_REALS
    ensures ParseContent(cx, Print(m), level, parent, false, reals) == Err(UNMATCHED_BRACES)
  {
    hide IsPatternContext, IsMessage, Print, Reals, IsClosed;
    FailsAfter(cx, m, [], level, parent, reals, UNMATCHED_BRACES);
    assert Print(m) + [] == Print(m);
  }

  /** A plural, select or selectordinal argument without a case for "other". */
  lemma MissingOtherFails(cx: Context, before: Message, arg: Item, after: Text)
    requires IsPatternContext(cx) && cx.inMessage && IsClosed(before) && IsMessage(cx, before, 0, NONE, Chars("{"))
    requires arg.Arg? && AreWhite(cx, arg.white) && IsId(cx, arg.id) && AreWhite(cx, arg.white1)
    requires arg.style.ComplexStyle? && IsStyleForm(cx, arg.style, 1) && !HasOther(arg.style.cases)
    requires Reals(before) + StyleReals(arg.style) <= MAX_REALS
    ensures ParsePattern(cx, Print(before) + (PrintItem(arg) + after)) == Err(DEFAULT_KEYWORD_MISSING)
  {
    hide IsPatternContext, IsMessage, Print, Reals, IsClosed, PrintItem, IsStyleForm, StyleReals, HasOther, Head, Tail, PrintId, HeadEvents, IsId,
         AreWhite, ParseHeader, EndsHead, ParsePluralOrSelectStyle, IdEvent, Chars, TailEvents;
    var style := arg.style;
    var s := PrintItem(arg) + after;
    var end := [RIGHT_CURLY] + after;
    var next := ([COMMA] + Tail(style)) + end;
    SyntaxChars();
    ArgText(arg, after);
    HeaderParses(cx, arg.white, arg.id, arg.white1, style, 1, next);
    var front := arg.white + (PrintId(arg.id) + (arg.white1 + Head(style)));
    AfterFour(arg.white, PrintId(arg.id), arg.white1, Head(style), next);
    assert s[1..] == arg.white + (PrintId(arg.id) + (arg.white1 + (Head(style) + next)));
    AfterComma(front, Tail(style), end);
    ComplexTailParses(cx, style, 0, end, Reals(before));
    ComplexType(cx, style);
    assert ParseArg(cx, s, 0, Reals(before)) == Err(DEFAULT_KEYWORD_MISSING);
    ArgFails(cx, before, s, DEFAULT_KEYWORD_MISSING);
  }

  lemma ComplexType(cx: Context, s: ArgStyle)
    requires s.ComplexStyle? && IsStyleForm(cx, s, 1)
    ensures s.argType == PLURAL || s.argType == SELECT || s.argType == SELECTORDINAL
  {
  }

  /** An argument that the end of the text leaves open after its name. */
  lemma UnclosedArgFails(cx: Context, before: Message, white: Text, id: ArgId, white1: Text)
    requires IsPatternContext(cx) && cx.inMessage && IsClosed(before) && IsMessage(cx, before, 0, NONE, Chars("{"))
    requires Reals(before) <= MAX_REALS && AreWhite(cx, white) && IsId(cx, id) && AreWhite(cx, white1)
    ensures ParsePattern(cx, Print(before) + (Chars("{") + (white + (PrintId(id) + white1)))) == Err(UNMATCHED_BRACES)
  {
    hide IsPatternContext, IsMessage, Print, Reals, IsClosed, IsId, PrintId, Chars, IdEvent, NameEvents, WordAt;
    SyntaxChars();
    IdParses(cx, id, white1);
    var name := PrintId(id);
    var inner := white + (name + white1);
    var s := [LEFT_CURLY] + inner;
    LastWord(cx, white, name, white1);
    Slice3(white, name, white1);
    assert s[1..] == inner;
    assert inner[|white| + |name|..|inner|] == white1 && inner[|inner|..] == [];
    assert ParseHeader(cx, inner) == BadHeader(UNMATCHED_BRACES);
    ArgFails(cx, before, s, UNMATCHED_BRACES);
  }

  lemma LastWord(cx: Context, white: Text, name: Text, white1: Text)
    requires IsPatternContext(cx) && AreWhite(cx, white) && IsIdentifier(cx, name) && AreWhite(cx, white1)
    ensures WordAt(cx.isWhiteSpace, cx.isIdentifierPart, white + (name + white1)) ==
            Word(|white|, |white| + |name|, |white| + |name| + |white1|)
  {
    hide IsPatternContext, PrefixLength;
    var s := white + (name + white1);
    ContextFacts(cx, name[0]);
    assert (name + white1)[0] == name[0];
    AllPrefix(cx.isWhiteSpace, white, name + white1);
    assert s[|white|..] == name + white1 && s[|white| + |name|..] == white1;
    if white1 != [] {
      ContextFacts(cx, white1[0]);
    }
    AllPrefix(cx.isIdentifierPart, name, white1);
    AllPrefix(cx.isWhiteSpace, white1, []);
    assert white1 + [] == white1;
  }

  /** The error for an argument number with leading zeros or above 32767; from 2147483640 on it is malformed too. */
  function NumberError(zeros: nat, n: nat): Error {
    if zeros > 0 || n >= 2147483640 then PATTERN_SYNTAX_ERROR else INDEX_OUTOFBOUNDS_ERROR
  }

  lemma BadNumberFails(cx: Context, before: Message, white: Text, zeros: nat, n: nat, after: Text)
    requires IsPatternContext(cx) && cx.inMessage && IsClosed(before) && IsMessage(cx, before, 0, NONE, Chars("{"))
    requires Reals(before) <= MAX_REALS && AreWhite(cx, white) && (after != [] ==> !cx.isIdentifierPart(after[0]))
    requires zeros > 0 || n > 32767
    ensures ParsePattern(cx, Print(before) + (Chars("{") + (white + ((Zeros(zeros) + Decimal(n)) + after)))) == Err(NumberError(zeros, n))
  {
    hide IsPatternContext, IsMessage, Print, Reals, IsClosed, Chars, Zeros, Decimal, NameEvents, WordAt, ParseAfterName;
    SyntaxChars();
    var name := Zeros(zeros) + Decimal(n);
    var inner := white + (name + after);
    var s := [LEFT_CURLY] + inner;
    var e := NumberError(zeros, n);
    var w := WordAt(cx.isWhiteSpace, cx.isIdentifierPart, inner);
    NumberWord(cx, white, zeros, n, after);
    assert inner[w.start..w.end] == name;
    BadNumber(zeros, n, inner[w.end..w.next]);
    assert s[1..] == inner;
    assert ParseHeader(cx, inner) == BadHeader(e);
    ArgFails(cx, before, s, e);
  }

  lemma NumberWord(cx: Context, white: Text, zeros: nat, n: nat, after: Text)
    requires IsPatternContext(cx) && AreWhite(cx, white) && (after != [] ==> !cx.isIdentifierPart(after[0]))
    ensures var name := Zeros(zeros) + Decimal(n);
            var w := WordAt(cx.isWhiteSpace, cx.isIdentifierPart, white + (name + after));
            name != [] && w.start == |white| && w.end == |white| + |name|
  {
    hide IsPatternContext, PrefixLength, Zeros, Decimal;
    DecimalIsRead(n);
    LeadingZeros(zeros, Decimal(n));
    var name := Zeros(zeros) + Decimal(n);
    forall i | 0 <= i < |name| ensures cx.isIdentifierPart(name[i]) && !cx.isWhiteSpace(name[i]) {
      assert IsDigit(name[i]);
      ContextFacts(cx, name[i]);
    }
    assert (name + after)[0] == name[0];
    AllPrefix(cx.isWhiteSpace, white, name + after);
    assert (white + (name + after))[|white|..] == name + after;
    AllPrefix(cx.isIdentifierPart, name, after);
  }

  lemma BadNumber(zeros: nat, n: nat, white1: Text)
    requires zeros > 0 || n > 32767
    ensures NameEvents(Zeros(zeros) + Decimal(n), white1) == BadHeader(NumberError(zeros, n))
  {
    hide Decimal, AllDigits, DigitsValue;
    var s := Zeros(zeros) + Decimal(n);
    if zeros > 0 {
      DecimalIsRead(n);
      LeadingZeros(zeros, Decimal(n));
      assert s[0] == 0x30 && |s| > 1;
    } else {
      assert s == Decimal(n);
      NumberedIsRead(n);
    }
  }
}
