/** Numbers in message patterns: what the parser makes of the numerals of the syntax, and which texts are numerals. */
module MessageNumerals {
  import opened MessageGrammar
  import opened MessageEvents
  import opened MessageSyntax

  /** The characters of the syntax by their code units. */
  lemma SyntaxChars()
    ensures Chars("'") == [APOS] && Chars("''") == [APOS, APOS] && Chars("#") == [POUND] && Chars(",") == [COMMA]
    ensures Chars("{") == [LEFT_CURLY] && Chars("}") == [RIGHT_CURLY] && Chars("|") == [PIPE] && Chars("=") == [EQUAL]
    ensures Chars("+") == [PLUS] && Chars("-") == [MINUS] && Chars("\U{221E}") == [INFINITY]
  {
  }

  lemma SyntaxWords()
    ensures Chars("offset:") == OFFSET_COLON && Chars("other") == OTHER_NAME
  {
  }

  lemma NumberChars(c: int)
    ensures IsNumberChar(c) <==> IsDoubleChar(c)
  {
    var s := Chars("+-.eE\U{221E}");
    assert s == [PLUS, MINUS, DOT, 0x65, 0x45, INFINITY];
  }

  // ---------- decimal digits ----------

  lemma DigitsSnoc(d: Text, c: int)
    ensures DigitsValue(d + [c]) == DigitsValue(d) * 10 + (c - 0x30)
    ensures AllDigits(d + [c]) <==> AllDigits(d) && IsDigit(c)
  {
    var s := d + [c];
    assert s[..|s| - 1] == d;
    assert s[|s| - 1] == c;
    assert forall i :: 0 <= i < |d| ==> s[i] == d[i];
  }

  lemma {:induction false} DecimalIsRead(n: nat)
    ensures Decimal(n) != [] && AllDigits(Decimal(n)) && DigitsValue(Decimal(n)) == n
    ensures n > 0 ==> Decimal(n)[0] != 0x30
    ensures n == 0 ==> Decimal(n) == [0x30]
  {
    if n < 10 {
      assert Decimal(n) == [] + [0x30 + n];
      DigitsSnoc([], 0x30 + n);
      assert DigitsValue([]) == 0;
    } else {
      var c := 0x30 + n % 10;
      DecimalIsRead(n / 10);
      DigitsSnoc(Decimal(n / 10), c);
      assert IsDigit(c) && n == n / 10 * 10 + (c - 0x30);
      DecimalStarts(n, c);
    }
  }

  lemma DecimalStarts(n: nat, c: int)
    requires n >= 10 && c == 0x30 + n % 10 && Decimal(n / 10) != []
    ensures Decimal(n) == Decimal(n / 10) + [c] && Decimal(n)[0] == Decimal(n / 10)[0]
  {
  }

  lemma {:induction false} LeadingZeros(zeros: nat, d: Text)
    requires AllDigits(d)
    ensures AllDigits(Zeros(zeros) + d) && DigitsValue(Zeros(zeros) + d) == DigitsValue(d)
    decreases |d|, zeros
  {
    if d == [] {
      if zeros > 0 {
        LeadingZeros(zeros - 1, []);
        assert Zeros(zeros) + [] == (Zeros(zeros - 1) + []) + [0x30];
        DigitsSnoc(Zeros(zeros - 1) + [], 0x30);
      } else {
        assert Zeros(0) + d == d;
      }
    } else {
      var n := |d| - 1;
      assert d == d[..n] + [d[n]];
      LeadingZeros(zeros, d[..n]);
      assert Zeros(zeros) + d == (Zeros(zeros) + d[..n]) + [d[n]];
      DigitsSnoc(Zeros(zeros) + d[..n], d[n]);
    }
  }

  /** Every string of digits is a decimal number after some zeros. */
  lemma {:induction false} DigitsAreDecimal(d: Text) returns (zeros: nat)
    requires d != [] && AllDigits(d)
    ensures DigitsValue(d) >= 0 && d == Zeros(zeros) + Decimal(DigitsValue(d))
  {
    var n := |d| - 1;
    var c := d[n];
    assert d == d[..n] + [c];
    DigitsSnoc(d[..n], c);
    if n == 0 {
      assert d == [c];
      assert DigitsValue(d[..0]) == 0;
      zeros := 0;
      assert Decimal(c - 0x30) == [c];
      assert Zeros(0) + [c] == [c];
    } else {
      var zeros' := DigitsAreDecimal(d[..n]);
      var v := DigitsValue(d[..n]);
      if v == 0 {
        zeros := zeros' + 1;
        assert Decimal(0) == [0x30] && Decimal(c - 0x30) == [c];
        assert Zeros(zeros') + [0x30] == Zeros(zeros);
      } else {
        zeros := zeros';
        var w := v * 10 + (c - 0x30);
        assert w / 10 == v && w % 10 == c - 0x30;
        assert Decimal(w) == Decimal(v) + [c];
        Assoc(Zeros(zeros), Decimal(v), [c]);
      }
    }
  }

  // ---------- argument numbers ----------

  /** A number is read unless all but its last digit are INT32_MAX / 10 or more. */
  lemma NumberedIsRead(n: nat)
    ensures ArgNumber(Decimal(n)) == if n < 2147483640 then n else ARG_NAME_NOT_VALID
    ensures n < 2147483640 ==> |Decimal(n)| <= MAX_LENGTH
  {
    hide AllDigits, Decimal;
    DecimalIsRead(n);
    var s := Decimal(n);
    if n >= 10 {
      DecimalIsRead(n / 10);
      DecimalStarts(n, 0x30 + n % 10);
      assert s[..|s| - 1] == Decimal(n / 10);
    } else {
      OneDigit(n);
      assert s[..0] == [];
    }
    if n < 2147483640 {
      ShortDecimal(n);
    }
  }

  lemma OneDigit(n: nat)
    requires n < 10
    ensures |Decimal(n)| == 1
  {
  }

  function TenTo(k: nat): nat {
    if k == 0 then 1 else 10 * TenTo(k - 1)
  }

  lemma {:induction false} Shorter(n: nat, k: nat)
    requires k > 0 && n < TenTo(k)
    ensures |Decimal(n)| <= k
  {
    if n >= 10 {
      Shorter(n / 10, k - 1);
    }
  }

  lemma ShortDecimal(n: nat)
    requires n < 10000000000
    ensures |Decimal(n)| <= 10
  {
    assert TenTo(5) == 100000;
    assert TenTo(10) == 10000000000;
    Shorter(n, 10);
  }

  lemma NumbersAreDecimal(s: Text)
    requires ArgNumber(s) >= 0
    ensures s == Decimal(ArgNumber(s))
  {
    var zeros := DigitsAreDecimal(s);
    DecimalIsRead(DigitsValue(s));
    var c := s[0];
    assert zeros > 0 ==> c == 0x30;
    assert zeros == 0 && Zeros(0) == [];
  }

  // ---------- numerals ----------

  function NumberFor(n: Numeral): Number {
    match n
    case Small(sign, _, magnitude) => Int(if sign == Minus then -(magnitude as int) else magnitude)
    case _ => Double
  }

  lemma SignIsRead(sign: Sign, digits: Text)
    requires digits != [] && digits[0] != PLUS && digits[0] != MINUS
    ensures var s := PrintSign(sign) + digits;
            && (if HasSign(s) then s[1..] else s) == digits
            && (s[0] == MINUS <==> sign == Minus)
  {
    SyntaxChars();
    var s := PrintSign(sign) + digits;
    if sign != NoSign {
      assert s[1..] == digits;
    } else {
      assert s == digits;
    }
  }

  lemma SmallIsRead(cx: Context, sign: Sign, zeros: nat, magnitude: nat, allowInfinity: bool)
    requires IsSmall(sign, magnitude)
    ensures var n := Small(sign, zeros, magnitude);
            && PrintNumeral(n) != [] && NumberOf(cx, PrintNumeral(n), allowInfinity) == NumberFor(n)
  {
    DecimalIsRead(magnitude);
    var digits := Zeros(zeros) + Decimal(magnitude);
    LeadingZeros(zeros, Decimal(magnitude));
    assert IsDigit(digits[0]);
    SignIsRead(sign, digits);
  }

  lemma RealIsRead(cx: Context, text: Text, allowInfinity: bool)
    requires IsNumeral(cx, Real(text), allowInfinity)
    ensures NumberOf(cx, text, allowInfinity) == Double
  {
    SignChars();
    var digits := Unsigned(text);
    assert digits == if HasSign(text) then text[1..] else text;
    if AllDigits(digits) && DigitsValue(digits) <= MAX_VALUE + (if text[0] == MINUS then 1 else 0) {
      SmallIsPrinted(text);
      assert false;
    }
  }

  lemma SmallIsPrinted(text: Text)
    requires text != [] && Unsigned(text) != [] && AllDigits(Unsigned(text))
    requires DigitsValue(Unsigned(text)) <= MAX_VALUE + if text[0] == MINUS then 1 else 0
    ensures PrintsSmall(text)
  {
    var zeros := DigitsAreDecimal(Unsigned(text));
    var sign := SignOf(text);
    var magnitude := DigitsValue(Unsigned(text));
    assert IsSmall(sign, magnitude) && PrintNumeral(Small(sign, zeros, magnitude)) == text;
  }

  lemma SignChars()
    ensures Chars("+-") == [PLUS, MINUS]
  {
  }

  lemma SignOf(text: Text) returns (sign: Sign)
    requires text != []
    ensures text == PrintSign(sign) + Unsigned(text)
    ensures sign == Minus <==> text[0] == MINUS
    ensures Unsigned(text) == if HasSign(text) then text[1..] else text
  {
    SyntaxChars();
    SignChars();
    sign := if text[0] == MINUS then Minus else if text[0] == PLUS then Plus else NoSign;
    if sign != NoSign {
      assert text == [text[0]] + text[1..];
    } else {
      assert text == [] + text;
    }
  }

  lemma InfiniteIsRead(cx: Context, sign: Sign)
    ensures PrintNumeral(Infinite(sign)) != [] && NumberOf(cx, PrintNumeral(Infinite(sign)), true) == Double
  {
    SyntaxChars();
    SignIsRead(sign, [INFINITY]);
  }

  lemma NumeralIsRead(cx: Context, n: Numeral, allowInfinity: bool)
    requires IsNumeral(cx, n, allowInfinity)
    ensures NumberOf(cx, PrintNumeral(n), allowInfinity) == NumberFor(n)
  {
    match n
    case Small(sign, zeros, magnitude) => SmallIsRead(cx, sign, zeros, magnitude, allowInfinity);
    case Infinite(sign) => InfiniteIsRead(cx, sign);
    case Real(text) => RealIsRead(cx, text, allowInfinity);
  }

  lemma NumeralChars(cx: Context, n: Numeral, allowInfinity: bool)
    requires IsNumeral(cx, n, allowInfinity)
    ensures PrintNumeral(n) != [] && forall i :: 0 <= i < |PrintNumeral(n)| ==> IsDoubleChar(PrintNumeral(n)[i])
  {
    var s := PrintNumeral(n);
    SyntaxChars();
    match n
    case Small(sign, zeros, magnitude) =>
      DecimalIsRead(magnitude);
      LeadingZeros(zeros, Decimal(magnitude));
    case Infinite(_) =>
    case Real(text) =>
      forall i | 0 <= i < |s| ensures IsDoubleChar(s[i]) {
        NumberChars(s[i]);
      }
  }

  function NumeralEvent(n: Numeral, reals: nat): Event {
    var s := PrintNumeral(n);
    match n
    case Small(sign, _, magnitude) => Marked(s, ARG_INT, |s|, if sign == Minus then -(magnitude as int) else magnitude)
    case _ => Marked(s, ARG_DOUBLE, |s|, reals)
  }

  lemma NumeralParses(cx: Context, n: Numeral, allowInfinity: bool, reals: nat)
    requires IsNumeral(cx, n, allowInfinity) && reals + NumeralReals(n) <= MAX_REALS
    ensures ParseDouble(cx, PrintNumeral(n), allowInfinity, reals) == Ok([NumeralEvent(n, reals)], [], reals + NumeralReals(n))
  {
    hide NumberOf, PrintNumeral, IsNumeral;
    NumeralIsRead(cx, n, allowInfinity);
  }

  /** A text that is read as a number is a numeral. */
  lemma NumberIsNumeral(cx: Context, s: Text, allowInfinity: bool) returns (n: Numeral)
    requires NumberOf(cx, s, allowInfinity) != Bad && |s| <= MAX_LENGTH
    requires forall i :: 0 <= i < |s| ==> IsDoubleChar(s[i])
    ensures IsNumeral(cx, n, allowInfinity) && PrintNumeral(n) == s
  {
    var sign := SignOf(s);
    var digits := Unsigned(s);
    if digits[0] == INFINITY {
      SyntaxChars();
      assert digits == [INFINITY];
      n := Infinite(sign);
    } else if AllDigits(digits) && DigitsValue(digits) <= MAX_VALUE + (if sign == Minus then 1 else 0) {
      var zeros := DigitsAreDecimal(digits);
      n := Small(sign, zeros, DigitsValue(digits));
    } else {
      n := Real(s);
      forall i | 0 <= i < |s| ensures IsNumberChar(s[i]) {
        NumberChars(s[i]);
      }
      NotSmall(cx, s, allowInfinity);
    }
  }

  lemma NotSmall(cx: Context, s: Text, allowInfinity: bool)
    requires !NumberOf(cx, s, allowInfinity).Int?
    ensures !PrintsSmall(s)
  {
    if PrintsSmall(s) {
      var sign, zeros, magnitude :| IsSmall(sign, magnitude) && PrintNumeral(Small(sign, zeros, magnitude)) == s;
      SmallIsRead(cx, sign, zeros, magnitude, allowInfinity);
      assert false;
    }
  }
}
