/** Answers to equations: the number read from the client's bytes, and the verdict on it. */
module EqAnswer {
  import opened Common
  import opened Equation
  import opened EqPrint
  import opened EqRead

  const WHITE_SPACE := " \t\n\U{000B}\U{000C}\r"

  predicate IsSpace(c: char) {
    c == ' ' || ('\t' <= c <= '\r')
  }

  function Blanks(s: string): (k: nat)
    ensures k <= |s|
  {
    if s == [] || !IsSpace(s[0]) then 0 else 1 + Blanks(s[1..])
  }

  /** `mpz_inp_str` in base 10: white space, at most one minus sign, and all digits that follow; None when
      there is no digit. */
  function ReadNumber(bytes: string): Option<int> {
    var s := bytes[Blanks(bytes)..];
    var negative := s != [] && s[0] == '-';
    var t := if negative then s[1..] else s;
    var k := LeadingDigits(t);
    var n: int := Undigits(t[..k]);
    if k == 0 then None else Some(if negative then -n else n)
  }

  /** The bytes begin with a number: white space, a dash or nothing, and a row of numerals that does not go on. */
  ghost predicate BeginsWith(bytes: string, blanks: string, sign: string, digits: string, rest: string, n: int) {
    && bytes == blanks + (sign + (digits + rest))
    && (forall c :: c in blanks ==> c in WHITE_SPACE)
    && (sign == "" || sign == "-")
    && digits != "" && AllNumerals(digits) && (rest == "" || !IsNumeral(rest[0]))
    && var m: int := NumberOf(digits);
       n == if sign == "-" then -m else m
  }

  lemma {:induction false} UndigitsIsNumber(s: string)
    requires forall c :: c in s ==> IsDigit(c)
    ensures AllNumerals(s) && Undigits(s) == NumberOf(s)
  {
    if s != [] {
      NumeralIff(s[|s| - 1]);
      UndigitsIsNumber(s[..|s| - 1]);
      assert s == s[..|s| - 1] + [s[|s| - 1]];
    }
  }

  lemma {:induction false} BlanksOf(blanks: string, s: string)
    requires forall c :: c in blanks ==> IsSpace(c)
    requires s == [] || !IsSpace(s[0])
    ensures Blanks(blanks + s) == |blanks|
  {
    if blanks == [] {
      assert blanks + s == s;
    } else {
      assert (blanks + s)[1..] == blanks[1..] + s;
      BlanksOf(blanks[1..], s);
    }
  }

  lemma SpaceIff(c: char)
    ensures IsSpace(c) <==> c in WHITE_SPACE
  {
    assert WHITE_SPACE == [' ', '\t', '\n', '\U{000B}', '\U{000C}', '\r'];
    if '\t' <= c <= '\r' {
      assert c == WHITE_SPACE[(c - '\t') as nat + 1];
    } else if c == ' ' {
      assert c == WHITE_SPACE[0];
    }
  }

  lemma {:induction false} BlanksAreBlank(s: string)
    ensures forall c :: c in s[..Blanks(s)] ==> c in WHITE_SPACE
  {
    if s != [] && IsSpace(s[0]) {
      SpaceIff(s[0]);
      BlanksAreBlank(s[1..]);
      assert s[..Blanks(s)] == [s[0]] + s[1..][..Blanks(s[1..])];
    }
  }

  lemma {:induction false} DigitsStop(s: string)
    ensures LeadingDigits(s) < |s| ==> !IsDigit(s[LeadingDigits(s)])
  {
    if s != [] && IsDigit(s[0]) { DigitsStop(s[1..]); }
  }

  lemma AllDigits(s: string)
    ensures AllNumerals(s) <==> forall c :: c in s ==> IsDigit(c)
  {
    forall c | c in s
      ensures IsNumeral(c) <==> IsDigit(c)
    {
      NumeralIff(c);
    }
  }

  /** What `ReadNumber` finds is there. */
  lemma ReadNumberFinds(bytes: string) returns (blanks: string, sign: string, digits: string, rest: string)
    requires ReadNumber(bytes).Some?
    ensures BeginsWith(bytes, blanks, sign, digits, rest, ReadNumber(bytes).value)
  {
    hide NumberOf, Undigits, IsNumeral, LeadingDigits, Blanks, IsDigit, AllNumerals;
    var k := Blanks(bytes);
    var s := bytes[k..];
    blanks, sign := bytes[..k], if s != [] && s[0] == '-' then "-" else "";
    var t := if sign == "-" then s[1..] else s;
    var m := LeadingDigits(t);
    digits, rest := t[..m], t[m..];
    BlanksAreBlank(bytes);
    DigitsStop(t);
    if rest != [] { NumeralIff(rest[0]); }
    UndigitsIsNumber(digits);
    assert t == digits + rest && s == sign + t && bytes == blanks + s;
  }

  /** What is there it finds. */
  lemma FoundIsRead(bytes: string, blanks: string, sign: string, digits: string, rest: string, n: int)
    requires BeginsWith(bytes, blanks, sign, digits, rest, n)
    ensures ReadNumber(bytes) == Some(n)
  {
    hide NumberOf, Undigits, IsNumeral, Blanks, LeadingDigits;
    var s := sign + (digits + rest);
    AllDigits(digits);
    if rest != [] { NumeralIff(rest[0]); }
    forall c | c in blanks
      ensures IsSpace(c)
    {
      SpaceIff(c);
    }
    assert digits[0] in digits && s[0] == if sign == "-" then '-' else digits[0];
    BlanksOf(blanks, s);
    assert bytes[|blanks|..] == s;
    assert sign == "-" ==> s[1..] == digits + rest;
    assert sign == "" ==> s == digits + rest;
    LeadingDigitsOf(digits, rest);
    assert (digits + rest)[..|digits|] == digits;
    UndigitsIsNumber(digits);
  }

  /** A number is read exactly where the bytes begin with it; in particular none is read exactly where they begin
      with no number. */
  lemma ReadNumberIff(bytes: string, n: int)
    ensures ReadNumber(bytes) == Some(n)
       <==> exists blanks, sign, digits, rest :: BeginsWith(bytes, blanks, sign, digits, rest, n)
  {
    hide ReadNumber, BeginsWith;
    if ReadNumber(bytes) == Some(n) {
      var blanks, sign, digits, rest := ReadNumberFinds(bytes);
    }
    forall blanks, sign, digits, rest | BeginsWith(bytes, blanks, sign, digits, rest, n)
      ensures ReadNumber(bytes) == Some(n)
    {
      FoundIsRead(bytes, blanks, sign, digits, rest, n);
    }
  }

  /** The verdict of `eq_check` on an equation. */
  function Grade(e: Expression, bytes: string): AnswerState {
    if ReadNumber(bytes) == Some(ExpressionValue(e)) then Right else Wrong
  }

  /** Round trip: a number printed in decimal is read back, whatever white space comes before it and whatever
      comes after it, unless that is another digit. */
  lemma PrintedIsRead(blanks: string, n: int, rest: string)
    requires forall c :: c in blanks ==> IsSpace(c)
    requires rest == [] || !IsDigit(rest[0])
    ensures ReadNumber(blanks + Decimal(n) + rest) == Some(n)
  {
    var s := Decimal(n) + rest;
    DecimalSign(n);
    TailOfConcat(Decimal(n), rest);
    BlanksOf(blanks, s);
    assert blanks + Decimal(n) + rest == blanks + s;
    assert (blanks + s)[|blanks|..] == s;
    var digits := Digits(if n < 0 then -n else n);
    DigitsAreDigits(if n < 0 then -n else n);
    UndigitsDigits(if n < 0 then -n else n);
    LeadingDigitsOf(digits, rest);
    assert (digits + rest)[..|digits|] == digits;
  }

  /** The verdict is Right exactly when the number is what the text shown is worth, and Wrong otherwise. */
  lemma RightIffShown(e: Expression, bytes: string)
    ensures var shown := Text(FlattenExpression(e));
      && ValueOf(shown).Some?
      && (Grade(e, bytes) == Right <==> ReadNumber(bytes) == ValueOf(shown))
      && (Grade(e, bytes) == Wrong <==> ReadNumber(bytes) != ValueOf(shown))
  {
    hide ReadNumber, ValueOf, ExpressionValue, Text;
    ValueOfText(e);
  }

  /** The value of any equation with the text that is shown, typed as a line, is right. */
  lemma ValueIsRight(e: Expression, shown: Expression)
    requires Text(FlattenExpression(e)) == Text(FlattenExpression(shown))
    ensures Grade(shown, Decimal(ExpressionValue(e)) + "\n") == Right
  {
    hide ReadNumber, Text, Decimal, ExpressionValue;
    TextInjective(e, shown);
    PrintedIsRead([], ExpressionValue(e), "\n");
    assert [] + Decimal(ExpressionValue(e)) + "\n" == Decimal(ExpressionValue(e)) + "\n";
  }
}
