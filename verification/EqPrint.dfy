/** Sizing and printing an equation (eq.c). A C character is a `char`, a C buffer an array of them. */
module EqPrint {
  import opened Common
  import opened Equation
  import opened EqReckon
  import opened EqRead
  import EqSolve

  const NUL: char := '\0'

  // -------- Decimal notation, as `gmp_sprintf` with "%Zd" writes it --------

  function Digit(d: nat): char
    requires d < 10
  {
    '0' + d as char
  }

  predicate IsDigit(c: char) { '0' <= c <= '9' }

  function Digits(n: nat): (s: string)
    ensures s != []
  {
    if n < 10 then [Digit(n)] else Digits(n / 10) + [Digit(n % 10)]
  }

  function Decimal(n: int): (s: string)
    ensures s != []
  {
    if n < 0 then ['-'] + Digits(-n) else Digits(n)
  }

  function ElemText(e: Elem): (s: string)
    ensures s != []
  {
    match e
    case Br(Open) => "("
    case Br(Close) => ")"
    case Op(Plus) => "+"
    case Op(Minus) => "-"
    case Op(Times) => "*"
    case Nr(n) => Decimal(n)
  }

  function Text(chain: seq<Elem>): (s: string)
    ensures |s| >= |chain|
  {
    if chain == [] then "" else ElemText(chain[0]) + Text(chain[1..])
  }

  lemma {:induction false} DigitsAreDigits(n: nat)
    ensures forall c :: c in Digits(n) ==> IsDigit(c)
  {
    if n >= 10 { DigitsAreDigits(n / 10); }
  }

  /** The text never contains the character that ends a C string. */
  lemma {:induction false} TextHasNoNul(chain: seq<Elem>)
    ensures NUL !in Text(chain)
  {
    if chain != [] {
      if chain[0].Nr? { DigitsAreDigits(if chain[0].nr < 0 then -chain[0].nr else chain[0].nr); }
      TextHasNoNul(chain[1..]);
    }
  }

  lemma {:induction false} TextAppend(front: seq<Elem>, back: seq<Elem>)
    ensures Text(front + back) == Text(front) + Text(back)
  {
    if front == [] {
      assert front + back == back;
    } else {
      assert (front + back)[1..] == front[1..] + back;
      TextAppend(front[1..], back);
    }
  }

  /** Printing one more element. */
  lemma TextSplit(chain: seq<Elem>, i: nat)
    requires i < |chain|
    ensures Text(chain[..i + 1]) == Text(chain[..i]) + ElemText(chain[i])
    ensures |Text(chain[..i + 1])| <= |Text(chain)|
  {
    assert chain[..i + 1] == chain[..i] + [chain[i]];
    TextAppend(chain[..i], [chain[i]]);
    assert Text([chain[i]]) == ElemText(chain[i]);
    assert chain == chain[..i + 1] + chain[i + 1..];
    TextAppend(chain[..i + 1], chain[i + 1..]);
  }

  // -------- The size pass --------

  /** `int_len`: the number of characters of the decimal notation, or 0 when `size_t` overflows. */
  method IntLen(val: int) returns (len: nat)
    ensures len == if |Decimal(val)| <= SIZE_MAX then |Decimal(val)| else 0
  {
    if val == 0 { return 1; }
    len := 0;
    var t := val;
    if val < 0 {
      len := 1;
      t := -val;
    }
    while t != 0
      invariant t >= 0
      invariant len <= SIZE_MAX
      invariant len + (if t == 0 then 0 else |Digits(t)|) == |Decimal(val)|
      decreases t
    {
      t := t / 10;
      if len == SIZE_MAX { return 0; }   // ckd_add
      len := len + 1;
    }
  }

  /** `eq_calc_str_size`: room for the whole text and one NUL, or 0 when that is not a `size_t`. */
  method CalcStrSize(chain: seq<Elem>) returns (size: nat)
    ensures size == if |Text(chain)| + 1 <= SIZE_MAX then |Text(chain)| + 1 else 0
  {
    size := 1;
    for i := 0 to |chain|
      invariant size == |Text(chain[..i])| + 1 <= SIZE_MAX
    {
      TextSplit(chain, i);
      var elem := chain[i];
      if elem.Br? || elem.Op? {
        if size == SIZE_MAX { return 0; }   // ckd_add
        size := size + 1;
      } else {
        var intlen := IntLen(elem.nr);
        if intlen == 0 { return 0; }
        if size + intlen > SIZE_MAX { return 0; }   // ckd_add
        size := size + intlen;
      }
    }
    assert chain[..|chain|] == chain;
  }

  // -------- The text determines the equation --------

  function DigitValue(c: char): nat
    requires IsDigit(c)
  {
    (c - '0') as nat
  }

  function Undigits(s: string): nat
    requires forall c :: c in s ==> IsDigit(c)
  {
    if s == [] then 0 else 10 * Undigits(s[..|s| - 1]) + DigitValue(s[|s| - 1])
  }

  lemma {:induction false} UndigitsDigits(n: nat)
    ensures forall c :: c in Digits(n) ==> IsDigit(c)
    ensures Undigits(Digits(n)) == n
  {
    DigitsAreDigits(n);
    if n >= 10 {
      UndigitsDigits(n / 10);
      assert Digits(n)[..|Digits(n)| - 1] == Digits(n / 10);
    }
  }

  /** The number a printed number stands for is unique. */
  lemma {:induction false} DigitsInjective(a: nat, b: nat)
    requires Digits(a) == Digits(b)
    ensures a == b
  {
    UndigitsDigits(a);
    UndigitsDigits(b);
  }

  function LeadingDigits(s: string): (k: nat)
    ensures k <= |s| && forall c :: c in s[..k] ==> IsDigit(c)
  {
    if s == [] || !IsDigit(s[0]) then 0 else 1 + LeadingDigits(s[1..])
  }

  lemma {:induction false} LeadingDigitsOf(a: string, u: string)
    requires forall c :: c in a ==> IsDigit(c)
    requires u == [] || !IsDigit(u[0])
    ensures LeadingDigits(a + u) == |a|
  {
    if a == [] {
      assert a + u == u;
    } else {
      assert (a + u)[1..] == a[1..] + u;
      LeadingDigitsOf(a[1..], u);
    }
  }

  /** Digits up to the first other character are determined by the whole. */
  lemma {:induction false} DigitRunUnique(a: string, u: string, b: string, v: string)
    requires forall c :: c in a ==> IsDigit(c)
    requires forall c :: c in b ==> IsDigit(c)
    requires u == [] || !IsDigit(u[0])
    requires v == [] || !IsDigit(v[0])
    requires a + u == b + v
    ensures a == b && u == v
  {
    LeadingDigitsOf(a, u);
    LeadingDigitsOf(b, v);
    assert a == (a + u)[..|a|] && b == (b + v)[..|b|];
    assert u == (a + u)[|a|..] && v == (b + v)[|b|..];
  }

  /** After an operand, the text goes on with a bracket or an operator, or ends. */
  lemma AfterOperandNoDigit(chain: seq<Elem>, depth: nat)
    requires Scan(chain, depth, false) == Accepts([])
    ensures Text(chain) == [] || !IsDigit(Text(chain)[0])
  {
    if chain != [] {
      assert !chain[0].Nr?;
      assert Text(chain)[0] == ElemText(chain[0])[0];
    }
  }

  lemma DecimalSign(n: int)
    ensures if n < 0 then Decimal(n)[0] == '-' && Decimal(n)[1..] == Digits(-n) else IsDigit(Decimal(n)[0])
  {
    DigitsAreDigits(if n < 0 then -n else n);
    if n >= 0 { assert Digits(n)[0] in Digits(n); }
  }

  lemma TailOfConcat(s: string, t: string)
    requires s != []
    ensures (s + t)[0] == s[0] && (s + t)[1..] == s[1..] + t
  {
  }

  lemma NumberRunUnique(m: int, u: string, n: int, v: string)
    requires u == [] || !IsDigit(u[0])
    requires v == [] || !IsDigit(v[0])
    requires Decimal(m) + u == Decimal(n) + v
    ensures m == n && u == v
  {
    DecimalSign(m);
    DecimalSign(n);
    TailOfConcat(Decimal(m), u);
    TailOfConcat(Decimal(n), v);
    DigitsAreDigits(if m < 0 then -m else m);
    DigitsAreDigits(if n < 0 then -n else n);
    if m < 0 {
      DigitRunUnique(Digits(-m), u, Digits(-n), v);
      DigitsInjective(-m, -n);
    } else {
      DigitRunUnique(Digits(m), u, Digits(n), v);
      DigitsInjective(m, n);
    }
  }

  predicate Fits(e: Elem, operand: bool) {
    if operand then e.Nr? || e == Br(Open) else e.Op? || e == Br(Close)
  }

  /** At an operand position the first character separates numbers from brackets, elsewhere it is
      the whole element. */
  lemma FirstCharacter(d: Elem, e: Elem, operand: bool)
    requires Fits(d, operand) && Fits(e, operand) && ElemText(d)[0] == ElemText(e)[0]
    ensures d.Nr? == e.Nr?
    ensures !d.Nr? ==> d == e && |ElemText(d)| == 1
  {
    if d.Nr? { DecimalSign(d.nr); }
    if e.Nr? { DecimalSign(e.nr); }
  }

  lemma NumberHead(a: seq<Elem>, b: seq<Elem>, depth: nat)
    requires Scan(a, depth, true) == Accepts([]) && Scan(b, depth, true) == Accepts([])
    requires a != [] && b != [] && a[0].Nr? && b[0].Nr?
    requires Text(a) == Text(b)
    ensures a[0] == b[0] && Text(a[1..]) == Text(b[1..])
  {
    AfterOperandNoDigit(a[1..], depth);
    AfterOperandNoDigit(b[1..], depth);
    NumberRunUnique(a[0].nr, Text(a[1..]), b[0].nr, Text(b[1..]));
  }

  lemma AcceptedFits(a: seq<Elem>, depth: nat, operand: bool)
    requires Scan(a, depth, operand) == Accepts([]) && a != []
    ensures Fits(a[0], operand)
  {
  }

  lemma FitsNumber(e: Elem, operand: bool)
    requires Fits(e, operand) && e.Nr?
    ensures operand
  {
  }

  lemma TextHead(a: seq<Elem>)
    requires a != []
    ensures Text(a) != [] && Text(a)[0] == ElemText(a[0])[0]
    ensures |ElemText(a[0])| <= |Text(a)| && Text(a[1..]) == Text(a)[|ElemText(a[0])|..]
  {
  }

  /** Two accepted chains with the same text start with the same element. */
  lemma SameHead(a: seq<Elem>, b: seq<Elem>, depth: nat, operand: bool)
    requires Scan(a, depth, operand) == Accepts([]) && Scan(b, depth, operand) == Accepts([])
    requires a != [] && b != []
    requires Text(a) == Text(b)
    ensures a[0] == b[0] && Text(a[1..]) == Text(b[1..])
  {
    hide Scan, Text, ElemText, Fits;
    AcceptedFits(a, depth, operand);
    AcceptedFits(b, depth, operand);
    TextHead(a);
    TextHead(b);
    FirstCharacter(a[0], b[0], operand);
    if a[0].Nr? {
      FitsNumber(a[0], operand);
      NumberHead(a, b, depth);
    }
  }

  lemma {:induction false} TextInjectiveFrom(a: seq<Elem>, b: seq<Elem>, depth: nat, operand: bool)
    requires Scan(a, depth, operand) == Accepts([]) && Scan(b, depth, operand) == Accepts([])
    requires Text(a) == Text(b)
    ensures a == b
    decreases |a|
  {
    if a != [] && b != [] {
      SameHead(a, b, depth, operand);
      match a[0] {
        case Nr(_) => TextInjectiveFrom(a[1..], b[1..], depth, false);
        case Op(_) => TextInjectiveFrom(a[1..], b[1..], depth, true);
        case Br(Open) => TextInjectiveFrom(a[1..], b[1..], depth + 1, true);
        case Br(Close) => TextInjectiveFrom(a[1..], b[1..], depth - 1, false);
      }
      assert a == [a[0]] + a[1..] && b == [b[0]] + b[1..];
    }
  }

  /** The text shown fixes the equation, and with it the answer. */
  lemma {:induction false} TextInjective(a: Expression, b: Expression)
    requires Text(FlattenExpression(a)) == Text(FlattenExpression(b))
    ensures a == b
  {
    EqSolve.SentenceIffScan(FlattenExpression(a));
    EqSolve.SentenceIffScan(FlattenExpression(b));
    TextInjectiveFrom(FlattenExpression(a), FlattenExpression(b), 0, true);
    EqSolve.GrammarUnambiguous(a, [], b, []);
  }

  /** On chains that are not sentences it does not: a number directly behind an operand prints like
      one longer number, or like a subtraction. */
  lemma TextNotInjectiveOnAllChains()
    ensures Text([Nr(1), Nr(2)]) == Text([Nr(12)])
    ensures Text([Nr(1), Nr(-2)]) == Text([Nr(1), Op(Minus), Nr(2)])
  {
    assert Digits(12) == Digits(1) + [Digit(2)];
    assert Decimal(-2) == ['-'] + Digits(2);
  }

  // -------- What the text says to a reader --------

  lemma NumeralIff(c: char)
    ensures IsNumeral(c) <==> IsDigit(c)
    ensures IsNumeral(c) ==> NumeralValue(c) == DigitValue(c)
  {
    if IsDigit(c) { assert c == "0123456789"[(c - '0') as nat]; }
  }

  /** A printed number means that number. */
  lemma {:induction false} NumberOfDigits(n: nat)
    ensures AllNumerals(Digits(n)) && NumberOf(Digits(n)) == n
  {
    var s := Digits(n);
    NumeralIff(Digit(n % 10));
    if n >= 10 {
      NumberOfDigits(n / 10);
      assert s[..|s| - 1] == Digits(n / 10);
    }
  }

  lemma ReadNumberFirst(n: int, rest: string)
    requires rest == [] || !IsNumeral(rest[0])
    ensures ReadFrom(Decimal(n) + rest, true) == Then(Nr(n), ReadFrom(rest, false))
  {
    hide ReadFrom, NumberOf, IsNumeral, Digits;
    var m := if n < 0 then -n else n;
    NumberOfDigits(m);
    ReadNumerals(Digits(m), rest);
    if n < 0 {
      assert Decimal(n) + rest == "-" + (Digits(m) + rest);
    }
  }

  lemma ReadSymbolFirst(e: Elem, rest: string, operand: bool)
    requires Fits(e, operand) && !e.Nr?
    ensures ReadFrom(ElemText(e) + rest, operand) == Then(e, ReadFrom(rest, e.Op? || e == Br(Open)))
  {
    hide ReadFrom;
    ReadSymbols(rest);
  }

  lemma ElemTextNumber(n: int)
    ensures ElemText(Nr(n)) == Decimal(n)
  {
  }

  /** Every chain that the scan accepts to its end is read back from its text, negative numbers included. */
  lemma {:induction false} ReadsBackFrom(w: seq<Elem>, depth: nat, operand: bool)
    requires Scan(w, depth, operand) == Accepts([])
    ensures ReadFrom(Text(w), operand) == Some(w)
    decreases |w|
  {
    hide ReadFrom, ElemText;
    if w == [] {
      ReadEmpty(operand);
    } else {
      var e, rest := w[0], w[1..];
      AcceptedFits(w, depth, operand);
      match e {
        case Nr(n) =>
          ReadsBackFrom(rest, depth, false);
          AfterOperandNoDigit(rest, depth);
          if Text(rest) != [] { NumeralIff(Text(rest)[0]); }
          ElemTextNumber(n);
          ReadNumberFirst(n, Text(rest));
        case Op(_) =>
          ReadsBackFrom(rest, depth, true);
          ReadSymbolFirst(e, Text(rest), operand);
        case Br(Open) =>
          ReadsBackFrom(rest, depth + 1, true);
          ReadSymbolFirst(e, Text(rest), operand);
        case Br(Close) =>
          ReadsBackFrom(rest, depth - 1, false);
          ReadSymbolFirst(e, Text(rest), operand);
      }
      assert [e] + rest == w;
    }
  }

  /** The text of a sentence reads as that sentence. */
  lemma ReadsBack(w: seq<Elem>)
    requires IsSentence(w)
    ensures ReadText(Text(w)) == Some(w)
  {
    EqSolve.SentenceIffScan(w);
    ReadsBackFrom(w, 0, true);
  }

  /** The value of the text shown is the value of the equation. */
  lemma ValueOfText(e: Expression)
    ensures ValueOf(Text(FlattenExpression(e))) == Some(ExpressionValue(e))
  {
    hide ReadText, Reckoned, ExpressionValue, Text;
    ReadsBack(FlattenExpression(e));
    assert FlattenExpression(e) + [] == FlattenExpression(e);
    ReckonIsValue(e, []);
  }

  // -------- The print pass --------

  /** What one element leaves in the buffer. Only a number writes a NUL behind its text, because
      `gmp_sprintf` does. */
  function Bytes(e: Elem): string {
    ElemText(e) + if e.Nr? then [NUL] else []
  }

  function Overwritten(s: seq<char>, index: nat, part: seq<char>): seq<char>
    requires index + |part| <= |s|
  {
    s[..index] + part + s[index + |part|..]
  }

  /** `eq_elem_print` at `buf + index`. */
  method ElemPrint(elem: Elem, buf: array<char>, index: nat) returns (incr: nat)
    requires index + |Bytes(elem)| <= buf.Length
    modifies buf
    ensures incr == |ElemText(elem)|
    ensures buf[..] == Overwritten(old(buf[..]), index, Bytes(elem))
    ensures elem.Nr? || buf[index] == match elem
      case Op(Plus) => '+'
      case Op(Minus) => '-'
      case Op(Times) => '*'
      case Br(Open) => '('
      case _ => ')'
  {
    hide Decimal;
    match elem
    case Br(Open) => buf[index] := '('; return 1;
    case Br(Close) => buf[index] := ')'; return 1;
    case Op(Plus) => buf[index] := '+'; return 1;
    case Op(Minus) => buf[index] := '-'; return 1;
    case Op(Times) => buf[index] := '*'; return 1;
    case Nr(n) =>
      var digits := Decimal(n);
      forall k | 0 <= k < |digits| {
        buf[index + k] := digits[k];
      }
      buf[index + |digits|] := NUL;
      return |digits|;
  }

  /** The buffer `s` that held `was` after `chain` has been printed into it: the text, then the byte
      a final number clobbers, then what was there. */
  ghost predicate Printed(s: seq<char>, was: seq<char>, chain: seq<Elem>) {
    var n := |Text(chain)|;
    && n < |s| == |was|
    && s[..n] == Text(chain)
    && s[n] == (if chain != [] && chain[|chain| - 1].Nr? then NUL else was[n])
    && s[n + 1..] == was[n + 1..]
  }

  lemma SplicedParts(a: seq<char>, x: seq<char>, tail: seq<char>, z: seq<char>)
    ensures var s, n := a + (x + tail) + z, |a| + |x|;
      s[..n] == a + x && s[n..] == tail + z && |s| == n + |tail| + |z|
  {
    assert a + (x + tail) + z == (a + x) + (tail + z);
  }

  lemma SameFrom(s: seq<char>, was: seq<char>, m: nat, n: nat)
    requires m <= n <= |s| == |was| && s[m..] == was[m..]
    ensures s[n..] == was[n..]
  {
    assert s[n..] == s[m..][n - m..] && was[n..] == was[m..][n - m..];
  }

  lemma Splice(s: seq<char>, was: seq<char>, t: string, x: string, tail: string, s': seq<char>)
    requires |s| == |was| && |t| + |x| < |s| && x != [] && |tail| <= 1
    requires s[..|t|] == t && s[|t| + 1..] == was[|t| + 1..]
    requires |t| + |x| + |tail| <= |s| && s' == Overwritten(s, |t|, x + tail)
    ensures var n := |t| + |x|;
      |s'| == |s| && s'[..n] == t + x && s'[n + 1..] == was[n + 1..] && s'[n] == if tail == [] then was[n] else tail[0]
  {
    hide Overwritten;
    var n := |t| + |x|;
    var z := s[n + |tail|..];
    OverwrittenIs(s, t, x + tail);
    SplicedParts(t, x, tail, z);
    SameFrom(s, was, |t| + 1, n + |tail|);
    BehindSplice(s', was, n, tail);
  }

  lemma OverwrittenIs(s: seq<char>, t: string, part: string)
    requires |t| + |part| <= |s| && s[..|t|] == t
    ensures Overwritten(s, |t|, part) == t + part + s[|t| + |part|..]
  {
  }

  lemma BehindSplice(s': seq<char>, was: seq<char>, n: nat, tail: string)
    requires n + |tail| <= |s'| == |was| && n < |was| && |tail| <= 1
    requires s'[n..] == tail + was[n + |tail|..]
    ensures s'[n + 1..] == was[n + 1..] && s'[n] == if tail == [] then was[n] else tail[0]
  {
    SameTail(s', n);
    SameTail(was, n);
    if tail == [] {
      assert [] + was[n..] == was[n..];
    } else {
      assert (tail + was[n + 1..])[1..] == was[n + 1..];
    }
  }

  lemma SameTail(s: seq<char>, n: nat)
    requires n < |s|
    ensures s[n..][0] == s[n] && s[n..][1..] == s[n + 1..]
  {
  }

  lemma PrintedStep(s: seq<char>, was: seq<char>, chain: seq<Elem>, i: nat, s': seq<char>)
    requires i < |chain| && |Text(chain)| < |s| && Printed(s, was, chain[..i])
    ensures var n, e := |Text(chain[..i])|, chain[i];
      n + |Bytes(e)| <= |s| &&
      (s' == Overwritten(s, n, Bytes(e)) ==> Printed(s', was, chain[..i + 1]))
  {
    hide Text, ElemText, Overwritten;
    TextSplit(chain, i);
    var e := chain[i];
    assert |Bytes(e)| <= |ElemText(e)| + 1;
    assert i + 1 <= |chain| && chain[..i + 1][i] == e;
    if s' == Overwritten(s, |Text(chain[..i])|, Bytes(e)) {
      Splice(s, was, Text(chain[..i]), ElemText(e), if e.Nr? then [NUL] else [], s');
    }
  }

  /** `eq_print` into a buffer of at least the calculated size. Every access is in bounds, the text
      comes out whole, and the only other byte that can change is the one right behind it. */
  method Print(chain: seq<Elem>, buf: array<char>) returns (ok: bool)
    requires chain != []
    requires |Text(chain)| < buf.Length
    modifies buf
    ensures ok
    ensures Printed(buf[..], old(buf[..]), chain)
    ensures IsSentence(chain) ==> ReadText(buf[..|Text(chain)|]) == Some(chain)
  {
    hide ReadText;
    if IsSentence(chain) { ReadsBack(chain); }
    var index := 0;
    for i := 0 to |chain|
      invariant index == |Text(chain[..i])|
      invariant Printed(buf[..], old(buf[..]), chain[..i])
    {
      ghost var before := buf[..];
      PrintedStep(before, old(buf[..]), chain, i, before);
      var incr := ElemPrint(chain[i], buf, index);
      PrintedStep(before, old(buf[..]), chain, i, buf[..]);
      TextSplit(chain, i);
      if incr == 0 { return false; }
      index := index + incr;
    }
    ok := true;
    assert chain[..|chain|] == chain;
  }

  /** The size pass and the print pass together, as `eq_get_question` runs them: the buffer is filled
      exactly, and its last byte is the one NUL in it. */
  method PrintNew(chain: seq<Elem>) returns (text: array?<char>)
    requires chain != []
    ensures text == null <==> |Text(chain)| + 1 > SIZE_MAX
    ensures text != null ==> fresh(text) && text[..] == Text(chain) + [NUL] && NUL !in Text(chain)
    ensures text != null && IsSentence(chain) ==> ReadText(text[..text.Length - 1]) == Some(chain)
  {
    hide ReadText;
    TextHasNoNul(chain);
    if IsSentence(chain) { ReadsBack(chain); }
    var size := CalcStrSize(chain);
    if size == 0 { return null; }
    text := new char[size];
    text[size - 1] := NUL;
    var ok := Print(chain, text);
    assert text[..] == text[..size - 1] + [text[size - 1]];
  }
}
