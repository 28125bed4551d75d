/** What a text means as an equation, for a reader who does not know how it was printed. */
module EqRead {
  import opened Common
  import opened Equation
  import opened EqReckon

  // -------- Numerals --------

  predicate IsNumeral(c: char) {
    c in "0123456789"
  }

  function NumeralValue(c: char): nat {
    if c == '1' then 1
    else if c == '2' then 2
    else if c == '3' then 3
    else if c == '4' then 4
    else if c == '5' then 5
    else if c == '6' then 6
    else if c == '7' then 7
    else if c == '8' then 8
    else if c == '9' then 9
    else 0
  }

  predicate AllNumerals(s: string) {
    forall c :: c in s ==> IsNumeral(c)
  }

  /** What a row of numerals means in base 10. */
  function NumberOf(s: string): nat {
    if s == [] then 0 else 10 * NumberOf(s[..|s| - 1]) + NumeralValue(s[|s| - 1])
  }

  /** How many numerals the text begins with. */
  function Numerals(s: string): (k: nat)
    ensures k <= |s| && AllNumerals(s[..k]) && (k < |s| ==> !IsNumeral(s[k]))
  {
    if s == [] || !IsNumeral(s[0]) then 0
    else
      assert forall k: nat :: k <= |s[1..]| ==> s[..k + 1] == [s[0]] + s[1..][..k];
      1 + Numerals(s[1..])
  }

  lemma {:induction false} NumeralsOf(a: string, rest: string)
    requires AllNumerals(a) && (rest == [] || !IsNumeral(rest[0]))
    ensures Numerals(a + rest) == |a|
  {
    if a == [] {
      assert a + rest == rest;
    } else {
      assert (a + rest)[1..] == a[1..] + rest;
      NumeralsOf(a[1..], rest);
    }
  }

  // -------- Equations --------

  function Then(e: Elem, rest: Option<seq<Elem>>): Option<seq<Elem>> {
    if rest == None then None else Some([e] + rest.value)
  }

  /** Reads a text from left to right; `operand` tells whether an operand has to come next, which is when a dash
      is the sign of a number. */
  function ReadFrom(s: string, operand: bool): Option<seq<Elem>>
    decreases |s|
  {
    if s == "" then Some([])
    else if operand then
      if s[0] == '(' then Then(Br(Open), ReadFrom(s[1..], true))
      else if s[0] == '-' then
        var k := Numerals(s[1..]);
        var n: int := NumberOf(s[1..k + 1]);
        if k == 0 then None else Then(Nr(-n), ReadFrom(s[k + 1..], false))
      else
        var k := Numerals(s);
        if k == 0 then None else Then(Nr(NumberOf(s[..k])), ReadFrom(s[k..], false))
    else if s[0] == ')' then Then(Br(Close), ReadFrom(s[1..], false))
    else if s[0] == '+' then Then(Op(Plus), ReadFrom(s[1..], true))
    else if s[0] == '-' then Then(Op(Minus), ReadFrom(s[1..], true))
    else if s[0] == '*' then Then(Op(Times), ReadFrom(s[1..], true))
    else None
  }

  function ReadText(s: string): Option<seq<Elem>> {
    ReadFrom(s, true)
  }

  /** The value of the equation that a text shows. */
  function ValueOf(s: string): Option<int> {
    var chain := ReadText(s);
    if chain == None then None else Some(Reckoned(chain.value))
  }

  lemma Behind(symbol: string, rest: string)
    requires |symbol| == 1
    ensures (symbol + rest)[0] == symbol[0] && (symbol + rest)[1..] == rest
  {
  }

  lemma Split(d: string, rest: string)
    ensures (d + rest)[..|d|] == d && (d + rest)[|d|..] == rest
    ensures ("-" + (d + rest))[1..|d| + 1] == d && ("-" + (d + rest))[|d| + 1..] == rest
  {
    assert ("-" + (d + rest))[1..] == d + rest;
  }

  lemma ReadNumerals(d: string, rest: string)
    requires d != [] && AllNumerals(d) && (rest == [] || !IsNumeral(rest[0]))
    ensures ReadFrom(d + rest, true) == Then(Nr(NumberOf(d)), ReadFrom(rest, false))
    ensures ReadFrom("-" + (d + rest), true) == Then(Nr(-(NumberOf(d) as int)), ReadFrom(rest, false))
  {
    hide NumberOf, NumeralValue, Then;
    NumeralsOf(d, rest);
    Split(d, rest);
    Behind("-", d + rest);
    assert d[0] in d && (d + rest)[0] == d[0];
    ReadUnsigned(d + rest);
    ReadSigned("-" + (d + rest));
  }

  lemma ReadUnsigned(s: string)
    requires s != "" && IsNumeral(s[0])
    ensures Numerals(s) > 0
    ensures ReadFrom(s, true) == Then(Nr(NumberOf(s[..Numerals(s)])), ReadFrom(s[Numerals(s)..], false))
  {
    hide NumberOf, Then;
  }

  lemma ReadSigned(s: string)
    requires s != "" && s[0] == '-' && Numerals(s[1..]) > 0
    ensures var k := Numerals(s[1..]);
      ReadFrom(s, true) == Then(Nr(-(NumberOf(s[1..k + 1]) as int)), ReadFrom(s[k + 1..], false))
  {
    hide NumberOf, IsNumeral, Then, Numerals;
    var tail := s[1..];
    assert s[0] != '(';
  }

  /** The five symbols. */
  lemma ReadSymbols(rest: string)
    ensures ReadFrom("(" + rest, true) == Then(Br(Open), ReadFrom(rest, true))
    ensures ReadFrom(")" + rest, false) == Then(Br(Close), ReadFrom(rest, false))
    ensures ReadFrom("+" + rest, false) == Then(Op(Plus), ReadFrom(rest, true))
    ensures ReadFrom("-" + rest, false) == Then(Op(Minus), ReadFrom(rest, true))
    ensures ReadFrom("*" + rest, false) == Then(Op(Times), ReadFrom(rest, true))
  {
    hide Numerals, NumberOf, Then;
    Behind("(", rest);
    Behind(")", rest);
    Behind("+", rest);
    Behind("-", rest);
    Behind("*", rest);
  }

  lemma ReadEmpty(operand: bool)
    ensures ReadFrom("", operand) == Some([])
  {
  }

  /** A text, what it reads as, and what it is worth. */
  lemma WorkedExample()
    ensures ReadText("20-3*(4+1)")
         == Some([Nr(20), Op(Minus), Nr(3), Op(Times), Br(Open), Nr(4), Op(Plus), Nr(1), Br(Close)])
    ensures ValueOf("20-3*(4+1)") == Some(5)
  {
    hide ReadFrom, NumberOf, Reckoned;
    ReadsInside();
    var inside := [Br(Open), Nr(4), Op(Plus), Nr(1), Br(Close)];
    ReadSymbols("(4+1)");
    OneNumeral("3", "*(4+1)");
    ReadSymbols("3*(4+1)");
    Twenty();
    ReadNumerals("20", "-3*(4+1)");
    assert "*" + "(4+1)" == "*(4+1)" && "3" + "*(4+1)" == "3*(4+1)";
    assert "-" + "3*(4+1)" == "-3*(4+1)" && "20" + "-3*(4+1)" == "20-3*(4+1)";
    assert ReadFrom("3*(4+1)", true) == Some([Nr(3)] + ([Op(Times)] + inside));
    assert ReadFrom("20-3*(4+1)", true) == Some([Nr(20)] + ([Op(Minus)] + ([Nr(3)] + ([Op(Times)] + inside))));
    assert [Nr(20)] + ([Op(Minus)] + ([Nr(3)] + ([Op(Times)] + inside)))
        == [Nr(20), Op(Minus), Nr(3), Op(Times), Br(Open), Nr(4), Op(Plus), Nr(1), Br(Close)];
    ReckonExample();
  }

  lemma ReadsInside()
    ensures ReadFrom("(4+1)", true) == Some([Br(Open), Nr(4), Op(Plus), Nr(1), Br(Close)])
  {
    hide ReadFrom, NumberOf;
    ReadEmpty(false);
    ReadSymbols("");
    OneNumeral("1", ")");
    ReadSymbols("1)");
    OneNumeral("4", "+1)");
    ReadSymbols("4+1)");
    assert ")" + "" == ")" && "1" + ")" == "1)" && "+" + "1)" == "+1)" && "4" + "+1)" == "4+1)";
    assert "(" + "4+1)" == "(4+1)";
    assert [Br(Close)] + [] == [Br(Close)];
    assert ReadFrom("1)", true) == Some([Nr(1)] + [Br(Close)]);
    assert ReadFrom("4+1)", true) == Some([Nr(4)] + ([Op(Plus)] + ([Nr(1)] + [Br(Close)])));
    assert [Br(Open)] + ([Nr(4)] + ([Op(Plus)] + ([Nr(1)] + [Br(Close)])))
        == [Br(Open), Nr(4), Op(Plus), Nr(1), Br(Close)];
  }

  lemma OneNumeral(d: string, rest: string)
    requires |d| == 1 && IsNumeral(d[0]) && (rest == [] || !IsNumeral(rest[0]))
    ensures ReadFrom(d + rest, true) == Then(Nr(NumeralValue(d[0])), ReadFrom(rest, false))
  {
    hide ReadFrom;
    assert d[..0] == "";
    ReadNumerals(d, rest);
  }

  lemma Twenty()
    ensures AllNumerals("20") && NumberOf("20") == 20
  {
    assert "20"[..1] == "2" && "2"[..0] == "";
  }

  lemma ReckonExample()
    ensures Reckoned([Nr(20), Op(Minus), Nr(3), Op(Times), Br(Open), Nr(4), Op(Plus), Nr(1), Br(Close)]) == 5
  {
    var four: Term, one: Term := Single(Number(4)), Single(Number(1));
    var group := Single(Group(Sum(Alone(four), one)));
    var e := Difference(Alone(Single(Number(20))), Product(Single(Number(3)), group.primary));
    ReckonIsValue(e, []);
    assert FlattenExpression(e) + []
        == [Nr(20), Op(Minus), Nr(3), Op(Times), Br(Open), Nr(4), Op(Plus), Nr(1), Br(Close)];
  }
}
