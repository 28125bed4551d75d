/** The value of a chain by one pass from left to right, without a tree. */
module EqReckon {
  import opened Equation

  /** What waits outside an open bracket: the sum so far, the sign of the term being read, and the product of
      its factors so far. */
  datatype Frame = Frame(sum: int, sign: int, product: int)

  /** Multiplication collects factors, addition and subtraction close the term, and brackets put the rest aside.
      It stops at the end or at a `)` that closes nothing. */
  function Reckon(chain: seq<Elem>, now: Frame, outer: seq<Frame>): int {
    var total := now.sum + now.sign * now.product;
    if chain == [] then total
    else
      match chain[0]
      case Nr(n) => Reckon(chain[1..], now.(product := now.product * n), outer)
      case Op(Times) => Reckon(chain[1..], now, outer)
      case Op(Plus) => Reckon(chain[1..], Frame(total, 1, 1), outer)
      case Op(Minus) => Reckon(chain[1..], Frame(total, -1, 1), outer)
      case Br(Open) => Reckon(chain[1..], Frame(0, 1, 1), [now] + outer)
      case Br(Close) =>
        if outer == [] then total
        else Reckon(chain[1..], outer[0].(product := outer[0].product * total), outer[1..])
  }

  function Reckoned(chain: seq<Elem>): int {
    Reckon(chain, Frame(0, 1, 1), [])
  }

  /** Where the pass stands after an expression. */
  function Standing(e: Expression): Frame {
    match e
    case Alone(t) => Frame(0, 1, TermValue(t))
    case Sum(l, r) => Frame(ExpressionValue(l), 1, TermValue(r))
    case Difference(l, r) => Frame(ExpressionValue(l), -1, TermValue(r))
  }

  lemma StandingTotal(e: Expression)
    ensures Standing(e).sum + Standing(e).sign * Standing(e).product == ExpressionValue(e)
  {
  }

  lemma ReckonNext(e: Elem, rest: seq<Elem>, now: Frame, outer: seq<Frame>)
    ensures var total := now.sum + now.sign * now.product;
      Reckon([e] + rest, now, outer) ==
        match e
        case Nr(n) => Reckon(rest, now.(product := now.product * n), outer)
        case Op(Times) => Reckon(rest, now, outer)
        case Op(Plus) => Reckon(rest, Frame(total, 1, 1), outer)
        case Op(Minus) => Reckon(rest, Frame(total, -1, 1), outer)
        case Br(Open) => Reckon(rest, Frame(0, 1, 1), [now] + outer)
        case Br(Close) =>
          if outer == [] then total else Reckon(rest, outer[0].(product := outer[0].product * total), outer[1..])
  {
    assert ([e] + rest)[1..] == rest;
  }

  lemma {:induction false} ReckonExpression(e: Expression, rest: seq<Elem>, outer: seq<Frame>)
    ensures Reckon(FlattenExpression(e) + rest, Frame(0, 1, 1), outer) == Reckon(rest, Standing(e), outer)
    decreases e
  {
    hide Reckon;
    if e.Alone? {
      ReckonTerm(e.term, rest, Frame(0, 1, 1), outer);
    } else {
      var op, sign := if e.Sum? then Op(Plus) else Op(Minus), if e.Sum? then 1 else -1;
      var tail := FlattenTerm(e.right) + rest;
      assert FlattenExpression(e) + rest == FlattenExpression(e.left) + ([op] + tail);
      ReckonExpression(e.left, [op] + tail, outer);
      StandingTotal(e.left);
      ReckonNext(op, tail, Standing(e.left), outer);
      ReckonTerm(e.right, rest, Frame(ExpressionValue(e.left), sign, 1), outer);
    }
  }

  lemma {:induction false} ReckonTerm(t: Term, rest: seq<Elem>, now: Frame, outer: seq<Frame>)
    ensures Reckon(FlattenTerm(t) + rest, now, outer)
         == Reckon(rest, now.(product := now.product * TermValue(t)), outer)
  {
    hide Reckon;
    match t
    case Single(p) => ReckonPrimary(p, rest, now, outer);
    case Product(l, r) =>
      var tail := FlattenPrimary(r) + rest;
      var mid := now.(product := now.product * TermValue(l));
      assert FlattenTerm(t) + rest == FlattenTerm(l) + ([Op(Times)] + tail);
      ReckonTerm(l, [Op(Times)] + tail, now, outer);
      ReckonNext(Op(Times), tail, mid, outer);
      ReckonPrimary(r, rest, mid, outer);
      Associate(now.product, TermValue(l), PrimaryValue(r));
  }

  lemma Associate(a: int, b: int, c: int)
    ensures a * b * c == a * (b * c)
  {
  }

  lemma {:induction false} ReckonPrimary(p: Primary, rest: seq<Elem>, now: Frame, outer: seq<Frame>)
    ensures Reckon(FlattenPrimary(p) + rest, now, outer)
         == Reckon(rest, now.(product := now.product * PrimaryValue(p)), outer)
  {
    hide Reckon;
    match p
    case Number(n) => ReckonNext(Nr(n), rest, now, outer);
    case Group(e) =>
      var tail := [Br(Close)] + rest;
      assert FlattenPrimary(p) + rest == [Br(Open)] + (FlattenExpression(e) + tail);
      ReckonNext(Br(Open), FlattenExpression(e) + tail, now, outer);
      ReckonExpression(e, tail, [now] + outer);
      ReckonNext(Br(Close), rest, Standing(e), [now] + outer);
      StandingTotal(e);
      assert ([now] + outer)[1..] == outer;
  }

  lemma ReckonEnd(rest: seq<Elem>, now: Frame)
    requires rest == [] || rest[0] == Br(Close)
    ensures Reckon(rest, now, []) == now.sum + now.sign * now.product
  {
  }

  /** The value of a tree is what the pass finds on its chain, also before a `)` that it does not open. */
  lemma {:induction false} ReckonIsValue(e: Expression, rest: seq<Elem>)
    requires rest == [] || rest[0] == Br(Close)
    ensures Reckoned(FlattenExpression(e) + rest) == ExpressionValue(e)
  {
    hide Reckon, Standing;
    ReckonExpression(e, rest, []);
    ReckonEnd(rest, Standing(e));
    StandingTotal(e);
  }
}
