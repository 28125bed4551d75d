/** The elements of an equation, the grammar they are meant to follow, and the one-pass scan that
    decides it.

    The grammar is stratified exactly as eq.c writes it down, so precedence and left association
    are properties of the tree types: a `Term` cannot hold a sum outside brackets, and the right
    operand of an operator is always of the lower level. */
module Equation {

  datatype Operator = Plus | Minus | Times

  datatype Bracket = Open | Close

  datatype Elem = Op(op: Operator) | Nr(nr: int) | Br(br: Bracket)

  datatype Expression =
    | Alone(term: Term)
    | Sum(left: Expression, right: Term)
    | Difference(left: Expression, right: Term)

  datatype Term =
    | Single(primary: Primary)
    | Product(factors: Term, last: Primary)

  datatype Primary =
    | Number(n: int)
    | Group(inner: Expression)

  // The chain a tree stands for.

  function FlattenExpression(e: Expression): seq<Elem> {
    match e
    case Alone(t) => FlattenTerm(t)
    case Sum(l, r) => FlattenExpression(l) + [Op(Plus)] + FlattenTerm(r)
    case Difference(l, r) => FlattenExpression(l) + [Op(Minus)] + FlattenTerm(r)
  }

  function FlattenTerm(t: Term): seq<Elem> {
    match t
    case Single(p) => FlattenPrimary(p)
    case Product(l, r) => FlattenTerm(l) + [Op(Times)] + FlattenPrimary(r)
  }

  function FlattenPrimary(p: Primary): seq<Elem> {
    match p
    case Number(n) => [Nr(n)]
    case Group(e) => [Br(Open)] + FlattenExpression(e) + [Br(Close)]
  }

  // The number a tree stands for.

  function ExpressionValue(e: Expression): int {
    match e
    case Alone(t) => TermValue(t)
    case Sum(l, r) => ExpressionValue(l) + TermValue(r)
    case Difference(l, r) => ExpressionValue(l) - TermValue(r)
  }

  function TermValue(t: Term): int {
    match t
    case Single(p) => PrimaryValue(p)
    case Product(l, r) => TermValue(l) * PrimaryValue(r)
  }

  function PrimaryValue(p: Primary): int {
    match p
    case Number(n) => n
    case Group(e) => ExpressionValue(e)
  }

  ghost predicate IsSentence(chain: seq<Elem>) {
    exists e :: FlattenExpression(e) == chain
  }

  // -------- Reading a chain with one counter and one bit --------

  /** What happens to a chain: it is accepted up to `rest`, rejected with EILSEQ, or it runs into
      the `assert` that an opening bracket directly after an operand fails. */
  datatype Verdict = Accepts(rest: seq<Elem>) | Rejects | Asserts

  /** Reads `chain` left to right. `depth` is the number of open brackets, `operand` tells whether
      an operand has to come next. No grammar is involved. */
  function Scan(chain: seq<Elem>, depth: nat, operand: bool): Verdict {
    if operand then
      if chain == [] then Rejects
      else match chain[0]
        case Nr(_) => Scan(chain[1..], depth, false)
        case Br(Open) => Scan(chain[1..], depth + 1, true)
        case Br(Close) => Rejects
        case Op(_) => Rejects
    else
      if chain == [] then if depth == 0 then Accepts([]) else Rejects
      else match chain[0]
        case Op(_) => Scan(chain[1..], depth, true)
        case Br(Close) => if depth == 0 then Accepts(chain) else Scan(chain[1..], depth - 1, false)
        case Br(Open) => Asserts
        case Nr(_) => Rejects
  }

  /** Every bracket and operand still owed takes one element, and everything else comes in pairs. */
  lemma {:induction false} ScanLength(chain: seq<Elem>, depth: nat, operand: bool)
    requires Scan(chain, depth, operand) == Accepts([])
    ensures |chain| >= depth + if operand then 1 else 0
    ensures (|chain| - depth - if operand then 1 else 0) % 2 == 0
  {
    if chain != [] {
      match chain[0]
      case Nr(_) => ScanLength(chain[1..], depth, false);
      case Op(_) => ScanLength(chain[1..], depth, true);
      case Br(Open) => ScanLength(chain[1..], depth + 1, true);
      case Br(Close) => if depth > 0 { ScanLength(chain[1..], depth - 1, false); }
    }
  }

  // Every sentence passes the scan.

  lemma {:induction false} ScanFlattenedExpression(e: Expression, rest: seq<Elem>, depth: nat)
    ensures Scan(FlattenExpression(e) + rest, depth, true) == Scan(rest, depth, false)
  {
    match e
    case Alone(t) => ScanFlattenedTerm(t, rest, depth);
    case Sum(l, r) =>
      assert FlattenExpression(e) + rest == FlattenExpression(l) + ([Op(Plus)] + (FlattenTerm(r) + rest));
      ScanFlattenedExpression(l, [Op(Plus)] + (FlattenTerm(r) + rest), depth);
      ScanFlattenedTerm(r, rest, depth);
    case Difference(l, r) =>
      assert FlattenExpression(e) + rest == FlattenExpression(l) + ([Op(Minus)] + (FlattenTerm(r) + rest));
      ScanFlattenedExpression(l, [Op(Minus)] + (FlattenTerm(r) + rest), depth);
      ScanFlattenedTerm(r, rest, depth);
  }

  lemma {:induction false} ScanFlattenedTerm(t: Term, rest: seq<Elem>, depth: nat)
    ensures Scan(FlattenTerm(t) + rest, depth, true) == Scan(rest, depth, false)
  {
    match t
    case Single(p) => ScanFlattenedPrimary(p, rest, depth);
    case Product(l, r) =>
      assert FlattenTerm(t) + rest == FlattenTerm(l) + ([Op(Times)] + (FlattenPrimary(r) + rest));
      ScanFlattenedTerm(l, [Op(Times)] + (FlattenPrimary(r) + rest), depth);
      ScanFlattenedPrimary(r, rest, depth);
  }

  lemma {:induction false} ScanFlattenedPrimary(p: Primary, rest: seq<Elem>, depth: nat)
    ensures Scan(FlattenPrimary(p) + rest, depth, true) == Scan(rest, depth, false)
  {
    match p
    case Number(n) =>
    case Group(e) =>
      assert FlattenPrimary(p) + rest == [Br(Open)] + (FlattenExpression(e) + ([Br(Close)] + rest));
      ScanFlattenedExpression(e, [Br(Close)] + rest, depth + 1);
  }

  /** What comes behind a sentence decides: its end or a `)` that closes nothing is accepted, a number is
      rejected, an opening bracket fails the assert, and so is an operator rejected that no operand follows. A
      bracket that is not closed is rejected too. */
  lemma ScanBehindSentence(e: Expression, op: Operator, n: int, rest: seq<Elem>)
    ensures var w := FlattenExpression(e);
      && Scan(w, 0, true) == Accepts([])
      && Scan(w + ([Br(Close)] + rest), 0, true) == Accepts([Br(Close)] + rest)
      && Scan(w + ([Nr(n)] + rest), 0, true) == Rejects
      && Scan(w + ([Br(Open)] + rest), 0, true) == Asserts
      && Scan(w + [Op(op)], 0, true) == Rejects
      && (rest != [] && !rest[0].Nr? && rest[0] != Br(Open) ==> Scan(w + ([Op(op)] + rest), 0, true) == Rejects)
      && Scan([Br(Open)] + w, 0, true) == Rejects && Scan([], 0, true) == Rejects
  {
    var w := FlattenExpression(e);
    assert w + [] == w && ([Op(op)] + rest)[1..] == rest && ([Br(Open)] + w)[1..] == w;
    ScanFlattenedExpression(e, [], 0);
    ScanFlattenedExpression(e, [], 1);
    ScanFlattenedExpression(e, [Br(Close)] + rest, 0);
    ScanFlattenedExpression(e, [Nr(n)] + rest, 0);
    ScanFlattenedExpression(e, [Br(Open)] + rest, 0);
    ScanFlattenedExpression(e, [Op(op)], 0);
    ScanFlattenedExpression(e, [Op(op)] + rest, 0);
  }
}
