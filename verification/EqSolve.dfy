/** The recursive-descent evaluator of eq.c.

    The `Parse` functions say which tree a chain has; the `Get` methods are the evaluator itself,
    which builds no tree and only carries a cursor and an accumulator. */
module EqSolve {
  import opened Equation
  import opened EqReckon

  datatype Parsed<T> = Good(tree: T, rest: seq<Elem>) | Illegal | Aborted

  /** A term ends where no further `*` can be taken and no assertion fails. */
  predicate EndsTerm(rest: seq<Elem>) {
    rest == [] || rest[0] == Br(Close) || rest[0] == Op(Plus) || rest[0] == Op(Minus)
  }

  predicate EndsExpression(rest: seq<Elem>) {
    rest == [] || rest[0] == Br(Close)
  }

  function ParsePrimary(chain: seq<Elem>): (r: Parsed<Primary>)
    ensures r.Good? ==> |r.rest| < |chain|
    decreases |chain|, 1
  {
    if chain == [] then Illegal
    else match chain[0]
      case Nr(n) => Good(Number(n), chain[1..])
      case Op(_) => Illegal
      case Br(Close) => Illegal
      case Br(Open) =>
        match ParseExpression(chain[1..])
        case Illegal => Illegal
        case Aborted => Aborted
        case Good(e, rest) =>
          if rest != [] && rest[0] == Br(Close) then Good(Group(e), rest[1..]) else Illegal
  }

  function ParseTerm(chain: seq<Elem>): (r: Parsed<Term>)
    ensures r.Good? ==> |r.rest| < |chain| && EndsTerm(r.rest)
    decreases |chain|, 2
  {
    match ParsePrimary(chain)
    case Illegal => Illegal
    case Aborted => Aborted
    case Good(p, rest) => TermTail(Single(p), rest)
  }

  function TermTail(left: Term, chain: seq<Elem>): (r: Parsed<Term>)
    ensures r.Good? ==> |r.rest| <= |chain| && EndsTerm(r.rest)
    decreases |chain|, 0
  {
    if EndsTerm(chain) then Good(left, chain)
    else match chain[0]
      case Nr(_) => Illegal
      case Br(_) => Aborted
      case Op(_) =>
        match ParsePrimary(chain[1..])
        case Illegal => Illegal
        case Aborted => Aborted
        case Good(p, rest) => TermTail(Product(left, p), rest)
  }

  function ParseExpression(chain: seq<Elem>): (r: Parsed<Expression>)
    ensures r.Good? ==> |r.rest| < |chain| && EndsExpression(r.rest)
    decreases |chain|, 3
  {
    match ParseTerm(chain)
    case Illegal => Illegal
    case Aborted => Aborted
    case Good(t, rest) => ExpressionTail(Alone(t), rest)
  }

  function ExpressionTail(left: Expression, chain: seq<Elem>): (r: Parsed<Expression>)
    requires EndsTerm(chain)
    ensures r.Good? ==> |r.rest| <= |chain| && EndsExpression(r.rest)
    decreases |chain|, 0
  {
    if EndsExpression(chain) then Good(left, chain)
    else
      match ParseTerm(chain[1..])
      case Illegal => Illegal
      case Aborted => Aborted
      case Good(t, rest) =>
        ExpressionTail(if chain[0].op == Plus then Sum(left, t) else Difference(left, t), rest)
  }

  // -------- What is consumed is the flattened tree --------

  lemma AppendOperand(left: seq<Elem>, op: Elem, chain: seq<Elem>, right: seq<Elem>, rest: seq<Elem>)
    requires chain != [] && chain[0] == op && chain[1..] == right + rest
    ensures left + chain == left + [op] + right + rest
  {
    assert chain == [op] + chain[1..];
  }

  lemma {:induction false} PrimarySound(chain: seq<Elem>)
    requires ParsePrimary(chain).Good?
    ensures chain == FlattenPrimary(ParsePrimary(chain).tree) + ParsePrimary(chain).rest
    decreases |chain|, 1
  {
    if chain[0] == Br(Open) {
      ExpressionSound(chain[1..]);
    }
  }

  lemma {:induction false} TermSound(chain: seq<Elem>)
    requires ParseTerm(chain).Good?
    ensures chain == FlattenTerm(ParseTerm(chain).tree) + ParseTerm(chain).rest
    decreases |chain|, 2
  {
    PrimarySound(chain);
    var p := ParsePrimary(chain);
    TermTailSound(Single(p.tree), p.rest);
  }

  lemma {:induction false} TermTailSound(left: Term, chain: seq<Elem>)
    requires TermTail(left, chain).Good?
    ensures FlattenTerm(left) + chain == FlattenTerm(TermTail(left, chain).tree) + TermTail(left, chain).rest
    decreases |chain|, 0
  {
    if !EndsTerm(chain) {
      PrimarySound(chain[1..]);
      var p := ParsePrimary(chain[1..]);
      TermTailSound(Product(left, p.tree), p.rest);
      assert chain[0].Op? && chain[0].op.Times?;
      AppendOperand(FlattenTerm(left), Op(Times), chain, FlattenPrimary(p.tree), p.rest);
    }
  }

  /** Soundness on arbitrary chains: whatever is evaluated is a sentence. */
  lemma {:induction false} ExpressionSound(chain: seq<Elem>)
    requires ParseExpression(chain).Good?
    ensures chain == FlattenExpression(ParseExpression(chain).tree) + ParseExpression(chain).rest
    decreases |chain|, 3
  {
    TermSound(chain);
    var t := ParseTerm(chain);
    ExpressionTailSound(Alone(t.tree), t.rest);
  }

  lemma {:induction false} ExpressionTailSound(left: Expression, chain: seq<Elem>)
    requires EndsTerm(chain) && ExpressionTail(left, chain).Good?
    ensures FlattenExpression(left) + chain
         == FlattenExpression(ExpressionTail(left, chain).tree) + ExpressionTail(left, chain).rest
    decreases |chain|, 0
  {
    if !EndsExpression(chain) {
      TermSound(chain[1..]);
      var t := ParseTerm(chain[1..]);
      var e := if chain[0].op == Plus then Sum(left, t.tree) else Difference(left, t.tree);
      ExpressionTailSound(e, t.rest);
      AppendOperand(FlattenExpression(left), chain[0], chain, FlattenTerm(t.tree), t.rest);
    }
  }

  // -------- Every tree is read back from its own chain --------

  lemma {:induction false} ParseFlattenedPrimary(p: Primary, rest: seq<Elem>)
    ensures ParsePrimary(FlattenPrimary(p) + rest) == Good(p, rest)
  {
    match p
    case Number(n) =>
      assert (FlattenPrimary(p) + rest)[1..] == rest;
    case Group(e) =>
      assert (FlattenPrimary(p) + rest)[1..] == FlattenExpression(e) + ([Br(Close)] + rest);
      ParseFlattenedExpression(e, [Br(Close)] + rest);
      assert ([Br(Close)] + rest)[1..] == rest;
  }

  lemma {:induction false} ParseFlattenedTerm(t: Term, rest: seq<Elem>)
    ensures ParseTerm(FlattenTerm(t) + rest) == TermTail(t, rest)
  {
    match t
    case Single(p) => ParseFlattenedPrimary(p, rest);
    case Product(l, r) =>
      var more := [Op(Times)] + (FlattenPrimary(r) + rest);
      assert FlattenTerm(t) + rest == FlattenTerm(l) + more;
      ParseFlattenedTerm(l, more);
      assert more[1..] == FlattenPrimary(r) + rest;
      ParseFlattenedPrimary(r, rest);
  }

  lemma {:induction false} ParseFlattenedExpression(e: Expression, rest: seq<Elem>)
    requires EndsTerm(rest)
    ensures ParseExpression(FlattenExpression(e) + rest) == ExpressionTail(e, rest)
  {
    match e
    case Alone(t) => ParseFlattenedTerm(t, rest);
    case Sum(l, r) =>
      var more := [Op(Plus)] + (FlattenTerm(r) + rest);
      assert FlattenExpression(e) + rest == FlattenExpression(l) + more;
      ParseFlattenedExpression(l, more);
      assert more[1..] == FlattenTerm(r) + rest;
      ParseFlattenedTerm(r, rest);
    case Difference(l, r) =>
      var more := [Op(Minus)] + (FlattenTerm(r) + rest);
      assert FlattenExpression(e) + rest == FlattenExpression(l) + more;
      ParseFlattenedExpression(l, more);
      assert more[1..] == FlattenTerm(r) + rest;
      ParseFlattenedTerm(r, rest);
  }

  /** Round trip: a flattened tree followed by nothing or by `)` is read back as that very tree. */
  lemma {:induction false} ParseInvertsFlatten(e: Expression, rest: seq<Elem>)
    requires EndsExpression(rest)
    ensures ParseExpression(FlattenExpression(e) + rest) == Good(e, rest)
  {
    ParseFlattenedExpression(e, rest);
  }

  /** The grammar is unambiguous: a chain has at most one sentence as an admissible prefix, and
      that sentence at most one tree. */
  lemma {:induction false} GrammarUnambiguous(e1: Expression, rest1: seq<Elem>, e2: Expression, rest2: seq<Elem>)
    requires EndsExpression(rest1) && EndsExpression(rest2)
    requires FlattenExpression(e1) + rest1 == FlattenExpression(e2) + rest2
    ensures e1 == e2 && rest1 == rest2
  {
    ParseInvertsFlatten(e1, rest1);
    ParseInvertsFlatten(e2, rest2);
  }

  // -------- The three outcomes are those of the scan --------

  function Then<T>(r: Parsed<T>, depth: nat): Verdict {
    match r
    case Good(_, rest) => Scan(rest, depth, false)
    case Illegal => Rejects
    case Aborted => Asserts
  }

  lemma {:induction false} ScanPrimary(chain: seq<Elem>, depth: nat)
    ensures Scan(chain, depth, true) == Then(ParsePrimary(chain), depth)
    decreases |chain|, 1
  {
    if chain != [] && chain[0] == Br(Open) {
      ScanExpression(chain[1..], depth + 1);
    }
  }

  lemma {:induction false} ScanTerm(chain: seq<Elem>, depth: nat)
    ensures Scan(chain, depth, true) == Then(ParseTerm(chain), depth)
    decreases |chain|, 2
  {
    ScanPrimary(chain, depth);
    var p := ParsePrimary(chain);
    if p.Good? { ScanTermTail(Single(p.tree), p.rest, depth); }
  }

  lemma {:induction false} ScanTermTail(left: Term, chain: seq<Elem>, depth: nat)
    ensures Scan(chain, depth, false) == Then(TermTail(left, chain), depth)
    decreases |chain|, 0
  {
    if !EndsTerm(chain) && chain[0].Op? {
      ScanPrimary(chain[1..], depth);
      var p := ParsePrimary(chain[1..]);
      if p.Good? { ScanTermTail(Product(left, p.tree), p.rest, depth); }
    }
  }

  lemma {:induction false} ScanExpression(chain: seq<Elem>, depth: nat)
    ensures Scan(chain, depth, true) == Then(ParseExpression(chain), depth)
    decreases |chain|, 3
  {
    ScanTerm(chain, depth);
    var t := ParseTerm(chain);
    if t.Good? { ScanExpressionTail(Alone(t.tree), t.rest, depth); }
  }

  lemma {:induction false} ScanExpressionTail(left: Expression, chain: seq<Elem>, depth: nat)
    requires EndsTerm(chain)
    ensures Scan(chain, depth, false) == Then(ExpressionTail(left, chain), depth)
    decreases |chain|, 0
  {
    if !EndsExpression(chain) {
      ScanTerm(chain[1..], depth);
      var t := ParseTerm(chain[1..]);
      if t.Good? {
        ScanExpressionTail(if chain[0].op == Plus then Sum(left, t.tree) else Difference(left, t.tree),
                           t.rest, depth);
      }
    }
  }

  /** For every chain, success with its remainder, EILSEQ and the failing assert are exactly the
      three verdicts of the one-pass scan. */
  lemma {:induction false} ParseDecidedByScan(chain: seq<Elem>)
    ensures Scan(chain, 0, true) ==
            match ParseExpression(chain)
            case Good(_, rest) => Accepts(rest)
            case Illegal => Rejects
            case Aborted => Asserts
  {
    ScanExpression(chain, 0);
  }

  /** A chain is a sentence exactly when the scan accepts all of it. */
  lemma {:induction false} SentenceIffScan(chain: seq<Elem>)
    ensures IsSentence(chain) <==> Scan(chain, 0, true) == Accepts([])
  {
    if IsSentence(chain) {
      var e :| FlattenExpression(e) == chain;
      assert chain + [] == chain;
      ScanFlattenedExpression(e, [], 0);
    }
    if Scan(chain, 0, true) == Accepts([]) {
      ParseDecidedByScan(chain);
      ExpressionSound(chain);
      var e := ParseExpression(chain).tree;
      assert FlattenExpression(e) == chain;
    }
  }

  /** Sentences have odd length. */
  lemma SentenceLengthIsOdd(chain: seq<Elem>)
    requires IsSentence(chain)
    ensures |chain| % 2 == 1
  {
    SentenceIffScan(chain);
    ScanLength(chain, 0, true);
  }

  // -------- The evaluator --------

  /** `true`, `false` with errno EILSEQ, or a failed `assert`. */
  datatype Status = Succeeded | EILSEQ | AssertFailed

  /** The evaluator's result agrees with a parse: same outcome, the tree's value, and the cursor
      standing on what the parse left over. */
  predicate Agrees<T(==)>(status: Status, out: int, chain: seq<Elem>, cursor: nat, r: Parsed<T>, value: T -> int) {
    match r
    case Illegal => status == EILSEQ
    case Aborted => status == AssertFailed
    case Good(tree, rest) =>
      status == Succeeded && out == value(tree) && cursor <= |chain| && chain[cursor..] == rest
  }

  method GetPrimary(chain: seq<Elem>, start: nat) returns (status: Status, out: int, cursor: nat)
    requires start <= |chain|
    ensures Agrees(status, out, chain, cursor, ParsePrimary(chain[start..]), PrimaryValue)
    decreases |chain| - start, 1
  {
    status, out, cursor := EILSEQ, 0, start;
    if cursor == |chain| { return; }
    var elem := chain[cursor];
    if elem.Nr? {
      return Succeeded, elem.nr, cursor + 1;
    } else if elem.Br? {
      if elem.br != Open { return; }
      cursor := cursor + 1;
      assert chain[start..][1..] == chain[cursor..];
      var res;
      status, res, cursor := GetExpression(chain, cursor);
      if status != Succeeded { return; }
      if cursor == |chain| { return EILSEQ, 0, cursor; }
      elem := chain[cursor];
      if !elem.Br? || elem.br != Close { return EILSEQ, 0, cursor; }
      cursor := cursor + 1;
      out := res;
    }
  }

  method GetTerm(chain: seq<Elem>, start: nat) returns (status: Status, out: int, cursor: nat)
    requires start <= |chain|
    ensures Agrees(status, out, chain, cursor, ParseTerm(chain[start..]), TermValue)
    decreases |chain| - start, 2
  {
    var left;
    status, left, cursor := GetPrimary(chain, start);
    out := 0;
    if status != Succeeded { return; }
    ghost var done := Single(ParsePrimary(chain[start..]).tree);

    while true
      invariant start < cursor <= |chain|
      invariant status == Succeeded
      invariant left == TermValue(done)
      invariant ParseTerm(chain[start..]) == TermTail(done, chain[cursor..])
      decreases |chain| - cursor
    {
      if cursor == |chain| { break; }
      var elem := chain[cursor];
      if elem.Op? {
        if elem.op == Times {
          assert chain[cursor..][1..] == chain[cursor + 1..];
          var right;
          ghost var factor := ParsePrimary(chain[cursor + 1..]);
          status, right, cursor := GetPrimary(chain, cursor + 1);
          if status != Succeeded { return; }
          left := left * right;
          done := Product(done, factor.tree);
        } else {
          break;
        }
      } else if elem.Br? {
        if elem.br != Close { return AssertFailed, 0, cursor; }
        break;
      } else {
        return EILSEQ, 0, cursor;
      }
    }
    out := left;
  }

  method GetExpression(chain: seq<Elem>, start: nat) returns (status: Status, out: int, cursor: nat)
    requires start <= |chain|
    ensures Agrees(status, out, chain, cursor, ParseExpression(chain[start..]), ExpressionValue)
    ensures status == Succeeded ==> out == Reckoned(chain[start..])
    decreases |chain| - start, 3
  {
    var left;
    status, left, cursor := GetTerm(chain, start);
    out := 0;
    if status != Succeeded { return; }
    ghost var done := Alone(ParseTerm(chain[start..]).tree);

    while true
      invariant start < cursor <= |chain|
      invariant status == Succeeded
      invariant EndsTerm(chain[cursor..])
      invariant left == ExpressionValue(done)
      invariant ParseExpression(chain[start..]) == ExpressionTail(done, chain[cursor..])
      decreases |chain| - cursor
    {
      if cursor == |chain| { break; }
      var elem := chain[cursor];
      if elem.Op? {
        assert chain[cursor..][1..] == chain[cursor + 1..];
        ghost var operand := ParseTerm(chain[cursor + 1..]);
        if elem.op == Plus {
          var right;
          status, right, cursor := GetTerm(chain, cursor + 1);
          if status != Succeeded { return; }
          left := left + right;
          done := Sum(done, operand.tree);
        } else if elem.op == Minus {
          var right;
          status, right, cursor := GetTerm(chain, cursor + 1);
          if status != Succeeded { return; }
          left := left - right;
          done := Difference(done, operand.tree);
        } else {
          break;
        }
      } else if elem.Br? {
        if elem.br != Close { return AssertFailed, 0, cursor; }
        break;
      } else {
        return EILSEQ, 0, cursor;
      }
    }
    out := left;
    ParsedIsReckoned(chain[start..]);
  }

  /** The value of what is parsed, without its tree. */
  lemma ParsedIsReckoned(chain: seq<Elem>)
    requires ParseExpression(chain).Good?
    ensures Reckoned(chain) == ExpressionValue(ParseExpression(chain).tree)
  {
    hide Reckoned, ExpressionValue, ParseExpression;
    ExpressionSound(chain);
    ReckonIsValue(ParseExpression(chain).tree, ParseExpression(chain).rest);
  }

  /** The outcome of `eq_solve` on every non-empty chain. It never tests for leftover input, so it
      succeeds as soon as some prefix is a sentence followed by `)`. */
  method Solve(chain: seq<Elem>) returns (status: Status, out: int)
    requires chain != []
    ensures status ==
            match Scan(chain, 0, true)
            case Accepts(_) => Succeeded
            case Rejects => EILSEQ
            case Asserts => AssertFailed
    ensures status == Succeeded ==> out == Reckoned(chain)
    ensures forall e, rest :: EndsExpression(rest) && chain == FlattenExpression(e) + rest
                ==> status == Succeeded && out == ExpressionValue(e)
  {
    var cursor;
    status, out, cursor := GetExpression(chain, 0);
    assert chain[0..] == chain;
    ParseDecidedByScan(chain);
    forall e, rest | EndsExpression(rest) && chain == FlattenExpression(e) + rest
      ensures status == Succeeded && out == ExpressionValue(e)
    {
      ParseInvertsFlatten(e, rest);
    }
  }
}
