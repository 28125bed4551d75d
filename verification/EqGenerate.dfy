/** The random generator of eq.c. It knows no grammar: it only keeps four budgets and four booleans.
    Its reachable outputs are nevertheless exactly the sentences of the grammar. */
module EqGenerate {
  import opened Common
  import opened Equation
  import opened Bitmask
  import EqSolve

  // Flags of the caller (eq_flags.h)
  const ELEM_SUM: nat := 0
  const ELEM_SUB: nat := 1
  const ELEM_MUL: nat := 2
  const ELEM_BRACES: nat := 3

  // Flags of the generator
  const GEN_OP_SUM: nat := 0
  const GEN_OP_SUB: nat := 1
  const GEN_OP_MUL: nat := 2
  const GEN_BR_L: nat := 3
  const GEN_BR_R: nat := 4
  const GEN_NR: nat := 5
  const GEN_OP_ALL: set<nat> := {GEN_OP_SUM, GEN_OP_SUB, GEN_OP_MUL}

  const RAND_MAX: int := 0x7FFF_FFFF

  lemma SmallMod(a: nat, m: nat)
    requires a < m
    ensures a % m == a
  {
  }

  function GenFlags(flags: set<nat>): set<nat> {
    if flags * {ELEM_SUM, ELEM_SUB, ELEM_MUL} == {} then {}
    else
      (if ELEM_SUM in flags then {GEN_OP_SUM} else {}) +
      (if ELEM_SUB in flags then {GEN_OP_SUB} else {}) +
      (if ELEM_MUL in flags then {GEN_OP_MUL} else {}) +
      (if ELEM_BRACES in flags then {GEN_BR_L, GEN_BR_R} else {})
  }

  /** One run through the generator's loop consumes what `rand()` returned, what `mpz_urandomm`
      took its residue of, and whether `malloc` succeeded. */
  datatype Draw = Draw(rand: nat, number: nat, granted: bool)

  datatype Budgets = Budgets(
    brLAvail: int, brRAvail: int, opAvail: int, nrAvail: int,
    brLPossible: bool, brRPossible: bool, opPossible: bool, nrPossible: bool)

  function InitialBudgets(len: nat): Budgets {
    Budgets(len / 2, 0, len / 2, len / 2 + 1, len / 2 > 0, false, false, true)
  }

  function Offered(b: Budgets, allowed: set<nat>): set<nat> {
    ((if b.brLPossible then {GEN_BR_L} else {}) +
     (if b.brRPossible then {GEN_BR_R} else {}) +
     (if b.opPossible then GEN_OP_ALL else {})) * allowed +
    (if b.nrPossible then {GEN_NR} else {})
  }

  function ElemOf(flag: nat, number: int): Elem
    requires flag <= GEN_NR
  {
    if flag == GEN_OP_SUM then Op(Plus)
    else if flag == GEN_OP_SUB then Op(Minus)
    else if flag == GEN_OP_MUL then Op(Times)
    else if flag == GEN_BR_L then Br(Open)
    else if flag == GEN_BR_R then Br(Close)
    else Nr(number)
  }

  function FlagOf(e: Elem): nat {
    match e
    case Op(Plus) => GEN_OP_SUM
    case Op(Minus) => GEN_OP_SUB
    case Op(Times) => GEN_OP_MUL
    case Br(Open) => GEN_BR_L
    case Br(Close) => GEN_BR_R
    case Nr(_) => GEN_NR
  }

  function Spend(b: Budgets, e: Elem): Budgets {
    match e
    case Op(_) =>
      b.(opAvail := b.opAvail - 1, brLPossible := b.brLAvail > 0, brRPossible := false,
         opPossible := false, nrPossible := b.nrAvail > 0)
    case Br(Open) =>
      b.(brLAvail := b.brLAvail - 1, brRAvail := b.brRAvail + 1, nrAvail := b.nrAvail - 1,
         opAvail := b.opAvail - 1, brLPossible := b.brLAvail - 1 > 0, brRPossible := false,
         opPossible := false, nrPossible := b.nrAvail - 1 > 0)
    case Br(Close) =>
      b.(brRAvail := b.brRAvail - 1, brLPossible := false, brRPossible := b.brRAvail - 1 > 0,
         opPossible := b.opAvail > 0, nrPossible := false)
    case Nr(_) =>
      b.(nrAvail := b.nrAvail - 1, brLAvail := b.brLAvail - 1, brLPossible := false,
         brRPossible := b.brRAvail > 0, opPossible := b.opAvail > 0, nrPossible := false)
  }

  // -------- What the budgets mean --------

  /** The invariant of the loop, with `slots` elements still to be emitted: an operand is expected
      exactly when numbers are possible, and the budgets pay for exactly the remaining slots. */
  ghost predicate Balanced(b: Budgets, allowed: set<nat>, slots: nat) {
    && b.brRAvail >= 0
    && b.opAvail >= 0
    && (b.brRAvail > 0 ==> GEN_BR_R in allowed)
    && if b.nrPossible then
         && b.brLAvail == b.opAvail == b.nrAvail - 1
         && slots == 2 * b.opAvail + b.brRAvail + 1
         && b.brLPossible == (b.opAvail > 0) && !b.brRPossible && !b.opPossible
       else
         && b.brLAvail + 1 == b.opAvail == b.nrAvail
         && slots == 2 * b.opAvail + b.brRAvail
         && !b.brLPossible && b.brRPossible == (b.brRAvail > 0) && b.opPossible == (b.opAvail > 0)
  }

  /** A non-zero result of `eq_flags_to_gen_flags`. */
  ghost predicate UsableFlags(allowed: set<nat>) {
    allowed * GEN_OP_ALL != {} && (GEN_BR_L in allowed <==> GEN_BR_R in allowed) && GEN_NR !in allowed
  }

  predicate Permitted(e: Elem, allowed: set<nat>, max: nat) {
    if e.Nr? then 0 <= e.nr < max else FlagOf(e) in allowed
  }

  /** What the caller's flags allow. */
  predicate Allowed(e: Elem, flags: set<nat>, max: nat) {
    match e
    case Op(Plus) => ELEM_SUM in flags
    case Op(Minus) => ELEM_SUB in flags
    case Op(Times) => ELEM_MUL in flags
    case Br(_) => ELEM_BRACES in flags
    case Nr(n) => 0 <= n < max
  }

  /** Some operator is allowed. */
  predicate HasOperator(flags: set<nat>) {
    ELEM_SUM in flags || ELEM_SUB in flags || ELEM_MUL in flags
  }

  /** The generator's flags permit what the caller's flags allow, as soon as those allow an operator. */
  lemma PermittedIffAllowed(e: Elem, flags: set<nat>, max: nat)
    requires HasOperator(flags)
    ensures Permitted(e, GenFlags(flags), max) <==> Allowed(e, flags, max)
  {
    OperatorIff(flags);
  }

  lemma OperatorIff(flags: set<nat>)
    ensures flags * {ELEM_SUM, ELEM_SUB, ELEM_MUL} != {} <==> HasOperator(flags)
    ensures GenFlags(flags) != {} <==> HasOperator(flags)
  {
    if HasOperator(flags) {
      var f := if ELEM_SUM in flags then ELEM_SUM else if ELEM_SUB in flags then ELEM_SUB else ELEM_MUL;
      assert f in flags * {ELEM_SUM, ELEM_SUB, ELEM_MUL};
      var g := if ELEM_SUM in flags then GEN_OP_SUM else if ELEM_SUB in flags then GEN_OP_SUB else GEN_OP_MUL;
      assert g in GenFlags(flags);
    }
  }

  lemma GenFlagsUsable(flags: set<nat>)
    ensures GenFlags(flags) != {} <==> flags * {ELEM_SUM, ELEM_SUB, ELEM_MUL} != {}
    ensures GenFlags(flags) != {} ==> UsableFlags(GenFlags(flags))
  {
    if GenFlags(flags) != {} {
      var f :| f in flags * {ELEM_SUM, ELEM_SUB, ELEM_MUL};
      assert f in GenFlags(flags) * GEN_OP_ALL;
    }
  }

  /** `bitmask_choose` is never called with zero: as long as slots remain, something is offered. */
  lemma OfferedNonEmpty(b: Budgets, allowed: set<nat>, slots: nat)
    requires Balanced(b, allowed, slots) && UsableFlags(allowed) && slots > 0
    ensures Offered(b, allowed) != {}
    ensures forall f :: f in Offered(b, allowed) ==> f <= GEN_NR
  {
    if b.nrPossible {
      assert GEN_NR in Offered(b, allowed);
    } else if b.brRAvail > 0 {
      assert GEN_BR_R in Offered(b, allowed);
    } else {
      var f :| f in allowed * GEN_OP_ALL;
      assert f in Offered(b, allowed);
    }
  }

  /** Every offered element keeps the books balanced. */
  lemma SpendKeepsBalance(b: Budgets, allowed: set<nat>, slots: nat, e: Elem)
    requires Balanced(b, allowed, slots) && UsableFlags(allowed) && slots > 0
    requires FlagOf(e) in Offered(b, allowed)
    ensures Balanced(Spend(b, e), allowed, slots - 1)
  {
  }

  // -------- The loop as a function of the draws --------

  function Prepend<T>(front: seq<T>, o: Option<seq<T>>): Option<seq<T>> {
    match o case None => None case Some(s) => Some(front + s)
  }

  function Chosen(b: Budgets, allowed: set<nat>, max: nat, d: Draw): Elem
    requires max > 0
    requires Offered(b, allowed) != {} && forall f :: f in Offered(b, allowed) ==> f <= GEN_NR
  {
    var offered := Offered(b, allowed);
    var flag := NthBit(offered, d.rand % |offered|);
    NthBitRank(offered, d.rand % |offered|);
    ElemOf(flag, d.number % max)
  }

  /** The chain the loop emits, or `None` when an allocation fails. */
  ghost function Emit(b: Budgets, allowed: set<nat>, max: nat, draws: seq<Draw>): (r: Option<seq<Elem>>)
    requires max > 0 && UsableFlags(allowed) && Balanced(b, allowed, |draws|)
    ensures r.Some? ==> |r.value| == |draws|
    decreases |draws|
  {
    if draws == [] then Some([])
    else
      OfferedNonEmpty(b, allowed, |draws|);
      var e := Chosen(b, allowed, max, draws[0]);
      ChosenIsOffered(b, allowed, max, draws[0]);
      SpendKeepsBalance(b, allowed, |draws|, e);
      if !draws[0].granted then None
      else Prepend([e], Emit(Spend(b, e), allowed, max, draws[1..]))
  }

  lemma ChosenIsOffered(b: Budgets, allowed: set<nat>, max: nat, d: Draw)
    requires max > 0
    requires Offered(b, allowed) != {} && forall f :: f in Offered(b, allowed) ==> f <= GEN_NR
    ensures FlagOf(Chosen(b, allowed, max, d)) in Offered(b, allowed)
    ensures UsableFlags(allowed) ==> Permitted(Chosen(b, allowed, max, d), allowed, max)
  {
    var offered := Offered(b, allowed);
    var flag := NthBit(offered, d.rand % |offered|);
    NthBitRank(offered, d.rand % |offered|);
    FlagOfElemOf(flag, d.number % max);
    assert flag == GEN_NR || flag in allowed;
  }

  lemma FlagOfElemOf(flag: nat, number: int)
    requires flag <= GEN_NR
    ensures FlagOf(ElemOf(flag, number)) == flag
    ensures ElemOf(flag, number).Nr? ==> flag == GEN_NR && ElemOf(flag, number).nr == number
  {
  }

  // -------- Soundness and completeness --------

  /** Soundness: whatever the draws, the chain is one the scan accepts to its very end from the
      number of brackets still to be closed, and every element of it is permitted. */
  lemma {:induction false} EmitSound(b: Budgets, allowed: set<nat>, max: nat, draws: seq<Draw>)
    requires max > 0 && UsableFlags(allowed) && Balanced(b, allowed, |draws|)
    requires Emit(b, allowed, max, draws).Some?
    ensures var w := Emit(b, allowed, max, draws).value;
      Scan(w, b.brRAvail, b.nrPossible) == Accepts([]) && forall e :: e in w ==> Permitted(e, allowed, max)
    decreases |draws|
  {
    if draws != [] {
      OfferedNonEmpty(b, allowed, |draws|);
      var e := Chosen(b, allowed, max, draws[0]);
      ChosenIsOffered(b, allowed, max, draws[0]);
      SpendKeepsBalance(b, allowed, |draws|, e);
      EmitSound(Spend(b, e), allowed, max, draws[1..]);
      ScanStep(b, allowed, |draws|, e, Emit(Spend(b, e), allowed, max, draws[1..]).value);
    }
  }

  lemma ScanStep(b: Budgets, allowed: set<nat>, slots: nat, e: Elem, rest: seq<Elem>)
    requires Balanced(b, allowed, slots) && FlagOf(e) in Offered(b, allowed)
    requires Spend(b, e).brRAvail >= 0
    ensures Scan([e] + rest, b.brRAvail, b.nrPossible) == Scan(rest, Spend(b, e).brRAvail, Spend(b, e).nrPossible)
  {
    assert ([e] + rest)[1..] == rest;
  }

  /** Completeness: every permitted chain of the right length that the scan accepts is emitted for
      some draws, and this lemma computes them. */
  lemma {:induction false} EmitComplete(b: Budgets, allowed: set<nat>, max: nat, w: seq<Elem>)
    returns (draws: seq<Draw>)
    requires max > 0 && UsableFlags(allowed) && Balanced(b, allowed, |w|)
    requires Scan(w, b.brRAvail, b.nrPossible) == Accepts([])
    requires forall e :: e in w ==> Permitted(e, allowed, max)
    ensures |draws| == |w| && Emit(b, allowed, max, draws) == Some(w)
    decreases |w|
  {
    if w == [] { return []; }
    var e := w[0];
    assert w[0] in w;
    NextIsOffered(b, allowed, w);
    var d := DrawFor(b, allowed, max, |w|, e);
    SpendKeepsBalance(b, allowed, |w|, e);
    assert forall x :: x in w[1..] ==> x in w;
    ScanStep(b, allowed, |w|, e, w[1..]);
    assert w == [e] + w[1..];
    var more := EmitComplete(Spend(b, e), allowed, max, w[1..]);
    draws := [d] + more;
    assert draws[1..] == more;
  }

  /** Each offered element is produced by some draw. */
  lemma DrawFor(b: Budgets, allowed: set<nat>, max: nat, slots: nat, e: Elem) returns (d: Draw)
    requires max > 0 && UsableFlags(allowed) && Balanced(b, allowed, slots) && slots > 0
    requires FlagOf(e) in Offered(b, allowed) && Permitted(e, allowed, max)
    ensures d.granted && Offered(b, allowed) != {} && forall f :: f in Offered(b, allowed) ==> f <= GEN_NR
    ensures Chosen(b, allowed, max, d) == e
  {
    OfferedNonEmpty(b, allowed, slots);
    var offered := Offered(b, allowed);
    var index := EveryBitIsChosen(offered, FlagOf(e));
    var number := if e.Nr? then e.nr else 0;
    d := Draw(index, number, true);
    SmallMod(index, |offered|);
    SmallMod(number, max);
    ElemOfFlagOf(e);
  }

  lemma ElemOfFlagOf(e: Elem)
    ensures ElemOf(FlagOf(e), if e.Nr? then e.nr else 0) == e
  {
    match e {
      case Op(op) => match op { case Plus => case Minus => case Times => }
      case Br(br) => match br { case Open => case Close => }
      case Nr(_) =>
    }
  }

  lemma NextIsOffered(b: Budgets, allowed: set<nat>, w: seq<Elem>)
    requires UsableFlags(allowed) && Balanced(b, allowed, |w|) && w != []
    requires Scan(w, b.brRAvail, b.nrPossible) == Accepts([])
    requires !w[0].Nr? ==> FlagOf(w[0]) in allowed
    ensures FlagOf(w[0]) in Offered(b, allowed)
  {
    if w[0] == Br(Open) {
      ScanLength(w[1..], b.brRAvail + 1, true);
    } else if w[0].Op? {
      ScanLength(w[1..], b.brRAvail, true);
    }
  }

  lemma InitialBalance(len: nat, allowed: set<nat>)
    requires len % 2 == 1
    ensures Balanced(InitialBudgets(len), allowed, len)
  {
  }

  ghost predicate Reachable(len: nat, allowed: set<nat>, max: nat, w: seq<Elem>)
    requires len % 2 == 1 && max > 0 && UsableFlags(allowed)
  {
    InitialBalance(len, allowed);
    exists draws: seq<Draw> :: |draws| == len && Emit(InitialBudgets(len), allowed, max, draws) == Some(w)
  }

  lemma ReachableBy(len: nat, allowed: set<nat>, max: nat, draws: seq<Draw>, w: seq<Elem>)
    requires len % 2 == 1 && max > 0 && UsableFlags(allowed) && |draws| == len
    requires Balanced(InitialBudgets(len), allowed, len)
    requires Emit(InitialBudgets(len), allowed, max, draws) == Some(w)
    ensures Reachable(len, allowed, max, w)
  {
  }

  /** The chains reachable with length `len` are exactly the sentences of that length that use
      permitted elements only. */
  lemma {:induction false} ReachableIffSentence(len: nat, allowed: set<nat>, max: nat, w: seq<Elem>)
    requires len % 2 == 1 && max > 0 && UsableFlags(allowed)
    ensures Reachable(len, allowed, max, w)
       <==> (IsSentence(w) && |w| == len && forall e :: e in w ==> Permitted(e, allowed, max))
  {
    InitialBalance(len, allowed);
    EqSolve.SentenceIffScan(w);
    var b := InitialBudgets(len);
    if draws :| |draws| == len && Emit(b, allowed, max, draws) == Some(w) {
      EmitSound(b, allowed, max, draws);
    }
    if IsSentence(w) && |w| == len && forall e :: e in w ==> Permitted(e, allowed, max) {
      var draws := EmitComplete(b, allowed, max, w);
    }
  }

  // -------- Choosing the length --------

  function LowBound(minlen: int): int { if minlen <= 0 then 1 else minlen }

  function HighBound(maxlen: int): int { if maxlen <= 0 then RAND_MAX else maxlen }

  /** The lengths a caller can get: the odd ones between the bounds, and one just outside a bound
      that is even, provided the bounds differ. */
  predicate PossibleLength(minlen: int, maxlen: int, len: int) {
    var lo, hi := LowBound(minlen), HighBound(maxlen);
    len % 2 == 1 && lo <= hi &&
    (lo <= len <= hi || (lo < hi && (len == lo - 1 || len == hi + 1)))
  }

  function RandEqLen(minlen: int, maxlen: int, draw: nat): int {
    var lo, hi := LowBound(minlen), HighBound(maxlen);
    if lo > hi then 0
    else
      var len := draw % (hi - lo + 1) + lo;
      if len % 2 != 0 then len
      else if len != hi then len - 1
      else if len != lo then len + 1
      else 0
  }

  /** The same in plain numbers: 0 or less asks for no lower bound, or for the greatest random number as the
      upper one. */
  lemma PossibleLengthIff(minlen: int, maxlen: int, len: int)
    ensures PossibleLength(minlen, maxlen, len) <==>
      && len % 2 == 1 && len >= 1
      && var hi := if maxlen > 0 then maxlen else 2147483647;
        (minlen <= len || (minlen == len + 1 && minlen < hi)) && (len <= hi || (len == hi + 1 && minlen < hi && hi > 1))
        && minlen <= hi
  {
  }

  /** 0 stands for failure, and happens exactly when the range is empty or one single even number. */
  lemma RandEqLenFailure(minlen: int, maxlen: int, draw: nat)
    ensures RandEqLen(minlen, maxlen, draw) == 0
       <==> (LowBound(minlen) > HighBound(maxlen)
             || (LowBound(minlen) == HighBound(maxlen) && LowBound(minlen) % 2 == 0))
    ensures RandEqLen(minlen, maxlen, draw) != 0 ==> PossibleLength(minlen, maxlen, RandEqLen(minlen, maxlen, draw))
  {
    var lo, hi := LowBound(minlen), HighBound(maxlen);
    if lo <= hi {
      assert 0 <= draw % (hi - lo + 1) < hi - lo + 1;
    }
  }

  /** Every possible length is reached, even the two just outside the bounds. */
  lemma {:induction false} RandEqLenReaches(minlen: int, maxlen: int, len: int) returns (draw: nat)
    requires PossibleLength(minlen, maxlen, len)
    ensures RandEqLen(minlen, maxlen, draw) == len && draw < HighBound(maxlen) - LowBound(minlen) + 1
  {
    var lo, hi := LowBound(minlen), HighBound(maxlen);
    var aim := if len == lo - 1 then lo else if len == hi + 1 then hi else len;
    draw := aim - lo;
    SmallMod(draw, hi - lo + 1);
  }

  /** The length stays within the bounds for every draw exactly when there is at most one length between them or
      both are odd. */
  lemma LengthInBoundsIff(minlen: int, maxlen: int)
    ensures (forall draw: nat :: var len := RandEqLen(minlen, maxlen, draw);
               len == 0 || LowBound(minlen) <= len <= HighBound(maxlen))
       <==> LowBound(minlen) >= HighBound(maxlen) || (LowBound(minlen) % 2 == 1 && HighBound(maxlen) % 2 == 1)
  {
    hide RandEqLen;
    var lo, hi := LowBound(minlen), HighBound(maxlen);
    forall draw: nat
      ensures RandEqLen(minlen, maxlen, draw) == 0 || PossibleLength(minlen, maxlen, RandEqLen(minlen, maxlen, draw))
    {
      RandEqLenFailure(minlen, maxlen, draw);
    }
    if lo < hi && (lo % 2 == 0 || hi % 2 == 0) {
      var len := if lo % 2 == 0 then lo - 1 else hi + 1;
      var draw := RandEqLenReaches(minlen, maxlen, len);
      assert RandEqLen(minlen, maxlen, draw) == len;
    }
  }

  /** Between 2 and 4, a draw of 0 gives the length 1 and a draw of 2 the length 5. */
  lemma LengthOutOfBoundsExample()
    ensures RandEqLen(2, 4, 0) == 1 && RandEqLen(2, 4, 2) == 5
  {
  }

  // -------- eq_generate --------

  function FirstDraws(draws: nat -> Draw, len: nat): (s: seq<Draw>)
    ensures |s| == len && forall i :: 0 <= i < len ==> s[i] == draws(i)
  {
    seq(len, (i: nat) => draws(i))
  }

  ghost function Generated(minlen: int, maxlen: int, max: nat, flags: set<nat>, lenDraw: nat,
      draws: nat -> Draw): Option<seq<Elem>>
    requires max > 0
  {
    GenFlagsUsable(flags);
    RandEqLenFailure(minlen, maxlen, lenDraw);
    var allowed, len := GenFlags(flags), RandEqLen(minlen, maxlen, lenDraw);
    if allowed == {} || len == 0 then None
    else
      InitialBalance(len, allowed);
      Emit(InitialBudgets(len), allowed, max, FirstDraws(draws, len))
  }

  /** The whole generator: the equations a caller can get are exactly the sentences of a possible
      length over the operators and brackets it allowed and the numbers below `max`. Without an
      allowed operator there are none. */
  lemma {:induction false} GeneratedIffSentence(minlen: int, maxlen: int, max: nat, flags: set<nat>, w: seq<Elem>)
    requires max > 0
    ensures (exists lenDraw: nat, draws: nat -> Draw ::
               Generated(minlen, maxlen, max, flags, lenDraw, draws) == Some(w))
       <==> (HasOperator(flags) && IsSentence(w) && PossibleLength(minlen, maxlen, |w|)
             && forall e :: e in w ==> Allowed(e, flags, max))
  {
    if lenDraw: nat, draws: nat -> Draw :| Generated(minlen, maxlen, max, flags, lenDraw, draws) == Some(w) {
      GeneratedIsSentence(minlen, maxlen, max, flags, lenDraw, draws);
    }
    if HasOperator(flags) && IsSentence(w) && PossibleLength(minlen, maxlen, |w|)
       && forall e :: e in w ==> Allowed(e, flags, max) {
      var lenDraw, draws := SentenceIsGenerated(minlen, maxlen, max, flags, w);
    }
  }

  lemma {:induction false} GeneratedIsSentence(minlen: int, maxlen: int, max: nat, flags: set<nat>, lenDraw: nat,
      draws: nat -> Draw)
    requires max > 0
    requires Generated(minlen, maxlen, max, flags, lenDraw, draws).Some?
    ensures var w := Generated(minlen, maxlen, max, flags, lenDraw, draws).value;
      HasOperator(flags) && IsSentence(w) && PossibleLength(minlen, maxlen, |w|)
      && forall e :: e in w ==> Allowed(e, flags, max)
  {
    GenFlagsUsable(flags);
    OperatorIff(flags);
    RandEqLenFailure(minlen, maxlen, lenDraw);
    var allowed, len := GenFlags(flags), RandEqLen(minlen, maxlen, lenDraw);
    var w := Generated(minlen, maxlen, max, flags, lenDraw, draws).value;
    InitialBalance(len, allowed);
    ReachableBy(len, allowed, max, FirstDraws(draws, len), w);
    ReachableIffSentence(len, allowed, max, w);
    AllAllowed(w, flags, max);
  }

  lemma AllAllowed(w: seq<Elem>, flags: set<nat>, max: nat)
    requires HasOperator(flags)
    ensures (forall e :: e in w ==> Permitted(e, GenFlags(flags), max))
       <==> (forall e :: e in w ==> Allowed(e, flags, max))
  {
    hide Permitted, Allowed, GenFlags;
    forall e | e in w
      ensures Permitted(e, GenFlags(flags), max) <==> Allowed(e, flags, max)
    {
      PermittedIffAllowed(e, flags, max);
    }
  }

  lemma {:induction false} SentenceIsGenerated(minlen: int, maxlen: int, max: nat, flags: set<nat>, w: seq<Elem>)
    returns (lenDraw: nat, draws: nat -> Draw)
    requires max > 0
    requires HasOperator(flags) && IsSentence(w) && PossibleLength(minlen, maxlen, |w|)
    requires forall e :: e in w ==> Allowed(e, flags, max)
    ensures Generated(minlen, maxlen, max, flags, lenDraw, draws) == Some(w)
  {
    var allowed := GenFlags(flags);
    GenFlagsUsable(flags);
    OperatorIff(flags);
    AllAllowed(w, flags, max);
    InitialBalance(|w|, allowed);
    EqSolve.SentenceIffScan(w);
    lenDraw := RandEqLenReaches(minlen, maxlen, |w|);
    var s := EmitComplete(InitialBudgets(|w|), allowed, max, w);
    draws := (i: nat) => if i < |s| then s[i] else Draw(0, 0, true);
    assert FirstDraws(draws, |w|) == s;
  }

  /** `eq_generate`, with everything random passed in: `lenDraw` for the length, `draws(i)` for the
      i-th run through the loop, `granted` for the first `malloc`. GMP needs `max` positive. */
  method Generate(minlen: int, maxlen: int, max: nat, flags: set<nat>,
                  lenDraw: nat, granted: bool, draws: nat -> Draw)
    returns (r: Option<seq<Elem>>)
    requires max > 0
    ensures r == if granted then Generated(minlen, maxlen, max, flags, lenDraw, draws) else None
    ensures r.Some? ==> IsSentence(r.value) && PossibleLength(minlen, maxlen, |r.value|)
    ensures r.Some? ==> HasOperator(flags) && forall e :: e in r.value ==> Allowed(e, flags, max)
  {
    GenFlagsUsable(flags);
    RandEqLenFailure(minlen, maxlen, lenDraw);
    var allowed := GenFlags(flags);
    if allowed == {} { return None; }
    var chainLen := RandEqLen(minlen, maxlen, lenDraw);
    if chainLen == 0 { return None; }
    if !granted { return None; }
    InitialBalance(chainLen, allowed);
    r := GenerateChain(chainLen, allowed, max, draws);
    if r.Some? {
      GeneratedIsSentence(minlen, maxlen, max, flags, lenDraw, draws);
    }
  }

  /** The head of the loop body: the flag word the next element is chosen from. It is never zero while slots are
      left. */
  method OfferFlags(b: Budgets, allowed: set<nat>) returns (flags: set<nat>)
    ensures flags == Offered(b, allowed)
    ensures forall slots: nat :: Balanced(b, allowed, slots) && UsableFlags(allowed) && slots > 0 ==> flags != {}
  {
    forall slots: nat | Balanced(b, allowed, slots) && UsableFlags(allowed) && slots > 0
      ensures Offered(b, allowed) != {}
    {
      OfferedNonEmpty(b, allowed, slots);
    }
    flags := {};
    if b.brLPossible { flags := flags + {GEN_BR_L}; }
    if b.brRPossible { flags := flags + {GEN_BR_R}; }
    if b.opPossible { flags := flags + GEN_OP_ALL; }
    flags := flags * allowed;
    if b.nrPossible { flags := flags + {GEN_NR}; }
  }

  /** The tail of the loop body: the bookkeeping for the element just made, which keeps the budgets balanced. */
  method Charge(b: Budgets, e: Elem) returns (b': Budgets)
    ensures b' == Spend(b, e)
    ensures forall allowed, slots: nat ::
      Balanced(b, allowed, slots) && UsableFlags(allowed) && slots > 0 && FlagOf(e) in Offered(b, allowed) ==>
        Balanced(b', allowed, slots - 1)
  {
    forall allowed, slots: nat |
      Balanced(b, allowed, slots) && UsableFlags(allowed) && slots > 0 && FlagOf(e) in Offered(b, allowed)
      ensures Balanced(Spend(b, e), allowed, slots - 1)
    {
      SpendKeepsBalance(b, allowed, slots, e);
    }
    var brLAvail, brRAvail, opAvail, nrAvail := b.brLAvail, b.brRAvail, b.opAvail, b.nrAvail;
    var brLPossible, brRPossible, opPossible, nrPossible;
    if e.Op? {
      opAvail := opAvail - 1;
      brLPossible, brRPossible, opPossible, nrPossible := brLAvail > 0, false, false, nrAvail > 0;
    } else if e.Br? {
      if e.br == Open {
        brLAvail, brRAvail, nrAvail, opAvail := brLAvail - 1, brRAvail + 1, nrAvail - 1, opAvail - 1;
        brLPossible, brRPossible, opPossible, nrPossible := brLAvail > 0, false, false, nrAvail > 0;
      } else {
        brRAvail := brRAvail - 1;
        brLPossible, brRPossible, opPossible, nrPossible := false, brRAvail > 0, opAvail > 0, false;
      }
    } else {
      nrAvail, brLAvail := nrAvail - 1, brLAvail - 1;
      brLPossible, brRPossible, opPossible, nrPossible := false, brRAvail > 0, opAvail > 0, false;
    }
    b' := Budgets(brLAvail, brRAvail, opAvail, nrAvail, brLPossible, brRPossible, opPossible, nrPossible);
  }

  /** The loop of `eq_generate`. */
  method GenerateChain(chainLen: nat, allowed: set<nat>, max: nat, draws: nat -> Draw) returns (r: Option<seq<Elem>>)
    requires max > 0 && UsableFlags(allowed) && Balanced(InitialBudgets(chainLen), allowed, chainLen)
    ensures r == Emit(InitialBudgets(chainLen), allowed, max, FirstDraws(draws, chainLen))
  {
    hide Spend, Balanced, UsableFlags, Offered;
    var chain: seq<Elem> := [];
    var b := InitialBudgets(chainLen);
    ghost var all := FirstDraws(draws, chainLen);
    assert all[0..] == all;
    PrependNothing(Emit(b, allowed, max, all));

    for i := 0 to chainLen
      invariant Balanced(b, allowed, chainLen - i)
      invariant Emit(InitialBudgets(chainLen), allowed, max, all) == Prepend(chain, Emit(b, allowed, max, all[i..]))
    {
      LoopStep(chain, b, allowed, max, all[i..]);
      assert all[i..][0] == draws(i);
      assert all[i..][1..] == all[i + 1..];
      var flags := OfferFlags(b, allowed);
      var flag := BitmaskChoose(flags, draws(i).rand);
      if !draws(i).granted { return None; }
      var e := ElemOf(flag, draws(i).number % max);
      b := Charge(b, e);
      chain := chain + [e];
    }
    r := Some(chain);
    assert all[chainLen..] == [];
    assert chain + [] == chain;
  }

  /** One run through the loop. */
  lemma LoopStep(chain: seq<Elem>, b: Budgets, allowed: set<nat>, max: nat, draws: seq<Draw>)
    requires max > 0 && UsableFlags(allowed) && Balanced(b, allowed, |draws|) && draws != []
    ensures Offered(b, allowed) != {} && forall f :: f in Offered(b, allowed) ==> f <= GEN_NR
    ensures var e := Chosen(b, allowed, max, draws[0]);
      Balanced(Spend(b, e), allowed, |draws| - 1) &&
      Prepend(chain, Emit(b, allowed, max, draws)) ==
        if draws[0].granted then Prepend(chain + [e], Emit(Spend(b, e), allowed, max, draws[1..])) else None
  {
    OfferedNonEmpty(b, allowed, |draws|);
    var e := Chosen(b, allowed, max, draws[0]);
    ChosenIsOffered(b, allowed, max, draws[0]);
    SpendKeepsBalance(b, allowed, |draws|, e);
    PrependTwice(chain, e, Emit(Spend(b, e), allowed, max, draws[1..]));
  }

  lemma PrependNothing<T>(o: Option<seq<T>>)
    ensures Prepend([], o) == o
  {
    if o.Some? { assert [] + o.value == o.value; }
  }

  lemma PrependTwice<T>(front: seq<T>, e: T, o: Option<seq<T>>)
    ensures Prepend(front, Prepend([e], o)) == Prepend(front + [e], o)
  {
    if o.Some? { assert front + ([e] + o.value) == front + [e] + o.value; }
  }
}
