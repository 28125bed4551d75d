/** Connections whose tasks are equations: what the client has to send. */
module EqSession {
  import opened Common
  import opened Equation
  import opened EqAnswer
  import opened Connection
  import EqPrint
  import EqRead

  /** The question's text is that of the equation. */
  ghost predicate Shows(job: Job, e: Expression) {
    job.text == EqPrint.Text(FlattenExpression(e))
  }

  /** The event makes the worker ask for a verdict. */
  predicate Asks(e: Event) {
    e.FromTimer? || e.e.input
  }

  function Answer(e: Event): AnswerState {
    match e
    case FromClient(c) => c.answer
    case FromTimer(answer, _) => answer
  }

  function SupplyOf(e: Event): Supply {
    match e
    case FromClient(c) => c.supply
    case FromTimer(_, supply) => supply
  }

  /** A run in which every task that is judged is an equation; `inputs[i]` is what the client's bytes are when
      the i-th event asks for a verdict. */
  ghost predicate Session(states: seq<Conn>, events: seq<Event>, inputs: seq<string>, first: Supply,
      quota: nat -> nat) {
    && Run(states, events, first, quota)
    && |inputs| == |events|
    && forall i :: 0 <= i < |events| && Asks(events[i]) ==> GradedAt(states, events, inputs, i)
  }

  ghost predicate GradedAt(states: seq<Conn>, events: seq<Event>, inputs: seq<string>, i: nat)
    requires i < |events| == |inputs| && |states| == |events| + 1
  {
    && states[i].task.Some?
    && exists e :: Shows(states[i].task.value, e) && Answer(events[i]) == Grade(e, inputs[i])
  }

  /** The worker asks for a verdict on the bytes of an event: the client stays connected exactly when the number
      in them is what the text of its question is worth, there is a next task, and, for a client event, it did not
      hang up and epoll does not refuse when the last byte of the next message goes out. */
  lemma AnsweredIff(c: Conn, ev: Event, quota: nat -> nat, bytes: string, shown: Expression)
    requires c.Valid() && Possible(c, ev) && Asks(ev)
    requires Shows(c.task.value, shown) && Answer(ev) == Grade(shown, bytes)
    ensures Step(c, ev, quota).1 <==>
      && ReadNumber(bytes) == EqRead.ValueOf(c.task.value.text) && Supplies(SupplyOf(ev))
      && (ev.FromClient? ==> !ev.e.hangup && (Finishes(c, ev.e, quota) ==> ev.e.modified))
  {
    hide ReadNumber, OnClient, OnTimer, Conn.Valid, Finishes, EqRead.ValueOf;
    ValidHasTask(c);
    RightIffShown(shown, bytes);
    match ev
    case FromClient(e) => StaysIff(c, e, quota);
    case FromTimer(answer, supply) => TimerLeaves(c, answer, supply);
  }

  lemma ValidHasTask(c: Conn)
    requires c.Valid()
    ensures c.task.Some? && c.now.Some?
  {
  }

  lemma SameEquation(job: Job, d: Expression, e: Expression)
    requires Shows(job, d) && Shows(job, e)
    ensures d == e
  {
    EqPrint.TextInjective(d, e);
  }

  lemma ValueShown(job: Job, e: Expression)
    requires Shows(job, e)
    ensures EqRead.ValueOf(job.text) == Some(ExpressionValue(e))
  {
    hide EqRead.ValueOf;
    EqPrint.ValueOfText(e);
  }

  /** In every session, each verdict that the connection survives was on the value of the equation shown, and
      brought exactly one more task; no other event brings one. */
  lemma SessionTasks(states: seq<Conn>, events: seq<Event>, inputs: seq<string>, first: Supply, quota: nat -> nat,
      i: nat, e: Expression)
    requires Session(states, events, inputs, first, quota) && i < |events|
    requires states[i].task.Some? && Shows(states[i].task.value, e)
    ensures Asks(events[i]) ==>
      && ReadNumber(inputs[i]) == EqRead.ValueOf(states[i].task.value.text) == Some(ExpressionValue(e))
      && SupplyOf(events[i]).job.Some?
    ensures states[i + 1].Jobs()
         == states[i].Jobs() + if Asks(events[i]) then [SupplyOf(events[i]).job.value] else []
  {
    hide Conn.Valid, Conn.Jobs, Conn.Honest, Conn.Wire, OnClient, OnTimer, ReadNumber, Shows;
    hide EqRead.ValueOf, Finishes;
    var c, ev := states[i], events[i];
    FollowsAt(states, events, first, quota, i);
    if Asks(ev) {
      assert GradedAt(states, events, inputs, i);
      var shown :| Shows(c.task.value, shown) && Answer(ev) == Grade(shown, inputs[i]);
      AnsweredIff(c, ev, quota, inputs[i], shown);
      SameEquation(c.task.value, shown, e);
      ValueShown(c.task.value, e);
    }
    match ev
    case FromClient(client) => OnClientKeeps(c, client, quota);
    case FromTimer(answer, supply) => OnTimerKeeps(c, answer, supply);
  }

  lemma FollowsAt(states: seq<Conn>, events: seq<Event>, first: Supply, quota: nat -> nat, i: nat)
    requires Run(states, events, first, quota) && i < |events|
    ensures states[i].Valid() && Follows(states, events, quota, i)
  {
    hide Follows, Conn.Valid;
    RunPrefix(states, events, first, quota, i);
    RunValid(states[..i + 1], events[..i], first, quota);
  }
}
