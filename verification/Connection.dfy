/** One connection of server_worker.c as a state machine on values: what each event does to the current
    task, its question, the unsent bytes and the epoll interest, and what the socket is given. */
module Connection {
  import opened Common
  import opened StreamSpec
  import opened Equation
  import EqPrint
  import EqRead
  import EqSolve

  /** What the plot hands out: the text of the task's question, and the timeout. */
  datatype Job = Job(text: seq<char>, timeout: ulong)

  // -------- What is queued for a task --------

  /** The text behind the question: from snprintf, or the whole array of the no-timeout branch with its
      terminating NUL. */
  function Prompt(timeout: ulong): seq<char> {
    if timeout != 0 then "\nAnswer (timeout " + EqPrint.Decimal(timeout) + " msec): "
    else "\nAnswer (no timeout): \0"
  }

  lemma {:induction false} DigitsBound(n: nat, width: nat, bound: nat)
    requires width > 0 && n < bound && bound == Power(width)
    ensures |EqPrint.Digits(n)| <= width
    decreases width
  {
    if n >= 10 {
      assert width > 1;
      DigitsBound(n / 10, width - 1, Power(width - 1));
    }
  }

  function Power(width: nat): nat { if width == 0 then 1 else 10 * Power(width - 1) }

  lemma PowerTwenty()
    ensures Power(20) == 100_000_000_000_000_000_000
  {
    assert Power(4) == 10_000;
    assert Power(8) == 10_000 * Power(4);
    assert Power(12) == 10_000 * Power(8);
    assert Power(16) == 10_000 * Power(12);
    assert Power(20) == 10_000 * Power(16);
  }

  /** snprintf never truncates the prompt. */
  lemma PromptFits(timeout: ulong)
    ensures |Prompt(timeout)| < 256
  {
    PowerTwenty();
    DigitsBound(timeout, 20, Power(20));
  }

  /** A reader of the prompt finds the timeout in it. */
  lemma PromptReads(timeout: ulong)
    ensures timeout == 0 ==> Prompt(timeout) == "\nAnswer (no timeout): \0"
    ensures timeout != 0 ==>
      var lead, p := "\nAnswer (timeout ", Prompt(timeout);
      && lead <= p
      && var shown := p[|lead|..]; var k := EqRead.Numerals(shown);
        shown[k..] == " msec): " && EqRead.NumberOf(shown[..k]) == timeout
  {
    if timeout != 0 {
      var d, tail := EqPrint.Decimal(timeout), " msec): ";
      EqPrint.NumberOfDigits(timeout);
      EqRead.NumeralsOf(d, tail);
      assert Prompt(timeout)[|"\nAnswer (timeout "|..] == d + tail;
      assert (d + tail)[..|d|] == d && (d + tail)[|d|..] == tail;
    }
  }

  function Push(parts: seq<seq<char>>, data: seq<char>, granted: bool): seq<seq<char>> {
    if granted && |Flatten(parts)| + |data| <= SIZE_MAX then parts + [data] else parts
  }

  /** `client_send_task_text` on an empty stream. Neither write is checked. */
  function Queue(job: Job, text: bool, prompt: bool): seq<seq<char>> {
    Push(Push([], job.text, text), Prompt(job.timeout), prompt)
  }

  lemma QueueParts(job: Job, text: bool, prompt: bool)
    ensures var first := if text && |job.text| <= SIZE_MAX then [job.text] else [];
      && |Flatten(first)| == (if first == [] then 0 else |job.text|)
      && Queue(job, text, prompt) == first +
           if prompt && |Flatten(first)| + |Prompt(job.timeout)| <= SIZE_MAX then [Prompt(job.timeout)] else []
  {
    FlattenAppend([], job.text);
    assert [] + [job.text] == [job.text];
  }

  lemma QueueStores(job: Job, text: bool, prompt: bool)
    ensures var first := if text && |job.text| <= SIZE_MAX then job.text else [];
      Flatten(Queue(job, text, prompt))
        == first + if prompt && |first| + |Prompt(job.timeout)| <= SIZE_MAX then Prompt(job.timeout) else []
  {
    FlattenAppend([], job.text);
    FlattenAppend(Push([], job.text, text), Prompt(job.timeout));
  }

  // -------- The connection --------

  /** The bytes queued for one task and those of them that the socket took. */
  datatype Sending = Sending(job: Job, text: bool, prompt: bool, delivered: seq<char>)
  {
    function Message(): seq<char> {
      Flatten(Queue(job, text, prompt))
    }
  }

  datatype Conn = Conn(
    task: Option<Job>,
    question: Option<seq<char>>,
    parts: seq<seq<char>>,      // the send stream
    input: bool,                // EPOLLIN and EPOLLOUT in the epoll entry; EPOLLRDHUP is always there
    output: bool,
    timers: nat,                // the length of the timer ring
    calls: nat,                 // of the socket's write
    past: seq<Sending>,
    now: Option<Sending>,       // of the current task
    lost: nat)                  // questions overwritten by the next one
  {
    /** Holds between any two events. */
    ghost predicate Valid() {
      && task.Some? && now.Some? && now.value.job == task.value
      && input && (output <==> question.Some?)
      && now.value.Message() == now.value.delivered + Flatten(parts)
      && (question.Some? ==> question.value == task.value.text && (Flatten(parts) == [] ==> now.value.delivered == []))
      && (question.None? ==> Flatten(parts) == [])
      && forall s :: s in past ==> s.delivered <= s.Message()
    }

    lemma HasTask()
      requires Valid()
      ensures task.Some? && now.Some?
    {
    }

    /** For every task, what the socket was given is the beginning of its message. */
    ghost predicate Honest() {
      forall s :: s in past + (if now.Some? then [now.value] else []) ==> s.delivered <= s.Message()
    }

    /** The tasks handed out so far. */
    function Jobs(): seq<Job> {
      JobsOf(past + if now.Some? then [now.value] else [])
    }

    /** Everything the socket was given. */
    function Wire(): seq<char> {
      WireOf(past, now)
    }
  }

  function WireOf(past: seq<Sending>, now: Option<Sending>): seq<char> {
    Sent(past) + if now.Some? then now.value.delivered else []
  }

  function Sent(past: seq<Sending>): seq<char> {
    if past == [] then [] else Sent(past[..|past| - 1]) + past[|past| - 1].delivered
  }

  /** The next task starts with nothing given. */
  lemma WireNext(past: seq<Sending>, now: Option<Sending>, next: Sending)
    requires next.delivered == []
    ensures WireOf(if now.Some? then past + [now.value] else past, None) == WireOf(past, now)
    ensures WireOf(past, Some(next)) == WireOf(past, None)
  {
    if now.Some? {
      assert (past + [now.value])[..|past|] == past;
    }
  }

  lemma WireMore(past: seq<Sending>, now: Sending, taken: seq<char>)
    ensures WireOf(past, Some(now.(delivered := now.delivered + taken))) == WireOf(past, Some(now)) + taken
  {
  }

  function JobsOf(s: seq<Sending>): seq<Job> {
    seq(|s|, i requires 0 <= i < |s| => s[i].job)
  }

  lemma ValidIsHonest(c: Conn)
    requires c.Valid()
    ensures c.Honest()
  {
  }

  /** After `client_create`. */
  function Created(calls: nat): Conn {
    Conn(None, None, [], false, false, 0, calls, [], None, 0)
  }

  /** Outcomes of `plot_get_task`, `plot_task_get_question`, `epoll_ctl` and the memory for the two writes. */
  datatype Supply = Supply(job: Option<Job>, question: bool, modified: bool, text: bool, prompt: bool)

  predicate Supplies(s: Supply) {
    s.job.Some? && s.question && s.modified
  }

  function Flushed(c: Conn): Conn {
    c.(parts := [], task := None, past := if c.now.Some? then c.past + [c.now.value] else c.past, now := None)
  }

  function Asked(c: Conn, job: Job, text: bool, prompt: bool): Conn {
    c.(task := Some(job), question := Some(job.text), parts := Queue(job, text, prompt),
       input := true, output := true,
       now := Some(Sending(job, text, prompt, [])),
       lost := c.lost + if c.question.Some? then 1 else 0)
  }

  /** `client_next_task`; the flag says that it returned 0. */
  function NextTask(c: Conn, s: Supply): (Conn, bool) {
    if !Supplies(s) then (Flushed(c), false)
    else (Asked(Flushed(c), s.job.value, s.text, s.prompt), true)
  }

  /** `bstream_read_fd` of all that is stored. */
  ghost function HandedOver(c: Conn, quota: nat -> nat): Conn
    requires c.now.Some?
  {
    var r := ReadRun(c.parts, |Flatten(c.parts)|, quota, c.calls);
    c.(parts := r.parts, calls := r.calls, now := Some(c.now.value.(delivered := c.now.value.delivered + r.taken)))
  }

  /** The question goes; then EPOLLOUT is no longer asked for, and the timer of the task starts. */
  function AfterAllSent(c: Conn, modified: bool, timer: bool): Conn
    requires c.task.Some?
  {
    if !modified then c.(question := None)
    else
      c.(question := None, output := false,
         timers := c.timers + if c.task.value.timeout != 0 && timer then 1 else 0)
  }

  /** `client_send_text`. `modified` and `timer` are the outcomes of `epoll_ctl` and `client_timer_setup`. */
  ghost function SendText(c: Conn, quota: nat -> nat, modified: bool, timer: bool): (Conn, bool)
    requires c.task.Some? && c.now.Some?
  {
    if c.question.None? then (c, true)
    else
      var sent := HandedOver(c, quota);
      if Flatten(sent.parts) != [] then (sent, true) else (AfterAllSent(sent, modified, timer), modified)
  }

  /** A SWET_CLIENT event: the flags epoll reported, the answer the generator gives if it is asked, and the
      outcomes of the calls made on the way. */
  datatype ClientEvent = ClientEvent(input: bool, output: bool, hangup: bool, answer: AnswerState, supply: Supply,
      modified: bool, timer: bool)

  /** The end of the SWET_CLIENT branch. The flag says that the client stays connected. */
  ghost function WriteOut(c: Conn, e: ClientEvent, quota: nat -> nat): (Conn, bool)
    requires c.task.Some? && c.now.Some?
  {
    if e.output then
      var r := SendText(c, quota, e.modified, e.timer);
      (r.0, r.1 && !e.hangup)
    else (c, !e.hangup)
  }

  /** The SWET_CLIENT branch. An answer that is not complete yet ends the pass, whatever else was reported. */
  ghost function OnClient(c: Conn, e: ClientEvent, quota: nat -> nat): (Conn, bool)
    requires c.task.Some? && c.now.Some?
  {
    if !e.input then WriteOut(c, e, quota)
    else
      match e.answer
      case Wrong => (c, false)
      case More => (c, true)
      case Right =>
        var r := NextTask(c, e.supply);
        if r.1 then WriteOut(r.0, e, quota) else r
  }

  /** The SWET_TIMER branch. */
  function OnTimer(c: Conn, answer: AnswerState, s: Supply): (Conn, bool)
    requires c.task.Some? && c.timers > 0
  {
    var fired := c.(timers := c.timers - 1);
    if answer != Right then (fired, false) else NextTask(fired, s)
  }

  // -------- What every event keeps --------

  lemma JobsMore(s: seq<Sending>, x: Sending)
    ensures JobsOf(s + [x]) == JobsOf(s) + [x.job]
  {
  }

  lemma NextTaskJobs(c: Conn, s: Supply)
    ensures NextTask(c, s).0.Jobs() == c.Jobs() + if Supplies(s) then [s.job.value] else []
  {
    hide JobsOf;
    var d := NextTask(c, s).0;
    var past := c.past + if c.now.Some? then [c.now.value] else [];
    assert d.past == past && past + [] == past;
    if Supplies(s) { JobsMore(past, d.now.value); }
    assert JobsOf(past) + [] == JobsOf(past);
  }

  /** The bytes given to the socket only grow; those of the flushed task stay given. */
  lemma NextTaskKeeps(c: Conn, s: Supply)
    requires c == Created(c.calls) || c.Valid()
    ensures NextTask(c, s).0.Wire() == c.Wire()
    ensures NextTask(c, s).1 ==> NextTask(c, s).0.Valid()
    ensures NextTask(c, s).1 == Supplies(s) && NextTask(c, s).0.Honest()
    ensures NextTask(c, s).0.Jobs() == c.Jobs() + if Supplies(s) then [s.job.value] else []
  {
    hide Flatten, Queue, Push, JobsOf, Conn.Jobs, WireOf;
    var d := NextTask(c, s).0;
    var next := Sending(if s.job.Some? then s.job.value else Job([], 0), s.text, s.prompt, []);
    WireNext(c.past, c.now, next);
    WireNext(d.past, c.now, next);
    NextTaskJobs(c, s);
  }

  lemma SendTextKeeps(c: Conn, quota: nat -> nat, modified: bool, timer: bool)
    requires c.Valid()
    ensures var r := SendText(c, quota, modified, timer);
      && c.Wire() <= r.0.Wire()
      && (r.1 ==> r.0.Valid())
      && r.0.Honest() && r.0.Jobs() == c.Jobs()
  {
    hide ReadRun, Flatten, Queue, WireOf;
    if c.question.Some? {
      var r := ReadRun(c.parts, |Flatten(c.parts)|, quota, c.calls);
      ReadRunTakesPrefix(c.parts, |Flatten(c.parts)|, quota, c.calls);
      assert Flatten(c.parts) == r.taken + Flatten(r.parts);
      WireMore(c.past, c.now.value, r.taken);
    }
  }

  lemma WriteOutKeeps(c: Conn, e: ClientEvent, quota: nat -> nat)
    requires c.Valid()
    ensures var r := WriteOut(c, e, quota);
      c.Wire() <= r.0.Wire() && r.0.Honest() && (r.1 ==> r.0.Valid()) && r.0.Jobs() == c.Jobs()
  {
    hide SendText, Sent, Conn.Wire;
    if e.output {
      SendTextKeeps(c, quota, e.modified, e.timer);
    } else {
      ValidIsHonest(c);
    }
  }

  lemma OnClientKeeps(c: Conn, e: ClientEvent, quota: nat -> nat)
    requires c.Valid()
    ensures var r := OnClient(c, e, quota);
      && c.Wire() <= r.0.Wire() && r.0.Honest() && (r.1 ==> r.0.Valid())
      && r.0.Jobs() == c.Jobs() +
           if e.input && e.answer == Right && Supplies(e.supply) then [e.supply.job.value] else []
  {
    hide WriteOut, Conn.Wire, Conn.Valid, Conn.Honest;
    ValidIsHonest(c);
    if !e.input {
      WriteOutKeeps(c, e, quota);
    } else if e.answer == Right {
      NextTaskKeeps(c, e.supply);
      var r := NextTask(c, e.supply);
      if r.1 { WriteOutKeeps(r.0, e, quota); }
    }
  }

  lemma OnTimerKeeps(c: Conn, answer: AnswerState, s: Supply)
    requires c.Valid() && c.timers > 0
    ensures var r := OnTimer(c, answer, s);
      && r.0.Wire() == c.Wire() && r.0.Honest() && (r.1 ==> r.0.Valid())
      && r.0.Jobs() == c.Jobs() + if answer == Right && Supplies(s) then [s.job.value] else []
  {
    hide Flatten, WireOf, Queue, JobsOf, Sending.Message, NextTask, Supplies;
    var fired := c.(timers := c.timers - 1);
    assert fired.Valid() && fired.Wire() == c.Wire() && fired.Jobs() == c.Jobs();
    ValidIsHonest(fired);
    NextTaskKeeps(fired, s);
  }

  // -------- What every event does --------

  /** The socket takes all that is stored, in one event. */
  ghost predicate GoesOut(parts: seq<seq<char>>, quota: nat -> nat, calls: nat) {
    ReadRun(parts, |Flatten(parts)|, quota, calls).read == |Flatten(parts)|
  }

  /** The event brings the next task. */
  predicate Answered(e: ClientEvent) {
    e.input && e.answer == Right && Supplies(e.supply)
  }

  /** What is there to be sent when the event reaches EPOLLOUT. */
  function ToSend(c: Conn, e: ClientEvent): seq<seq<char>> {
    if Answered(e) then Queue(e.supply.job.value, e.supply.text, e.supply.prompt) else c.parts
  }

  /** The event sends, and the last byte goes out. */
  ghost predicate Finishes(c: Conn, e: ClientEvent, quota: nat -> nat) {
    && e.output && (Answered(e) || (!e.input && c.question.Some?))
    && GoesOut(ToSend(c, e), quota, c.calls)
  }

  lemma GoesOutIff(parts: seq<seq<char>>, quota: nat -> nat, calls: nat)
    ensures GoesOut(parts, quota, calls) <==> Flatten(ReadRun(parts, |Flatten(parts)|, quota, calls).parts) == []
  {
    ReadRunTakesPrefix(parts, |Flatten(parts)|, quota, calls);
  }

  /** The client stays connected, by its answer: a wrong one never, one that is not complete yet always, whatever
      else was reported; after a right one a next task has to come. Then, and when there was no input, it stays
      unless it hung up or epoll refuses when the last byte goes out. */
  lemma StaysIff(c: Conn, e: ClientEvent, quota: nat -> nat)
    requires c.Valid()
    ensures OnClient(c, e, quota).1 <==>
      if e.input && e.answer == More then true
      else if e.input && e.answer == Wrong then false
      else if e.input && !(e.supply.job.Some? && e.supply.question && e.supply.modified) then false
      else !e.hangup && (Finishes(c, e, quota) ==> e.modified)
  {
    hide ReadRun, Flatten, Queue, Conn.Valid;
    c.HasTask();
    GoesOutIff(ToSend(c, e), quota, c.calls);
  }

  /** An answer that is not complete yet changes nothing, and so does a wrong one: nothing is sent. */
  lemma UnfinishedAnswerKeeps(c: Conn, e: ClientEvent, quota: nat -> nat)
    requires c.Valid() && e.input && e.answer != Right
    ensures OnClient(c, e, quota).0 == c
  {
  }

  /** What an event that reaches EPOLLOUT leaves: the task and its question, what the socket took, and a timer
      exactly when the last byte went out for a task with a timeout. */
  lemma EventLeaves(c: Conn, e: ClientEvent, quota: nat -> nat)
    requires c.Valid() && (!e.input || Answered(e))
    ensures var d, done := OnClient(c, e, quota).0, Finishes(c, e, quota);
      && d.task == (if Answered(e) then e.supply.job else c.task) && d.task.Some?
      && (d.question.Some? <==> (Answered(e) || c.question.Some?) && !done)
      && d.timers == c.timers + (if done && e.modified && d.task.value.timeout != 0 && e.timer then 1 else 0)
      && d.lost == c.lost + (if Answered(e) && c.question.Some? then 1 else 0)
      && d.Wire() == c.Wire() +
           if e.output && (Answered(e) || c.question.Some?)
           then ReadRun(ToSend(c, e), |Flatten(ToSend(c, e))|, quota, c.calls).taken
           else []
  {
    hide ReadRun, Flatten, Queue, WireOf, Conn.Valid;
    c.HasTask();
    var parts := ToSend(c, e);
    GoesOutIff(parts, quota, c.calls);
    var b := if Answered(e) then NextTask(c, e.supply).0 else c;
    if Answered(e) { NextTaskKeeps(c, e.supply); }
    WireMore(b.past, b.now.value, ReadRun(parts, |Flatten(parts)|, quota, c.calls).taken);
  }

  /** A timer that fires is gone; the client stays exactly with a right answer and a next task, and nothing is
      sent. */
  lemma TimerLeaves(c: Conn, answer: AnswerState, s: Supply)
    requires c.Valid() && c.timers > 0
    ensures var (d, stays) := OnTimer(c, answer, s);
      && (stays <==> answer == Right && s.job.Some? && s.question && s.modified)
      && d.timers == c.timers - 1 && d.Wire() == c.Wire()
      && (stays ==> d.task == s.job && d.question.Some? && d.lost == c.lost + if c.question.Some? then 1 else 0)
  {
    hide Queue, WireOf;
    OnTimerKeeps(c, answer, s);
  }

  lemma FirstTask(s: Supply, calls: nat)
    requires Supplies(s)
    ensures Created(calls).Jobs() == [] && NextTask(Created(calls), s).0.Jobs() == [s.job.value]
  {
  }

  // -------- Whole runs --------

  datatype Event = FromClient(e: ClientEvent) | FromTimer(answer: AnswerState, supply: Supply)

  /** A timer only fires while it is in the client's ring. */
  predicate Possible(c: Conn, e: Event) {
    e.FromTimer? ==> c.timers > 0
  }

  ghost function Step(c: Conn, e: Event, quota: nat -> nat): (Conn, bool)
    requires c.task.Some? && c.now.Some? && Possible(c, e)
  {
    match e
    case FromClient(e) => OnClient(c, e, quota)
    case FromTimer(answer, supply) => OnTimer(c, answer, supply)
  }

  /** A run of a connection that was never closed: the states between events, from the one that
      `server_worker_add_client` leaves. */
  ghost predicate Run(states: seq<Conn>, events: seq<Event>, first: Supply, quota: nat -> nat) {
    && |states| == |events| + 1
    && NextTask(Created(states[0].calls), first) == (states[0], true)
    && forall i :: 0 <= i < |events| ==> Follows(states, events, quota, i)
  }

  ghost predicate Follows(states: seq<Conn>, events: seq<Event>, quota: nat -> nat, i: nat)
    requires i < |events| && |states| == |events| + 1
  {
    var c := states[i];
    c.task.Some? && c.now.Some? && Possible(c, events[i]) && Step(c, events[i], quota) == (states[i + 1], true)
  }

  lemma RunPrefix(states: seq<Conn>, events: seq<Event>, first: Supply, quota: nat -> nat, n: nat)
    requires Run(states, events, first, quota) && n <= |events|
    ensures Run(states[..n + 1], events[..n], first, quota)
  {
    hide Step, NextTask;
    var states', events' := states[..n + 1], events[..n];
    forall i | 0 <= i < n
      ensures Follows(states', events', quota, i)
    {
      assert Follows(states, events, quota, i);
    }
  }

  /** The tasks a run hands out, in order. */
  function Supplied(first: Supply, events: seq<Event>): seq<Job> {
    if events == [] then (if first.job.Some? then [first.job.value] else [])
    else
      Supplied(first, events[..|events| - 1]) +
      match events[|events| - 1]
      case FromClient(e) => (if e.input && e.answer == Right && Supplies(e.supply) then [e.supply.job.value] else [])
      case FromTimer(answer, supply) => (if answer == Right && Supplies(supply) then [supply.job.value] else [])
  }

  /** Every state of every run is valid, so the two asserts on the current task hold; the socket was given
      prefixes of the messages of the tasks handed out so far, one after the other. */
  lemma {:induction false} RunValid(states: seq<Conn>, events: seq<Event>, first: Supply, quota: nat -> nat)
    requires Run(states, events, first, quota)
    ensures var c := states[|events|];
      && c.Valid() && c.Honest() && c.Jobs() == Supplied(first, events)
      && (forall i :: 0 <= i <= |events| ==> states[i].Wire() <= c.Wire())
    decreases |events|
  {
    hide Conn.Wire, Conn.Valid, Conn.Honest, OnClient, OnTimer, NextTask;
    if events == [] {
      NextTaskKeeps(Created(states[0].calls), first);
      FirstTask(first, states[0].calls);
    } else {
      var n := |events| - 1;
      RunPrefix(states, events, first, quota, n);
      RunValid(states[..n + 1], events[..n], first, quota);
      assert Follows(states, events, quota, n);
      match events[n]
      case FromClient(e) => OnClientKeeps(states[n], e, quota);
      case FromTimer(answer, supply) => OnTimerKeeps(states[n], answer, supply);
    }
  }

  /** The event that ends a run, by closing the connection, keeps what the socket was given and the order of the
      tasks; it too gives the socket only more of the current message. */
  lemma LastEvent(states: seq<Conn>, events: seq<Event>, first: Supply, quota: nat -> nat, last: Event)
    requires Run(states, events, first, quota)
    requires states[|events|].task.Some? && states[|events|].now.Some? && Possible(states[|events|], last)
    ensures var d := Step(states[|events|], last, quota).0;
      && d.Honest() && states[|events|].Wire() <= d.Wire()
      && d.Jobs() == Supplied(first, events + [last])
  {
    hide Conn.Wire, Conn.Valid, Conn.Honest, OnClient, OnTimer, NextTask, Follows, Conn.Jobs;
    var c := states[|events|];
    RunValid(states, events, first, quota);
    assert (events + [last])[..|events|] == events;
    match last
    case FromClient(e) => OnClientKeeps(c, e, quota);
    case FromTimer(answer, supply) => OnTimerKeeps(c, answer, supply);
  }

  // -------- Delivery --------

  /** Between events the question is live exactly while EPOLLOUT is asked for, and unless the message is empty
      that is exactly while some of it is still to be handed over. */
  lemma QuestionLiveIff(c: Conn)
    requires c.Valid()
    ensures c.question.Some? <==> c.output
    ensures c.now.value.Message() != [] ==> (c.question.Some? <==> c.now.value.delivered != c.now.value.Message())
  {
    assert c.now.value.delivered + [] == c.now.value.delivered;
  }

  /** `client_send_text` drops the question exactly when all of the message has been handed over, also when
      epoll then refuses. */
  lemma QuestionDroppedIff(c: Conn, quota: nat -> nat, modified: bool, timer: bool)
    requires c.Valid() && c.question.Some?
    ensures var d := SendText(c, quota, modified, timer).0;
      d.question.None? <==> d.now.value.delivered == d.now.value.Message()
  {
    hide ReadRun, Flatten, Queue;
    var r := ReadRun(c.parts, |Flatten(c.parts)|, quota, c.calls);
    ReadRunTakesPrefix(c.parts, |Flatten(c.parts)|, quota, c.calls);
    assert Flatten(c.parts) == r.taken + Flatten(r.parts);
    assert c.now.value.Message() == c.now.value.delivered + r.taken + Flatten(r.parts);
  }

  /** One EPOLLOUT event hands everything over unless the socket falls short. */
  lemma WillingSocketTakesAll(c: Conn, quota: nat -> nat, modified: bool, timer: bool)
    requires c.Valid() && c.question.Some?
    requires forall i :: c.calls <= i < SendText(c, quota, modified, timer).0.calls ==> quota(i) >= |Flatten(c.parts)|
    ensures var d := SendText(c, quota, modified, timer).0;
      d.question.None? && d.now.value.delivered == d.now.value.Message()
  {
    hide ReadRun, Flatten, Queue;
    ReadRunDeliversAll(c.parts, |Flatten(c.parts)|, quota, c.calls);
    ReadRunTakesPrefix(c.parts, |Flatten(c.parts)|, quota, c.calls);
    assert Flatten(c.parts)[|Flatten(c.parts)|..] == [];
    QuestionDroppedIff(c, quota, modified, timer);
  }

  /** A question is overwritten, and so never destroyed, exactly when the answer to its task comes while EPOLLOUT
      is still asked for; unless the message is empty, that is before all of it was handed over. */
  lemma QuestionLostIff(c: Conn, s: Supply)
    requires c.Valid() && Supplies(s)
    ensures NextTask(c, s).0.lost == c.lost + if c.output then 1 else 0
    ensures c.now.value.Message() != [] ==> (c.output <==> c.now.value.delivered != c.now.value.Message())
  {
    QuestionLiveIff(c);
  }

  /** When both writes fail and the answer comes first, a question is lost with nothing unsent. */
  lemma EmptyMessageLost(calls: nat, first: Supply, s: Supply)
    requires Supplies(first) && !first.text && !first.prompt && Supplies(s)
    ensures var c := NextTask(Created(calls), first).0;
      c.now.value.Message() == [] && NextTask(c, s).0.lost == 1
  {
  }

  // -------- Messages --------

  predicate TextStored(s: Sending) {
    s.text && |s.job.text| <= SIZE_MAX
  }

  predicate PromptStored(s: Sending) {
    s.prompt && |Prompt(s.job.timeout)| + (if TextStored(s) then |s.job.text| else 0) <= SIZE_MAX
  }

  /** The message is the question's text and the prompt exactly when both writes found memory; a missing
      empty text does not matter. */
  lemma MessageIsWholeIff(s: Sending)
    ensures s.Message() == s.job.text + Prompt(s.job.timeout)
       <==> PromptStored(s) && (TextStored(s) || s.job.text == [])
  {
    QueueStores(s.job, s.text, s.prompt);
    PromptNotEmpty(s.job.timeout);
    if !TextStored(s) && PromptStored(s) {
      assert |s.Message()| == |Prompt(s.job.timeout)|;
    }
    if !PromptStored(s) {
      assert |s.Message()| <= |s.job.text|;
    }
  }

  lemma PromptNotEmpty(timeout: ulong)
    ensures Prompt(timeout) != [] && Prompt(timeout)[0] == '\n'
  {
  }

  lemma {:induction false} NoNewline(n: nat)
    ensures '\n' !in EqPrint.Digits(n)
  {
    EqPrint.DigitsAreDigits(n);
  }

  /** The prompt starts with its only newline. */
  lemma PromptNewline(timeout: ulong)
    ensures Prompt(timeout) != [] && Prompt(timeout)[0] == '\n'
    ensures forall i :: 0 < i < |Prompt(timeout)| ==> Prompt(timeout)[i] != '\n'
  {
    NoNewline(timeout);
  }

  /** A text that is put before the prompt lets the whole still begin with the prompt only if it is empty or
      begins with the prompt itself. */
  lemma PromptFirstIff(text: seq<char>, timeout: ulong)
    ensures Prompt(timeout) <= text + Prompt(timeout) <==> text == [] || Prompt(timeout) <= text
  {
    var p := Prompt(timeout);
    PromptNewline(timeout);
    if 0 < |text| < |p| {
      assert (text + p)[|text|] == p[0];
      assert p[|text|] != p[0];
    }
    if |text| >= |p| {
      assert (text + p)[..|p|] == text[..|p|];
    }
  }

  /** A client gets a prefix of text and prompt except when the borrowed write finds no memory and the copied
      one does: then it is sent a prompt without a question. Only a text that is empty or begins with the prompt
      hides that. */
  lemma MessageIsPrefixIff(s: Sending)
    ensures s.Message() <= s.job.text + Prompt(s.job.timeout)
       <==> TextStored(s) || !PromptStored(s) || s.job.text == [] || Prompt(s.job.timeout) <= s.job.text
  {
    hide Prompt;
    QueueStores(s.job, s.text, s.prompt);
    PromptFirstIff(s.job.text, s.job.timeout);
    if !TextStored(s) && PromptStored(s) {
      assert s.Message() == Prompt(s.job.timeout);
    }
  }

  /** For a text of one digit, say, the client is sent the prompt alone. */
  lemma PromptAloneExample(timeout: ulong)
    ensures var s := Sending(Job("1", timeout), false, true, []);
      s.Message() == Prompt(timeout) && !(s.Message() <= "1" + Prompt(timeout))
  {
    var s := Sending(Job("1", timeout), false, true, []);
    PromptFits(timeout);
    QueueStores(s.job, s.text, s.prompt);
    PromptNotEmpty(timeout);
  }

  /** With memory at hand, what the socket was given for a task is a prefix of its text and prompt. */
  lemma DeliveredIsPrefix(c: Conn, s: Sending)
    requires c.Honest() && (s in c.past || c.now == Some(s)) && TextStored(s)
    ensures s.delivered <= s.job.text + Prompt(s.job.timeout)
  {
    QueueStores(s.job, s.text, s.prompt);
    assert s in c.past + (if c.now.Some? then [c.now.value] else []);
    assert s.Message() <= s.job.text + Prompt(s.job.timeout);
  }

  /** For an equation task that is so for every equation: its text is never empty and never starts with the
      newline of the prompt. */
  lemma EquationMessage(s: Sending, e: Expression)
    requires s.job.text == EqPrint.Text(FlattenExpression(e))
    ensures s.Message() <= s.job.text + Prompt(s.job.timeout) <==> TextStored(s) || !PromptStored(s)
  {
    var chain := FlattenExpression(e);
    EqSolve.SentenceIffScan(chain);
    assert Scan(chain, 0, true) == Accepts([]);
    if chain[0].Nr? { EqPrint.DecimalSign(chain[0].nr); }
    assert s.job.text[0] == EqPrint.ElemText(chain[0])[0];
    PromptNewline(s.job.timeout);
    MessageIsPrefixIff(s);
  }
}
