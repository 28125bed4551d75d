/** The clients of server_worker.c: what they hold on the heap, and one event after the other. */
module ServerWorker {
  import opened Common
  import opened Ring
  import opened StreamSpec
  import opened StreamRuns
  import opened Segments
  import opened ByteStream
  import opened Connection

  /** A question as the server sees it: its text, the one stream that borrows it, and whether it was
      destroyed. */
  class ShownQuestion {
    const text: seq<char>
    ghost const borrower: Stream
    ghost var live: bool

    constructor (text: seq<char>, ghost borrower: Stream)
      ensures this.text == text && this.borrower == borrower && live
    {
      this.text, this.borrower, live := text, borrower, true;
    }

    /** `question_destroy`, which must not come while the stream still borrows the text. */
    method Destroy()
      requires live && borrower.Contents() == []
      modifies this
      ensures !live
    {
      live := false;
    }
  }

  class Client {
    const socket: Writer
    const stream: Stream
    var task: Option<Job>
    var question: ShownQuestion?
    var input: bool
    var output: bool
    var timers: nat

    ghost const base: seq<char>   // what the socket had taken before
    ghost var past: seq<Sending>
    ghost var now: Option<Sending>
    ghost var lost: nat
    ghost var repr: set<object>

    ghost predicate Sound()
      reads this, repr
      ensures Sound() ==> {this, socket, stream} <= repr
    {
      && {this, socket, stream} <= repr
      && stream.book.segments.Keys <= repr && stream.book.buffers.Keys <= repr
      && (question != null ==> question in repr && question.live && question.borrower == stream)
      && stream.Valid() && stream.uncounted == 0
      && socket.accepted == base + WireOf(past, now)
    }

    /** The client as a connection. */
    ghost function View(): Conn
      reads this, socket`calls, stream`book
    {
      Conn(task, if question == null then None else Some(question.text), stream.book.parts,
           input, output, timers, socket.calls, past, now, lost)
    }

    /** Between two events. */
    ghost predicate Ready()
      reads this, repr
      ensures Ready() ==> {this, socket, stream} <= repr && View().Valid() && Sound()
    {
      Sound() && View().Valid()
    }

    /** `client_create`, when all its calls succeed. */
    constructor (socket: Writer)
      ensures Sound() && fresh(repr - {socket}) && this.socket == socket
      ensures View() == Created(socket.calls)
    {
      this.socket, base := socket, socket.accepted;
      stream := new Stream();
      task, question, input, output, timers := None, null, false, false, 0;
      past, now, lost := [], None, 0;
      new;
      repr := {this, socket, stream};
    }

    /** `client_send_task_text` */
    method SendTaskText(job: Job, text: bool, prompt: bool)
      requires stream.Valid() && stream.uncounted == 0
      requires stream.chain == [] && stream.Contents() == [] && stream.totalLen == 0
      modifies stream, stream.book.segments.Keys, stream.book.buffers.Keys
      ensures stream.Valid() && stream.uncounted == 0 && stream.Grown()
      ensures stream.book.parts == Queue(job, text, prompt)
    {
      hide Stream.Valid, Stream.Contents, Do, Queue, Prompt;
      stream.EmptyChain();
      PromptFits(job.timeout);
      PromptNotEmpty(job.timeout);
      var memory: nat -> bool := _ => prompt;
      ghost var empty := stream.Snapshot();
      LendsQueue(empty, job, text, prompt);
      ShortCopy(Do(empty, Lend(job.text, text)), Prompt(job.timeout), memory);
      var data := Prompt(job.timeout);
      var _ := stream.WriteBorrow(job.text, text);
      if job.timeout != 0 {
        var _ := stream.WriteMem(data, memory);
      } else {
        var _ := stream.WriteBorrow(data, prompt);
      }
    }

    /** `client_send_task_text` fills the emptied stream, which the client keeps owning. */
    method Fill(job: Job, text: bool, prompt: bool)
      requires Sound() && stream.Contents() == [] && stream.chain == [] && stream.totalLen == 0
      modifies this`repr, stream, stream.book.segments.Keys, stream.book.buffers.Keys
      ensures Sound() && fresh(repr - old(repr)) && old(repr) <= repr
      ensures View() == old(View()).(parts := Queue(job, text, prompt))
    {
      hide Queue, Stream.Valid, Stream.Contents, WireOf;
      SendTaskText(job, text, prompt);
      repr := repr + stream.book.segments.Keys + stream.book.buffers.Keys;
    }

    /** The first part of `client_next_task`: the unsent bytes and the task go, a live question stays. */
    method DropTask()
      requires Sound()
      modifies this, stream, stream.book.segments.Keys
      ensures Sound() && repr == old(repr) && question == old(question) && timers == old(timers)
      ensures stream.Contents() == [] && stream.chain == [] && stream.totalLen == 0
      ensures View() == Flushed(old(View()))
    {
      hide WireOf;
      WireNext(past, now, Sending(Job([], 0), false, false, []));
      stream.Flush();
      if now.Some? { past := past + [now.value]; }
      task, now := None, None;
    }

    /** The task and its question become the current ones. A question that is still there is overwritten, not
        destroyed. */
    method SetTask(q: ShownQuestion, job: Job, text: bool, prompt: bool)
      requires Sound() && q.live && q.borrower == stream && q.text == job.text && now.None?
      modifies this`task, this`question, this`input, this`output, this`now, this`lost, this`repr
      ensures Sound() && repr == old(repr) + {q}
      ensures View() == Asked(old(View()), job, text, prompt).(parts := old(View()).parts)
    {
      hide Stream.Valid, Stream.Contents, Queue, Flatten, WireOf;
      WireNext(past, now, Sending(job, text, prompt, []));
      lost := lost + if question == null then 0 else 1;
      task, question, input, output := Some(job), q, true, true;
      now := Some(Sending(job, text, prompt, []));
      repr := repr + {q};
    }

    /** `client_next_task` */
    method NextTask(s: Supply) returns (ok: bool)
      requires Sound()
      modifies repr
      ensures Sound() && fresh(repr - old(repr))
      ensures (View(), ok) == Connection.NextTask(old(View()), s)
      ensures socket.accepted == old(socket.accepted)
    {
      hide Client.Sound, Queue, Stream.Contents;
      OwnsStream();
      DropTask();
      if s.job.None? || !s.question { return false; }
      var q := new ShownQuestion(s.job.value.text, stream);
      if !s.modified {
        q.Destroy();
        return false;
      }
      SetTask(q, s.job.value, s.text, s.prompt);
      OwnsStream();
      Fill(s.job.value, s.text, s.prompt);
      ok := true;
    }

    lemma ReadyHasTask()
      requires Ready()
      ensures task.Some? && now.Some?
      ensures View().task == task && View().now == now && View().timers == timers
    {
    }

    /** What the socket took is the record of what was sent for each task. */
    lemma SocketTook()
      requires Sound()
      ensures socket.accepted == base + View().Wire()
    {
    }

    lemma OwnsStream()
      requires Sound()
      ensures {this, socket, stream} <= repr && stream.book.segments.Keys <= repr && stream.book.buffers.Keys <= repr
      ensures question != null ==> question in repr
    {
    }

    /** `bstream_read_fd` of all that is stored. */
    method HandOver() returns (read: nat)
      requires Sound() && now.Some?
      modifies this`now, stream, stream.book.segments.Keys, socket
      ensures Sound()
      ensures repr == old(repr) && question == old(question) && task == old(task) && now.Some?
      ensures View() == HandedOver(old(View()), socket.quota)
    {
      hide ReadRun, Flatten, WireOf;
      ghost var run := ReadRun(stream.book.parts, stream.totalLen, socket.quota, socket.calls);
      WireMore(past, now.value, run.taken);
      read := stream.Read(socket, stream.totalLen);
      now := Some(now.value.(delivered := now.value.delivered + run.taken));
    }

    lemma LengthIsExact()
      requires Sound()
      ensures stream.totalLen == |Flatten(stream.book.parts)| && stream.Contents() == Flatten(stream.book.parts)
    {
    }

    /** The end of `client_send_text` when nothing is left to send. */
    method AllSent(modified: bool, timer: bool) returns (ok: bool)
      requires Sound() && task.Some? && now.Some? && question != null && stream.Contents() == []
      modifies this`question, this`output, this`timers, question
      ensures Sound() && ok == modified
      ensures View() == AfterAllSent(old(View()), modified, timer)
    {
      hide Stream.Valid, Stream.Contents, Queue, Flatten, WireOf;
      question.Destroy();
      question := null;
      if !modified { return false; }
      output := false;
      assert task.Some?;
      if task.value.timeout != 0 && timer { timers := timers + 1; }
      ok := true;
    }

    /** `client_send_text` */
    method SendText(modified: bool, timer: bool) returns (ok: bool)
      requires Sound() && task.Some? && now.Some?
      modifies repr
      ensures Sound() && fresh(repr - old(repr))
      ensures (View(), ok) == Connection.SendText(old(View()), socket.quota, modified, timer)
    {
      hide Client.Sound, ReadRun, Flatten, WireOf;
      if question == null { return true; }
      OwnsStream();
      var _ := HandOver();
      LengthIsExact();
      ok := true;
      if stream.totalLen == 0 {
        ok := AllSent(modified, timer);
      }
    }

    /** The end of the SWET_CLIENT branch. */
    method WriteOut(e: ClientEvent) returns (stays: bool)
      requires Sound() && task.Some? && now.Some?
      modifies repr
      ensures Sound() && fresh(repr - old(repr))
      ensures (View(), stays) == Connection.WriteOut(old(View()), e, socket.quota)
    {
      hide Client.Sound, Connection.SendText;
      if e.output {
        var ok := SendText(e.modified, e.timer);
        if !ok { return false; }
      }
      stays := !e.hangup;
    }

    /** The SWET_CLIENT branch of `worker_handler`. */
    method OnClient(e: ClientEvent) returns (stays: bool)
      requires Sound() && task.Some? && now.Some?
      modifies repr
      ensures Sound() && fresh(repr - old(repr))
      ensures (View(), stays) == Connection.OnClient(old(View()), e, socket.quota)
      ensures e.input && e.answer == More ==> stays && View() == old(View()) && socket.accepted == old(socket.accepted)
    {
      hide Client.Sound, Connection.WriteOut;
      if e.input {
        if task != None {
          match e.answer
          case Wrong => return false;
          case More => return true;
          case Right =>
            var ok := NextTask(e.supply);
            if !ok { return false; }
        }
      }
      stays := WriteOut(e);
    }

    /** The SWET_TIMER branch of `worker_handler`. */
    method OnTimer(answer: AnswerState, s: Supply) returns (stays: bool)
      requires Sound() && task.Some? && timers > 0
      modifies repr
      ensures Sound() && fresh(repr - old(repr))
      ensures (View(), stays) == Connection.OnTimer(old(View()), answer, s)
    {
      hide Connection.NextTask, WireOf, Stream.Valid;
      timers := timers - 1;
      if answer != Right { return false; }
      stays := NextTask(s);
    }

    /** What `client_disconnect` does to the client itself. The stream goes before the question it borrows
        from. */
    method Destroy()
      requires Sound()
      modifies repr
      ensures old(question) != null ==> !old(question).live
      ensures question == null && timers == 0 && stream.chain == [] && socket.accepted == old(socket.accepted)
    {
      stream.Flush();
      if question != null { question.Destroy(); }
      question, task := null, None;
      while timers > 0
        invariant question == null && stream.chain == []
        invariant old(question) != null ==> !old(question).live
        invariant socket.accepted == old(socket.accepted)
      {
        timers := timers - 1;
      }
    }
  }

  /** `struct server_worker`. */
  class Worker {
    const ring: Members<Client>
    var clientsNr: nat

    ghost var owner: map<object, Client>   // the client of every object, which keeps the clients apart

    /** The clients, from the head of the ring once around. */
    ghost function Clients(): seq<Client>
      reads ring
    {
      ring.items
    }

    ghost predicate Owns(c: Client)
      reads this`owner, c`repr
    {
      forall o :: o in c.repr ==> o in owner && owner[o] == c && o != this
    }

    /** A client that came to this worker, whether or not it is still there. */
    ghost predicate Mine(c: Client)
      reads this`owner
    {
      c in owner && owner[c] == c && c.socket in owner && owner[c.socket] == c
    }

    /** A client of the ring is sound, owns what it uses and is between two events. */
    ghost predicate Connected(c: Client)
      reads this`owner, owner.Keys
    {
      c in owner && Owns(c) && c.Ready()
    }

    /** The ring is sound, counted, and apart from what the clients own. */
    ghost predicate RingOk()
      reads this, ring, ring.repr
    {
      && ring.Valid()
      && clientsNr == |ring.items| % (UINT_MAX + 1)
      && this !in owner && this !in ring.repr && ring.repr !! owner.Keys
    }

    ghost predicate Valid()
      reads this, ring, ring.repr, owner.Keys
    {
      RingOk() && forall c :: c in Clients() ==> Connected(c)
    }

    /** `server_worker_create` */
    constructor ()
      ensures Valid() && Clients() == [] && owner == map[] && fresh(ring.repr)
    {
      ring := new Members();
      clientsNr, owner := 0, map[];
    }

    /** The other clients are as they were. */
    twostate predicate OthersUnchanged(c: Client)
      reads this`owner, owner.Keys
    {
      forall d :: d in old(Clients()) && d != c ==> Connected(d) && d.View() == old(d.View())
    }

    /** `client_disconnect` of a client whose objects may be in any sound state. */
    method Disconnect(c: Client)
      requires RingOk() && c in Clients()
      requires c.Sound() && Owns(c)
      requires forall d :: d in Clients() && d != c ==> Connected(d)
      modifies ring.repr, this`clientsNr, c.repr
      ensures Valid() && Clients() == Without(old(Clients()), c) && ring.repr == old(ring.repr)
      ensures OthersUnchanged(c)
      ensures old(c.question) != null ==> !old(c.question).live
      ensures c.question == null && c.timers == 0
      ensures c.socket.accepted == old(c.socket.accepted)
    {
      hide Client.Sound, Client.Ready, Client.View, Conn.Valid, Without, Distinct, Members.Valid;
      WithoutProperties(Clients(), c);
      WithoutLength(Clients(), c);
      ring.Remove(c);
      clientsNr := if clientsNr == 0 then UINT_MAX else clientsNr - 1;
      c.Destroy();
    }

    /** What is owned stays owned by the same client, and what was added is new but for `given`. */
    twostate predicate Grown(given: set<object>)
      reads this`owner
    {
      && (forall o :: o in old(owner) ==> o in owner && owner[o] == old(owner)[o])
      && fresh(owner.Keys - old(owner.Keys) - given)
    }

    /** A client has changed within what it owns and may have taken new objects. */
    ghost method Adopt(c: Client)
      modifies this`owner
      ensures owner == old(owner) + map o | o in c.repr :: c
    {
      owner := owner + map o | o in c.repr :: c;
    }

    /** The loop of `worker_handler` after the event of `c` was worked on. */
    method Settle(c: Client, stays: bool)
      requires RingOk() && c in Clients()
      requires this !in c.repr && c.repr !! ring.repr && c.Sound() && (stays ==> c.View().Valid())
      requires forall o :: o in c.repr && o in owner ==> owner[o] == c
      requires forall d :: d in Clients() && d != c ==> Connected(d)
      modifies this, ring.repr, c.repr
      ensures Valid() && OthersUnchanged(c)
      ensures owner == old(owner) + (map o | o in old(c.repr) :: c) && ring.repr == old(ring.repr)
      ensures Clients() == if stays then old(Clients()) else Without(old(Clients()), c)
      ensures if stays then c.View() == old(c.View()) else c.question == null && c.timers == 0
      ensures c.socket.accepted == old(c.socket.accepted)
    {
      hide Client.Sound, Client.View, Conn.Valid, Without, Distinct, Members.Valid;
      Adopt(c);
      if !stays { Disconnect(c); }
    }

    /** A SWET_CLIENT event. Its client becomes what the state machine says and is dropped when that says so;
        the other clients stay as they are. */
    method OnClient(c: Client, e: ClientEvent) returns (stays: bool)
      requires Valid() && c in Clients()
      modifies this, ring.repr, c.repr
      ensures Valid() && OthersUnchanged(c) && Grown({}) && ring.repr == old(ring.repr)
      ensures var r := Connection.OnClient(old(c.View()), e, c.socket.quota);
        && stays == r.1
        && (if stays then c.View() == r.0 else c.question == null && c.timers == 0)
        && c.socket.accepted == c.base + r.0.Wire()
      ensures Clients() == if stays then old(Clients()) else Without(old(Clients()), c)
      ensures e.input && e.answer == More ==>
        stays && c.View() == old(c.View()) && c.socket.accepted == old(c.socket.accepted)
    {
      hide Client.Sound, Client.View, Conn.Valid, Conn.Wire, Without, Distinct, Connection.OnClient, Members.Valid;
      OnClientKeeps(c.View(), e, c.socket.quota);
      c.ReadyHasTask();
      stays := c.OnClient(e);
      c.SocketTook();
      Settle(c, stays);
    }

    /** A SWET_TIMER event of a timer in the client's ring. */
    method OnTimer(c: Client, answer: AnswerState, s: Supply) returns (stays: bool)
      requires Valid() && c in Clients() && c.timers > 0
      modifies this, ring.repr, c.repr
      ensures Valid() && OthersUnchanged(c) && Grown({}) && ring.repr == old(ring.repr)
      ensures var r := Connection.OnTimer(old(c.View()), answer, s);
        && stays == r.1
        && (if stays then c.View() == r.0 else c.question == null && c.timers == 0)
        && c.socket.accepted == c.base + r.0.Wire()
      ensures Clients() == if stays then old(Clients()) else Without(old(Clients()), c)
    {
      hide Client.Sound, Client.View, Conn.Valid, Conn.Wire, Without, Distinct, Connection.OnTimer, Members.Valid;
      c.ReadyHasTask();
      OnTimerKeeps(c.View(), answer, s);
      stays := c.OnTimer(answer, s);
      c.SocketTook();
      Settle(c, stays);
    }

    /** The new client goes to the back of the ring. */
    method Enlist(c: Client)
      requires Valid() && c !in Clients()
      modifies ring.repr, this`clientsNr
      ensures RingOk() && Clients() == old(Clients()) + [c] && fresh(ring.repr - old(ring.repr))
      ensures forall d :: d in old(Clients()) ==> Connected(d) && d.View() == old(d.View())
    {
      hide Client.Sound, Client.Ready, Client.View, Conn.Valid, Distinct, Members.Valid;
      ring.Add(c);
      clientsNr := (clientsNr + 1) % (UINT_MAX + 1);
    }

    /** The first task of a client that owns nothing of the worker's yet. */
    method FirstTask(c: Client, s: Supply) returns (ok: bool)
      requires RingOk() && c in Clients() && c.Sound() && c.repr !! owner.Keys + ring.repr + {this}
      requires forall d :: d in Clients() && d != c ==> Connected(d)
      modifies c.repr
      ensures RingOk() && OthersUnchanged(c) && c.Sound() && fresh(c.repr - old(c.repr))
      ensures (c.View(), ok) == Connection.NextTask(old(c.View()), s)
      ensures c.socket.accepted == old(c.socket.accepted)
    {
      hide Client.Sound, Client.View, Conn.Valid, Conn.Wire, Distinct, Connection.NextTask, Members.Valid;
      ok := c.NextTask(s);
    }

    /** `server_worker_add_client` as one step. `created` is the outcome of `client_create`. */
    method AddClient(socket: Writer, created: bool, s: Supply) returns (client: Client?)
      requires Valid() && socket !in owner && socket !in ring.repr
      modifies this, ring.repr, socket
      ensures Valid() && Grown({socket}) && fresh(ring.repr - old(ring.repr))
      ensures forall d :: d in old(Clients()) ==> Connected(d) && d.View() == old(d.View())
      ensures client != null <==> created && Supplies(s)
      ensures Clients() == if client != null then old(Clients()) + [client] else old(Clients())
      ensures client != null ==>
        && fresh(client) && client.socket == socket
        && client.View() == Connection.NextTask(Created(old(socket.calls)), s).0
      ensures socket.accepted == old(socket.accepted)
    {
      hide Client.Sound, Client.View, Conn.Valid, Conn.Wire, Without, Distinct, Connection.NextTask, Members.Valid;
      hide Client.Ready, Worker.Connected, Worker.Owns;
      if !created { return null; }
      var c := new Client(socket);
      WithoutAppend(Clients(), c, c);
      Enlist(c);
      NextTaskKeeps(c.View(), s);
      var ok := FirstTask(c, s);
      Settle(c, ok);
      client := if ok then c else null;
    }

    lemma ValidParts()
      requires Valid()
      ensures ring.Valid() && Distinct(Clients()) && this !in owner && owner.Keys !! ring.repr
      ensures forall c :: c in Clients() ==> c in owner && owner[c] == c
    {
      hide Client.View, Conn.Valid, Members.Valid;
    }

    /** What a client owns is its own, and not of the ring. */
    lemma Apart(c: Client)
      requires Valid() && c in Clients()
      ensures RingOk() && c.Ready() && Owns(c) && c.repr <= owner.Keys && owner.Keys !! ring.repr
      ensures forall d :: d in Clients() ==> Connected(d)
      ensures Mine(c)
      ensures c in c.repr && forall o :: o in owner && owner[o] != c ==> o !in c.repr
    {
    }

    /** `server_worker_destroy` */
    method Destroy()
      requires Valid()
      modifies this, ring.repr, owner.Keys
      ensures Valid() && Clients() == [] && owner == old(owner) && ring.repr == old(ring.repr)
      ensures forall c :: c in old(Clients()) ==> c.question == null && c.timers == 0
      ensures forall c: Client | Mine(c) && c !in old(Clients()) ::
        c.question == old(c.question) && c.timers == old(c.timers)
      ensures forall c: Client | Mine(c) :: c.socket.accepted == old(c.socket.accepted)
    {
      hide Client.Sound, Client.Ready, Client.View, Conn.Valid, Distinct, Without, Members.Valid;
      hide Worker.Valid, Worker.RingOk, Worker.Connected, Worker.Owns, Worker.OthersUnchanged;
      ValidParts();
      var first := ring.First();
      while first != None
        invariant Valid() && owner == old(owner) && ring.repr == old(ring.repr)
        invariant first == if Clients() == [] then None else Some(Clients()[0])
        invariant forall c :: c in old(Clients()) ==> c in owner && owner[c] == c
        invariant forall c :: c in old(Clients()) && c !in Clients() ==> c.question == null && c.timers == 0
        invariant forall c :: c in Clients() ==> c in old(Clients())
        invariant forall c: Client | Mine(c) && c !in old(Clients()) ::
          c.question == old(c.question) && c.timers == old(c.timers)
        invariant forall c: Client | Mine(c) :: c.socket.accepted == old(c.socket.accepted)
        decreases |Clients()|
      {
        ValidParts();
        Apart(first.value);
        WithoutLength(Clients(), first.value);
        WithoutProperties(Clients(), first.value);
        Disconnect(first.value);
        ValidParts();
        first := ring.First();
      }
    }
  }

  /** Two borrowed writes to an empty stream queue what is sent for a task. */
  lemma LendsQueue(s: Store, job: Job, text: bool, prompt: bool)
    requires s.parts == [] && s.totalLen == 0
    ensures var t := Do(Do(s, Lend(job.text, text)), Lend(Prompt(job.timeout), prompt));
      t.parts == Queue(job, text, prompt) && t.uncounted == s.uncounted
  {
    QueueParts(job, text, prompt);
  }

  lemma {:induction false} WithoutLength<T>(s: seq<T>, x: T)
    requires x in s
    ensures |Without(s, x)| == |s| - 1
  {
    if s[0] != x { WithoutLength(s[1..], x); }
  }
}
