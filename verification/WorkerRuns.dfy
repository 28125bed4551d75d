/** Whole runs of a worker on the heap: clients come, send, are late and go, in any order. */
module WorkerRuns {
  import opened Common
  import opened Ring
  import opened Segments
  import opened Connection
  import opened ServerWorker
  import opened Careers

  /** The clients of the ring are where their own happenings led them. */
  ghost predicate Present(clients: seq<Client>, here: seq<Career>)
    reads clients, set c | c in clients :: c.socket, set c | c in clients :: c.stream
  {
    && |clients| == |here|
    && forall i :: 0 <= i < |clients| ==>
         && clients[i].View() == here[i].State()
         && clients[i].socket.quota == here[i].quota && clients[i].base == []
  }

  /** Each socket of a client that left was given what the client's own happenings say, and the client holds
      nothing. */
  ghost predicate Departed(w: Worker, left: seq<Client>, gone: seq<Career>)
    reads w`owner, left, set c | c in left :: c.socket
  {
    && |left| == |gone|
    && forall i :: 0 <= i < |left| ==>
         && w.Mine(left[i]) && left[i].question == null && left[i].timers == 0
         && left[i].socket.quota == gone[i].quota && left[i].socket.accepted == gone[i].State().Wire()
  }

  /** No client is counted twice. */
  ghost predicate Separate(left: seq<Client>, clients: seq<Client>) {
    Distinct(left) && forall c :: c in left ==> c !in clients
  }

  ghost predicate Running(w: Worker, left: seq<Client>, world: World)
    reads w, w.ring, w.ring.repr, w.owner.Keys, w.Clients(), set c | c in w.Clients() :: c.socket
    reads set c | c in w.Clients() :: c.stream, left, set c | c in left :: c.socket
  {
    w.Valid() && Present(w.Clients(), world.here) && Departed(w, left, world.gone) && Separate(left, w.Clients())
  }

  /** One event, of either kind. It changes nothing for `others`. */
  method Handle(w: Worker, c: Client, ev: Event, ghost others: seq<Client>) returns (stays: bool)
    requires w.Valid() && c in w.Clients() && c !in others && Connection.Possible(c.View(), ev)
    requires forall d :: d in others ==> w.Mine(d)
    modifies w, w.ring.repr, c.repr
    ensures w.Valid() && w.Mine(c) && w.OthersUnchanged(c) && w.Grown({}) && w.ring.repr == old(w.ring.repr)
    ensures Able(old(c.View()), ev)
    ensures var r := Step(old(c.View()), ev, c.socket.quota);
      && stays == r.1
      && (if stays then c.View() == r.0 else c.question == null && c.timers == 0)
      && c.socket.accepted == c.base + r.0.Wire()
    ensures w.Clients() == if stays then old(w.Clients()) else Without(old(w.Clients()), c)
    ensures forall d :: d in others ==> w.Mine(d) && unchanged(d) && unchanged(d.socket)
  {
    hide Client.Sound, Client.Ready, Client.View, Conn.Valid, Conn.Wire, OnClient, OnTimer, Without, Distinct;
    hide Worker.OthersUnchanged, Worker.Valid, Worker.RingOk, Worker.Connected, Worker.Owns;
    w.ValidParts();
    w.Apart(c);
    WithoutProperties(w.Clients(), c);
    c.ReadyHasTask();
    match ev {
      case FromClient(e) => stays := w.OnClient(c, e);
      case FromTimer(answer, supply) => stays := w.OnTimer(c, answer, supply);
    }
  }

  lemma OtherClients(clients: seq<Client>, at: nat)
    requires Distinct(clients) && at < |clients|
    ensures forall i :: 0 <= i < |clients| && i != at ==> clients[i] != clients[at]
  {
  }

  /** Only the `at`-th client has changed, or is gone. */
  lemma PresentNext(clients: seq<Client>, here: seq<Career>, at: nat, ev: Event)
    requires |clients| == |here| && at < |here|
    requires forall i :: 0 <= i < |clients| ==> clients[i].socket.quota == here[i].quota && clients[i].base == []
    requires forall i :: 0 <= i < |clients| && i != at ==> clients[i].View() == here[i].State()
    ensures clients[at].View() == here[at].Grow(ev).State() ==> Present(clients, here[at := here[at].Grow(ev)])
    ensures Present(clients[..at] + clients[at + 1..], here[..at] + here[at + 1..])
  {
    hide Career.State, Client.View;
  }

  lemma PresentMore(clients: seq<Client>, here: seq<Career>, c: Client, career: Career)
    requires Present(clients, here)
    requires c.View() == career.State() && c.socket.quota == career.quota && c.base == []
    ensures Present(clients + [c], here + [career])
  {
    hide Career.State, Client.View;
  }

  lemma DepartedMore(w: Worker, left: seq<Client>, gone: seq<Career>, c: Client, career: Career)
    requires Departed(w, left, gone) && w.Mine(c) && c.question == null && c.timers == 0
    requires c.socket.quota == career.quota && c.base == []
    requires c.socket.accepted == c.base + career.State().Wire()
    ensures Departed(w, left + [c], gone + [career])
  {
    hide Career.State, Conn.Wire;
    assert [] + career.State().Wire() == career.State().Wire();
  }

  lemma SeparateMore(left: seq<Client>, clients: seq<Client>, c: Client)
    requires Separate(left, clients) && Distinct(clients) && c in clients
    ensures c !in left && Separate(left + [c], Without(clients, c))
  {
    hide Without;
    WithoutProperties(clients, c);
  }

  lemma RunningParts(w: Worker, left: seq<Client>, world: World)
    requires Running(w, left, world)
    ensures w.Valid() && w.ring.Valid() && Distinct(w.Clients())
    ensures Present(w.Clients(), world.here) && Departed(w, left, world.gone) && Separate(left, w.Clients())
    ensures forall d :: d in left ==> w.Mine(d)
  {
    hide Client.View, Conn.Valid, Present, Separate, Career.State;
    w.ValidParts();
  }

  /** An event of the `at`-th client of the ring. */
  method Wake(w: Worker, c: Client, ev: Event, ghost at: nat, ghost left: seq<Client>, ghost world: World)
    returns (stays: bool, ghost after: seq<Client>)
    requires Running(w, left, world)
    requires at < |w.Clients()| && c == w.Clients()[at] && Connection.Possible(c.View(), ev)
    modifies w, w.ring.repr, c.repr
    ensures Running(w, after, world.After(Wakes(at, ev))) && w.Grown({}) && w.ring.repr == old(w.ring.repr)
    ensures w.Clients() == if stays then old(w.Clients()) else Without(old(w.Clients()), c)
  {
    hide Client.Sound, Client.Ready, Client.View, Conn.Valid, Conn.Wire, Career.State, Step, Without, Distinct;
    hide Worker.Connected, Worker.Valid, Worker.RingOk, Worker.Owns, Able;
    ghost var clients, here := w.Clients(), world.here;
    RunningParts(w, left, world);
    WithoutAt(clients, at);
    OtherClients(clients, at);
    SeparateMore(left, clients, c);
    here[at].GrowState(ev);
    stays := Handle(w, c, ev, left);
    assert Departed(w, left, world.gone);
    PresentNext(clients, here, at, ev);
    after := left;
    if !stays {
      DepartedMore(w, left, world.gone, c, here[at].Grow(ev));
      after := left + [c];
    }
  }

  /** A new connection. It changes nothing for `others`, nor for the clients of the ring. */
  method Accept(w: Worker, h: Happening, ghost others: seq<Client>) returns (client: Client?)
    requires w.Valid() && h.Comes? && forall d :: d in others ==> w.Mine(d)
    modifies w, w.ring.repr
    ensures w.Valid() && fresh(w.owner.Keys - old(w.owner.Keys)) && fresh(w.ring.repr - old(w.ring.repr))
    ensures forall d :: d in others ==> w.Mine(d) && unchanged(d) && unchanged(d.socket)
    ensures forall d :: d in old(w.Clients()) ==> d.View() == old(d.View())
    ensures client != null <==> h.created && Supplies(h.supply)
    ensures w.Clients() == if client != null then old(w.Clients()) + [client] else old(w.Clients())
    ensures client != null ==>
      && fresh(client) && client.base == [] && client.socket.quota == h.quota
      && client.View() == NextTask(Created(0), h.supply).0
  {
    hide Client.Sound, Client.Ready, Client.View, Conn.Valid, Distinct, NextTask, Supplies;
    hide Worker.Valid, Worker.RingOk, Worker.Connected, Worker.Owns;
    w.ValidParts();
    var socket := new Writer(h.quota);
    client := w.AddClient(socket, h.created, h.supply);
    if client != null {
      w.Apart(client);
      client.SocketTook();
    }
  }

  /** A new connection. */
  method Admit(w: Worker, h: Happening, ghost left: seq<Client>, ghost world: World) returns (client: Client?)
    requires Running(w, left, world) && h.Comes?
    modifies w, w.ring.repr
    ensures Running(w, left, world.After(h))
    ensures w.Clients() == if client != null then old(w.Clients()) + [client] else old(w.Clients())
    ensures fresh(w.owner.Keys - old(w.owner.Keys)) && fresh(w.ring.repr - old(w.ring.repr))
  {
    hide Client.Sound, Client.Ready, Client.View, Conn.Valid, NextTask, Created, Supplies, Distinct, Conn.Wire;
    hide Worker.Connected, Worker.Valid, Worker.RingOk, Worker.Owns, Career.State;
    RunningParts(w, left, world);
    ghost var clients := w.Clients();
    FirstState(h.quota, h.supply);
    client := Accept(w, h, left);
    assert Departed(w, left, world.gone) && Present(clients, world.here);
    if client != null {
      PresentMore(clients, world.here, client, Career(h.quota, h.supply, []));
    }
  }

  lemma FirstState(quota: nat -> nat, first: Supply)
    ensures Career(quota, first, []).State() == NextTask(Created(0), first).0
  {
    hide NextTask, Created;
  }

  /** An event that is not possible for the client of the ring is not possible for the value, and does nothing. */
  lemma NothingHappens(polled: seq<Client>, world: World, at: nat, ev: Event)
    requires Present(polled, world.here)
    ensures at < |polled| && (ev.FromClient? || polled[at].timers > 0) ==> Connection.Possible(polled[at].View(), ev)
    ensures !(at < |polled| && (ev.FromClient? || polled[at].timers > 0)) ==> world.After(Wakes(at, ev)) == world
  {
    hide Career.State;
  }

  /** One pass of the loop of `worker_handler`, or one new connection. `polled` is what is registered with
      epoll; an event of a client or timer that is not there does not happen. */
  method Happen(w: Worker, h: Happening, polled: seq<Client>, ghost left: seq<Client>, ghost world: World)
    returns (still: seq<Client>, ghost after: seq<Client>)
    requires Running(w, left, world) && polled == w.Clients()
    modifies w, w.ring.repr, w.owner.Keys
    ensures Running(w, after, world.After(h)) && still == w.Clients()
    ensures fresh(w.owner.Keys - old(w.owner.Keys)) && fresh(w.ring.repr - old(w.ring.repr))
  {
    hide Client.View, Client.Ready, Running, Worker.Valid, Worker.RingOk, Worker.Owns, Worker.Connected, Without;
    hide World.After, Present, Departed, Distinct;
    RunningParts(w, left, world);
    still, after := polled, left;
    match h {
      case Comes(quota, created, supply) =>
        var client := Admit(w, h, left, world);
        if client != null { still := still + [client]; }
      case Wakes(at, ev) =>
        NothingHappens(polled, world, at, ev);
        if at < |polled| && (ev.FromClient? || polled[at].timers > 0) {
          w.Apart(polled[at]);
          var stays;
          stays, after := Wake(w, polled[at], ev, at, left, world);
          if !stays { still := Without(still, polled[at]); }
        }
    }
  }

  lemma NobodyYet(w: Worker)
    requires w.Valid() && w.Clients() == []
    ensures Running(w, [], World([], []))
  {
    hide Worker.Valid;
  }

  /** Everything that happens to a worker, in any order. */
  method Serve(w: Worker, happenings: seq<Happening>) returns (ghost left: seq<Client>)
    requires w.Valid() && w.Clients() == []
    modifies w, w.ring.repr, w.owner.Keys
    ensures Running(w, left, WorldOf(happenings))
    ensures fresh(w.owner.Keys - old(w.owner.Keys)) && fresh(w.ring.repr - old(w.ring.repr))
  {
    hide Client.View, Running, Worker.Valid, World.After;
    left := [];
    NobodyYet(w);
    var polled: seq<Client> := [];
    for i := 0 to |happenings|
      invariant Running(w, left, WorldOf(happenings[..i])) && polled == w.Clients()
      invariant fresh(w.owner.Keys - old(w.owner.Keys)) && fresh(w.ring.repr - old(w.ring.repr))
    {
      OneMore(happenings, i);
      polled, left := Happen(w, happenings[i], polled, left, WorldOf(happenings[..i]));
    }
    assert happenings[..|happenings|] == happenings;
  }

  /** What the socket of a client in the ring was given. */
  lemma Given(w: Worker, c: Client, career: Career)
    requires w.Valid() && c in w.Clients() && c.View() == career.State() && c.base == []
    ensures w.Mine(c) && c.socket.accepted == career.State().Wire()
  {
    hide Career.State, Client.View, Conn.Wire, Worker.Valid, Client.Sound, Worker.RingOk;
    w.Apart(c);
    c.SocketTook();
    assert [] + career.State().Wire() == career.State().Wire();
  }

  lemma PresentGiven(w: Worker, here: seq<Career>)
    requires w.Valid() && Present(w.Clients(), here)
    ensures |here| == |w.Clients()| && forall i :: 0 <= i < |here| ==>
      && w.Mine(w.Clients()[i]) && w.Clients()[i].socket.quota == here[i].quota
      && w.Clients()[i].socket.accepted == here[i].State().Wire()
  {
    hide Career.State, Client.View, Conn.Wire, Worker.Valid;
    forall i | 0 <= i < |here|
      ensures w.Mine(w.Clients()[i]) && w.Clients()[i].socket.accepted == here[i].State().Wire()
    {
      Given(w, w.Clients()[i], here[i]);
    }
  }

  lemma AllSeparate(left: seq<Client>, clients: seq<Client>)
    requires Separate(left, clients) && Distinct(clients)
    ensures Distinct(left + clients)
  {
    var all := left + clients;
    forall i, j | 0 <= i < j < |all|
      ensures all[i] != all[j]
    {
      if i < |left| <= j { assert all[i] in left && all[j] == clients[j - |left|]; }
    }
  }

  /** `server_worker_destroy`: now everyone has left, and no socket was given anything more. */
  method Close(w: Worker, ghost left: seq<Client>, ghost world: World)
    requires Running(w, left, world)
    modifies w, w.ring.repr, w.owner.Keys
    ensures w.Valid() && w.Clients() == []
    ensures Departed(w, left + old(w.Clients()), world.gone + world.here) && Distinct(left + old(w.Clients()))
  {
    hide Career.State, Client.View, Conn.Wire, Worker.Valid, Worker.RingOk, Present, Separate, Distinct;
    RunningParts(w, left, world);
    PresentGiven(w, world.here);
    AllSeparate(left, w.Clients());
    w.Destroy();
  }

  /** A worker from its creation to its destruction, whatever happens in between and in whatever order: the
      clients that were ever served are those the specification names, they hold nothing at the end, each
      socket was given exactly what the client's own happenings say, and that is, for every task they brought, in
      order, a beginning of its message. */
  method Lifetime(happenings: seq<Happening>) returns (w: Worker, ghost served: seq<Client>)
    ensures fresh(w) && w.Valid() && w.Clients() == []
    ensures |served| == Comers(happenings) && Distinct(served)
    ensures Departed(w, served, WorldOf(happenings).gone + WorldOf(happenings).here)
    ensures forall c :: c in WorldOf(happenings).gone + WorldOf(happenings).here ==>
      c.State().Honest() && c.State().Jobs() == Supplied(c.first, c.events)
  {
    hide Running, Worker.Valid, Departed, Distinct, WorldOf, Career.State, Conn.Honest, Conn.Jobs, Supplied;
    w := new Worker();
    ghost var world := WorldOf(happenings);
    ghost var left := Serve(w, happenings);
    served := left + w.Clients();
    SameNumber(w, left, world);
    WorldSound(happenings);
    Close(w, left, world);
    forall c | c in world.gone + world.here
      ensures c.State().Honest() && c.State().Jobs() == Supplied(c.first, c.events)
    {
      var i :| 0 <= i < |world.gone + world.here| && (world.gone + world.here)[i] == c;
      AllTreatedHonestly(happenings, i);
    }
  }

  lemma SameNumber(w: Worker, left: seq<Client>, world: World)
    requires Running(w, left, world)
    ensures |left| == |world.gone| && |w.Clients()| == |world.here|
  {
    hide Worker.Valid;
  }
}
