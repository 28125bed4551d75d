/** The clients of a worker as values: whose happenings are whose, and what each client becomes by its own. */
module Careers {
  import opened Connection

  /** A client may be given an event: it has a task, and the timer that fires is in its ring. */
  predicate Able(c: Conn, ev: Event) {
    c.task.Some? && c.now.Some? && Possible(c, ev)
  }

  ghost function Next(c: Conn, ev: Event, quota: nat -> nat): (Conn, bool) {
    if Able(c, ev) then Step(c, ev, quota) else (c, true)
  }

  /** What happened to one client: its socket, its first task and its events. */
  datatype Career = Career(quota: nat -> nat, first: Supply, events: seq<Event>)
  {
    function Before(): Career {
      if events == [] then this else this.(events := events[..|events| - 1])
    }

    function Grow(ev: Event): Career {
      this.(events := events + [ev])
    }

    /** The connection after all that, whatever happened to other clients. */
    ghost function State(): Conn
      decreases |events|
    {
      if events == [] then NextTask(Created(0), first).0
      else Next(Before().State(), events[|events| - 1], quota).0
    }

    /** The states between the events. */
    ghost function States(): (r: seq<Conn>)
      ensures |r| == |events| + 1 && r[|events|] == State()
      decreases |events|
    {
      if events == [] then [State()] else Before().States() + [State()]
    }

    /** Every event kept the connection. */
    ghost predicate Open()
      decreases |events|
    {
      if events == [] then Supplies(first)
      else
        var ev := events[|events| - 1];
        Before().Open() && Able(Before().State(), ev) && Next(Before().State(), ev, quota).1
    }

    /** The last event closed it. */
    ghost predicate Closed() {
      && events != [] && Before().Open() && Able(Before().State(), events[|events| - 1])
      && !Next(Before().State(), events[|events| - 1], quota).1
    }

    lemma GrowState(ev: Event)
      ensures Grow(ev).Before() == this
      ensures Grow(ev).State() == Next(State(), ev, quota).0
      ensures Open() && Able(State(), ev) ==>
        if Next(State(), ev, quota).1 then Grow(ev).Open() else Grow(ev).Closed()
    {
      hide Next, Able;
      assert Grow(ev).Before() == this by { assert (events + [ev])[..|events|] == events; }
    }

    /** An open career is a run of the connection. */
    lemma {:induction false} OpenIsRun()
      requires Open()
      ensures Run(States(), events, first, quota)
      decreases |events|
    {
      hide Step, Queue, NextTask;
      if events == [] {
        SuppliedFirst(first);
      } else {
        Before().OpenIsRun();
        forall i | 0 <= i < |events|
          ensures Follows(States(), events, quota, i)
        {
          if i < |events| - 1 { assert Follows(Before().States(), Before().events, quota, i); }
        }
      }
    }

    /** For every task, in the order in which the client's own happenings brought them, its socket was given a
        beginning of the task's message; also after the event that closed the connection. */
    lemma TreatedHonestly()
      requires Open() || Closed()
      ensures State().Honest() && State().Jobs() == Supplied(first, events)
      ensures Open() ==> State().Valid()
    {
      hide Step, NextTask, Conn.Honest, Conn.Jobs, Conn.Valid, Conn.Wire, Supplied;
      if Open() {
        OpenIsRun();
        RunValid(States(), events, first, quota);
      } else {
        var b, ev := Before(), events[|events| - 1];
        b.OpenIsRun();
        LastEvent(b.States(), b.events, first, quota, ev);
        assert b.events + [ev] == events;
      }
    }
  }

  lemma SuppliedFirst(first: Supply)
    requires Supplies(first)
    ensures NextTask(Created(0), first) == (NextTask(Created(0), first).0, true)
    ensures NextTask(Created(0), first).0.calls == 0
  {
    hide Queue;
  }

  // -------- A worker --------

  /** What happens to a worker next. `Wakes` is an event of the client that is then the `at`-th of the ring. */
  datatype Happening =
    | Comes(quota: nat -> nat, created: bool, supply: Supply)
    | Wakes(at: nat, event: Event)

  /** The clients in the order of the ring, and those that left in the order in which they did. */
  datatype World = World(here: seq<Career>, gone: seq<Career>)
  {
    predicate Joins(h: Happening) {
      h.Comes? && h.created && Supplies(h.supply)
    }

    ghost predicate Reaches(h: Happening) {
      h.Wakes? && h.at < |here| && Able(here[h.at].State(), h.event)
    }

    /** An event of a client or timer that is not there does not happen. */
    ghost function After(h: Happening): World {
      if Joins(h) then this.(here := here + [Career(h.quota, h.supply, [])])
      else if Reaches(h) then
        var c := here[h.at];
        if Next(c.State(), h.event, c.quota).1 then this.(here := here[h.at := c.Grow(h.event)])
        else World(here[..h.at] + here[h.at + 1..], gone + [c.Grow(h.event)])
      else this
    }

    ghost predicate Sound() {
      (forall i :: 0 <= i < |here| ==> here[i].Open()) && forall i :: 0 <= i < |gone| ==> gone[i].Closed()
    }

    lemma AfterSound(h: Happening)
      requires Sound()
      ensures After(h).Sound()
      ensures |After(h).here| + |After(h).gone| == |here| + |gone| + if Joins(h) then 1 else 0
    {
      hide Next, Able, Career.State, Career.Closed;
      if Joins(h) {
        assert Career(h.quota, h.supply, []).Open();
      } else if Reaches(h) {
        here[h.at].GrowState(h.event);
      }
    }
  }

  ghost function WorldOf(happenings: seq<Happening>): World {
    if happenings == [] then World([], [])
    else WorldOf(happenings[..|happenings| - 1]).After(happenings[|happenings| - 1])
  }

  lemma OneMore(happenings: seq<Happening>, i: nat)
    requires i < |happenings|
    ensures WorldOf(happenings[..i + 1]) == WorldOf(happenings[..i]).After(happenings[i])
  {
    hide World.After;
    assert happenings[..i + 1][..i] == happenings[..i];
  }

  /** How many clients are served. */
  function Comers(happenings: seq<Happening>): nat {
    if happenings == [] then 0
    else
      var h := happenings[|happenings| - 1];
      Comers(happenings[..|happenings| - 1]) + if h.Comes? && h.created && Supplies(h.supply) then 1 else 0
  }

  /** Whatever happens to a worker: those in the ring had only events that kept them, those that left had one
      that closed them at the end, and everyone who was served is one or the other. */
  lemma {:induction false} WorldSound(happenings: seq<Happening>)
    ensures WorldOf(happenings).Sound()
    ensures |WorldOf(happenings).here| + |WorldOf(happenings).gone| == Comers(happenings)
  {
    hide World.After, World.Sound;
    if happenings != [] {
      var n := |happenings| - 1;
      WorldSound(happenings[..n]);
      WorldOf(happenings[..n]).AfterSound(happenings[n]);
    } else {
      NobodyThere();
    }
  }

  lemma NobodyThere()
    ensures World([], []).Sound()
  {
  }

  /** So every client that was ever served was given, for every task in order, a beginning of its message. */
  lemma AllTreatedHonestly(happenings: seq<Happening>, i: nat)
    requires i < |WorldOf(happenings).gone + WorldOf(happenings).here|
    ensures var c := (WorldOf(happenings).gone + WorldOf(happenings).here)[i];
      c.State().Honest() && c.State().Jobs() == Supplied(c.first, c.events)
  {
    hide Career.State, Career.Open, Career.Closed, Conn.Honest, Conn.Jobs, Supplied, WorldOf;
    WorldSound(happenings);
    (WorldOf(happenings).gone + WorldOf(happenings).here)[i].TreatedHonestly();
  }
}
