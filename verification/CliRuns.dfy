/** Whole runs of the option registry: options are added and removed in any order. */
module CliRuns {
  import opened Common
  import opened Ring
  import opened CliRegistry
  import opened CliOptions

  datatype Change<V> =
    | Add(option: Spec<V>, grants: Grants)
    | AddMany(options: seq<Spec<V>>, memory: nat -> Grants)
    | Remove(id: string)

  /** What decides about later changes: the options that are registered, and the short names that were ever
      given away. */
  datatype Names<V> = Names(opts: map<string, Opt<V>>, taken: set<char>)
  {
    ghost predicate HasLong(name: string) {
      exists s :: s in opts && opts[s].longName == Some(name)
    }

    ghost predicate Takes(o: Spec<V>, g: Grants) {
      && o.Checked() && g.node && g.id && (o.longName.Some? ==> g.long)
      && o.id.value !in opts && o.shortName !in taken
      && (o.longName.Some? ==> !HasLong(o.longName.value))
    }

    ghost function Plus(o: Spec<V>): Names<V>
      requires o.id.Some?
    {
      Names(opts[o.id.value := o.ToOpt()], taken + if o.shortName == NO_SHORT_NAME then {} else {o.shortName})
    }

    /** How many of the first `k` options are taken in a row, and the names after them. */
    ghost function Row(options: seq<Spec<V>>, memory: nat -> Grants, k: nat): (nat, Names<V>)
      requires k <= |options|
    {
      if k == 0 then (0, this)
      else
        var (n, names) := Row(options, memory, k - 1);
        if n == k - 1 && names.Takes(options[k - 1], memory(k - 1)) then (k, names.Plus(options[k - 1])) else (n, names)
    }

    /** The names after a change, and whether it succeeds. A list of options is added whole or not at all, but
        its short names are given away up to the first option that is refused. */
    ghost function After(c: Change<V>): (Names<V>, bool) {
      match c
      case Add(o, g) => if Takes(o, g) then (Plus(o), true) else (this, false)
      case AddMany(options, memory) =>
        var (n, names) := Row(options, memory, |options|);
        if n == |options| then (names, true) else (this.(taken := names.taken), false)
      case Remove(id) =>
        if id in opts && INTERNAL !in opts[id].flags then (this.(opts := opts - {id}), true) else (this, false)
    }
  }

  ghost function NamesAfter<V>(changes: seq<Change<V>>): Names<V> {
    if changes == [] then Names(map[], {})
    else NamesAfter(changes[..|changes| - 1]).After(changes[|changes| - 1]).0
  }

  lemma OneChange<V>(changes: seq<Change<V>>, i: nat)
    requires i < |changes|
    ensures NamesAfter(changes[..i + 1]) == NamesAfter(changes[..i]).After(changes[i]).0
  {
    hide Names.After;
    assert changes[..i + 1][..i] == changes[..i];
  }

  /** The registry has just these names. */
  ghost predicate Named<V>(v: Registry<V>, shorts: Shorts<V>, names: Names<V>) {
    && v.ids.Keys == names.opts.Keys
    && (forall s :: s in v.ids ==> v.ids[s].item == names.opts[s])
    && forall c: char :: c as int < |shorts| ==> (c in names.taken <==> shorts[c as int] != null)
  }

  lemma LongsAgree<V>(v: Registry<V>, shorts: Shorts<V>, names: Names<V>, name: string)
    requires v.Consistent() && Named(v, shorts, names)
    ensures name in v.longs <==> names.HasLong(name)
  {
    if name in v.longs {
      var n := v.longs[name];
      assert n.item.id in v.ids && names.opts[n.item.id].longName == Some(name);
    }
    if names.HasLong(name) {
      var s :| s in names.opts && names.opts[s].longName == Some(name);
      assert v.ids[s] in v.optional + v.required;
    }
  }

  lemma TakesIff<V>(v: Registry<V>, shorts: Shorts<V>, names: Names<V>, o: Spec<V>, g: Grants)
    requires v.Consistent() && Named(v, shorts, names)
    requires |shorts| == UCHAR_MAX && shorts[NO_SHORT_NAME as int] == null
    ensures Admits(v, shorts, o, g) <==> names.Takes(o, g)
  {
    hide Registry.Consistent, Names.HasLong;
    if o.longName.Some? { LongsAgree(v, shorts, names, o.longName.value); }
    assert names.opts.Keys == v.ids.Keys;
  }

  lemma NamedAdd<V>(v: Registry<V>, shorts: Shorts<V>, names: Names<V>, o: Spec<V>, n: Node<Opt<V>>)
    requires |shorts| == UCHAR_MAX && Named(v, shorts, names) && o.Checked() && n.item == o.ToOpt()
    ensures Named(v.Add(n), if o.shortName == NO_SHORT_NAME then shorts else shorts[o.shortName as int := n],
                  names.Plus(o))
  {
  }

  lemma NamedDrop<V>(v: Registry<V>, shorts: Shorts<V>, names: Names<V>, id: string)
    requires v.Consistent() && Named(v, shorts, names) && id in v.ids && INTERNAL !in v.ids[id].item.flags
    ensures Named(v.Drop(v.ids[id]), shorts, names.After(Remove(id)).0)
  {
    v.ListedById(id);
  }

  /** The options that were added one by one are those the names take. */
  lemma {:induction false} NamedRow<V>(v: Registry<V>, shorts: Shorts<V>, names: Names<V>, opts: seq<Spec<V>>,
      memory: nat -> Grants, added: Nodes<V>)
    requires v.Consistent() && Named(v, shorts, names)
    requires |shorts| == UCHAR_MAX && shorts[NO_SHORT_NAME as int] == null
    requires MadeFrom(added, opts) && AllAccepted(v, added) && AllAdmitted(v, shorts, opts, memory, added)
    ensures AddAll(v, added).Consistent()
    ensures WithShorts(shorts, added)[NO_SHORT_NAME as int] == null
    ensures names.Row(opts, memory, |added|).0 == |added|
    ensures Named(AddAll(v, added), WithShorts(shorts, added), names.Row(opts, memory, |added|).1)
    decreases |added|
  {
    hide Registry.Consistent, Registry.Accepts, Registry.Add, Named, Admits, Names.Takes, Names.Plus;
    if added != [] {
      var i := |added| - 1;
      var before, n := added[..i], added[i];
      NamedRow(v, shorts, names, opts, memory, before);
      var names' := names.Row(opts, memory, i).1;
      TakesIff(AddAll(v, before), WithShorts(shorts, before), names', opts[i], memory(i));
      AddAll(v, before).AddConsistent(n);
      NamedAdd(AddAll(v, before), WithShorts(shorts, before), names', opts[i], n);
    }
  }

  lemma {:induction false} RowEnds<V>(names: Names<V>, opts: seq<Spec<V>>, memory: nat -> Grants, n: nat, k: nat)
    requires n < k <= |opts| && names.Row(opts, memory, n).0 == n
    requires !names.Row(opts, memory, n).1.Takes(opts[n], memory(n))
    ensures names.Row(opts, memory, k) == names.Row(opts, memory, n)
  {
    hide Names.Takes, Names.Plus;
    if k > n + 1 { RowEnds(names, opts, memory, n, k - 1); }
  }

  lemma NamedUndo<V>(v: Registry<V>, w: Registry<V>, shorts: Shorts<V>, others: Shorts<V>, names: Names<V>,
      more: Names<V>)
    requires Named(v, shorts, names) && Named(w, others, more)
    ensures Named(v, others, names.(taken := more.taken))
  {
  }

  lemma NamedIds<V>(v: Registry<V>, shorts: Shorts<V>, names: Names<V>, id: string)
    requires Named(v, shorts, names)
    ensures id in v.ids <==> id in names.opts
    ensures id in v.ids ==> v.ids[id].item == names.opts[id]
  {
  }

  /** What `cli_add_opts` leaves. */
  lemma NamedMany<V>(v: Registry<V>, shorts: Shorts<V>, names: Names<V>, opts: seq<Spec<V>>, memory: nat -> Grants,
      added: Nodes<V>, ok: bool)
    requires v.Consistent() && Named(v, shorts, names)
    requires |shorts| == UCHAR_MAX && shorts[NO_SHORT_NAME as int] == null
    requires MadeFrom(added, opts) && AllAccepted(v, added) && AllAdmitted(v, shorts, opts, memory, added)
    requires if ok then |added| == |opts|
             else |added| < |opts| && Stuck(v, shorts, opts[|added|], memory(|added|), added)
    ensures names.After(AddMany(opts, memory)).1 == ok
    ensures Named(if ok then AddAll(v, added) else v, WithShorts(shorts, added),
                  names.After(AddMany(opts, memory)).0)
  {
    hide Registry.Consistent, AllAccepted, AllAdmitted, Named, Admits, Names.Takes, Names.Row, AddAll, WithShorts;
    NamedRow(v, shorts, names, opts, memory, added);
    if !ok {
      var names' := names.Row(opts, memory, |added|).1;
      TakesIff(AddAll(v, added), WithShorts(shorts, added), names', opts[|added|], memory(|added|));
      RowEnds(names, opts, memory, |added|, |opts|);
      NamedUndo(v, AddAll(v, added), shorts, WithShorts(shorts, added), names, names');
    }
  }

  /** One change of the registry. */
  method Turn<V>(cli: Cli<V>, c: Change<V>, ghost names: Names<V>) returns (ok: bool)
    requires cli.Valid() && Named(cli.View(), cli.byShort[..], names)
    modifies cli`stale, cli.byShort, cli.byId, cli.byId.slots, cli.byId.owner.Keys
    modifies cli.byLong, cli.byLong.slots, cli.byLong.owner.Keys
    modifies cli.optional, cli.optional.repr, cli.required, cli.required.repr
    ensures cli.Valid() && cli.Grown()
    ensures ok == names.After(c).1 && Named(cli.View(), cli.byShort[..], names.After(c).0)
  {
    hide Cli.Valid, Registry.Consistent, ShortsOk, Named, Names.Takes, Names.Row, Names.Plus, Admits;
    hide AllAccepted, AllAdmitted, MadeFrom, AddAll, WithShorts, Stuck, Registry.Add, Registry.Drop, Registry.Accepts;
    cli.ValidIsConsistent();
    ghost var v, shorts := cli.View(), cli.byShort[..];
    match c {
      case Add(o, g) =>
        TakesIff(v, shorts, names, o, g);
        ghost var n;
        ok, n := cli.AddOpt(o, g);
        if ok { NamedAdd(v, shorts, names, o, n); }
      case AddMany(opts, memory) =>
        ghost var added;
        ok, added := cli.AddOpts(opts, memory);
        NamedMany(v, shorts, names, opts, memory, added, ok);
      case Remove(id) =>
        NamedIds(v, shorts, names, id);
        ok := cli.RemoveOpt(id);
        if ok { NamedDrop(v, shorts, names, id); }
    }
  }

  lemma NothingNamed<V>(shorts: Shorts<V>)
    requires forall i :: 0 <= i < |shorts| ==> shorts[i] == null
    ensures Named(Registry<V>.Registry([], [], map[], map[]), shorts, Names(map[], {}))
  {
  }

  /** All that a registry is made of. */
  ghost function Parts<V>(cli: Cli<V>): set<object>
    reads cli.optional, cli.required, cli.byId, cli.byLong
  {
    {cli.byShort, cli.optional, cli.required, cli.byId, cli.byLong} + cli.optional.repr + cli.required.repr
    + cli.byId.slots + cli.byId.owner.Keys + cli.byLong.slots + cli.byLong.owner.Keys
  }

  method Step<V>(cli: Cli<V>, c: Change<V>, ghost names: Names<V>) returns (ok: bool)
    requires cli.Valid() && Named(cli.View(), cli.byShort[..], names)
    modifies cli, Parts(cli)
    ensures cli.Valid() && forall x :: x in Parts(cli) ==> x in old(Parts(cli)) || fresh(x)
    ensures ok == names.After(c).1 && Named(cli.View(), cli.byShort[..], names.After(c).0)
  {
    hide Cli.Valid, Named, Names.After;
    ok := Turn(cli, c, names);
  }

  method Start<V>(strict: bool) returns (cli: Cli<V>)
    ensures fresh(cli) && fresh(Parts(cli)) && cli.Valid() && Named(cli.View(), cli.byShort[..], NamesAfter([]))
  {
    hide Cli.Valid, Named;
    cli := new Cli(strict);
    NothingNamed(cli.byShort[..]);
  }

  /** A whole run: which changes succeed, and what is registered in the end, depends on the names alone. */
  method Configure<V>(strict: bool, changes: seq<Change<V>>) returns (cli: Cli<V>, oks: seq<bool>)
    ensures fresh(cli) && cli.Valid() && Named(cli.View(), cli.byShort[..], NamesAfter(changes))
    ensures |oks| == |changes|
    ensures forall i :: 0 <= i < |oks| ==> oks[i] == NamesAfter(changes[..i]).After(changes[i]).1
  {
    hide Cli.Valid, Named, Names.After, Parts;
    cli := Start(strict);
    oks := [];
    assert changes[..0] == [];
    for i := 0 to |changes|
      invariant cli.Valid() && Named(cli.View(), cli.byShort[..], NamesAfter(changes[..i]))
      invariant |oks| == i
      invariant forall j :: 0 <= j < i ==> oks[j] == NamesAfter(changes[..j]).After(changes[j]).1
      invariant fresh(cli) && fresh(Parts(cli))
    {
      OneChange(changes, i);
      var ok := Step(cli, changes[i], NamesAfter(changes[..i]));
      oks := oks + [ok];
    }
    assert changes[..|changes|] == changes;
  }

  lemma {:induction false} RowKeepsTaken<V>(names: Names<V>, opts: seq<Spec<V>>, memory: nat -> Grants, k: nat)
    requires k <= |opts|
    ensures names.taken <= names.Row(opts, memory, k).1.taken
  {
    hide Names.Takes;
    if k > 0 { RowKeepsTaken(names, opts, memory, k - 1); }
  }

  /** A short name that was ever given away is refused for the rest of the run, also after its option was
      removed or undone. */
  lemma {:induction false} ShortNamesStayTaken<V>(changes: seq<Change<V>>, i: nat, o: Spec<V>, g: Grants)
    requires i <= |changes| && o.shortName in NamesAfter(changes[..i]).taken
    ensures !NamesAfter(changes).Takes(o, g)
    ensures NamesAfter(changes[..i]).taken <= NamesAfter(changes).taken
    decreases |changes|
  {
    hide Names.HasLong;
    if i < |changes| {
      var n := |changes| - 1;
      assert changes[..n][..i] == changes[..i];
      ShortNamesStayTaken(changes[..n], i, o, g);
      if changes[n].AddMany? {
        RowKeepsTaken(NamesAfter(changes[..n]), changes[n].options, changes[n].memory, |changes[n].options|);
      }
    } else {
      assert changes[..i] == changes;
    }
  }
}
