/** `cli_match` on the heap, with CLI_STRICT set. */
module CliMatch {
  import opened Common
  import opened Ring
  import opened CliHash
  import opened HashTable
  import opened CliRegistry
  import opened CliOptions
  import opened CommandLine

  /** `struct cli_match`: the matched options in a ring and in a table by id. */
  class Match<V> {
    const nodes: Ring<Seen<V>>
    const byId: Table<Node<Seen<V>>>

    ghost var repr: set<object>

    /** The two agree. */
    ghost predicate Sound()
      reads nodes, nodes.repr, byId, byId.slots, byId.owner.Keys
    {
      nodes.Valid() && byId.Valid() && Indexed(nodes.nodes, byId.contents)
    }

    ghost predicate Valid()
      reads this, repr
    {
      && {this, nodes, byId} <= repr
      && nodes.repr <= repr && byId.slots <= repr && byId.owner.Keys <= repr
      && Sound()
    }

    /** What was matched, in order. */
    ghost function Entries(): seq<Seen<V>>
      reads nodes
    {
      ItemsOf(nodes.nodes)
    }

    /** `cli_match_create` */
    constructor ()
      ensures Valid() && Entries() == [] && fresh(repr)
    {
      hide Ring.Valid, Table.Valid;
      nodes := new Ring();
      byId := new Table(HT_SIZE);
      new;
      repr := {this, nodes, byId} + nodes.repr + byId.slots + byId.owner.Keys;
    }

    /** `cli_hash_table_get` in the id table, without the data. */
    method Present(id: string) returns (b: bool)
      requires Valid()
      ensures b <==> Has(Entries(), id)
    {
      hide Ring.Valid, Table.Valid, Hash;
      var hash := HashFromStr(id);
      var out := byId.Get(Key(id, hash));
      b := out.Some?;
      IndexedHas(nodes.nodes, byId.contents, id);
    }

    /** Enters a node into the table and the ring. */
    method Enter(node: Node<Seen<V>>)
      requires Sound() && !Has(Entries(), node.item.id)
      requires node !in nodes.repr && node.next == node && node.prev == node && node.live
      modifies nodes, nodes.repr, byId, byId.slots, byId.owner.Keys, node`prev, node`next
      ensures Sound() && Entries() == old(Entries()) + [node.item]
      ensures nodes.repr == old(nodes.repr) + {node} && fresh(byId.owner.Keys - old(byId.owner.Keys))
    {
      hide Ring.Valid, Table.Valid, Hash;
      IndexedHas(nodes.nodes, byId.contents, node.item.id);
      IndexedMore(nodes.nodes, byId.contents, node);
      var hash := HashFromStr(node.item.id);
      var _ := byId.Insert(Some(node), Key(node.item.id, hash), true);
      nodes.AddItemBack(node);
    }

    /** `cli_match_add_node` when memory is not short. */
    method AddNode(id: string, arg: Option<V>)
      requires Valid() && !Has(Entries(), id)
      modifies repr
      ensures Valid() && Entries() == old(Entries()) + [Seen(id, arg)]
      ensures fresh(repr - old(repr))
    {
      hide Match.Sound, Match.Entries, Has;
      var node := new Node(Seen(id, arg));
      Enter(node);
      repr := repr + {node} + byId.owner.Keys;
    }

    /** `cli_match_destroy` up to a call through a `data_free` that was never set; `clean` says that there is
        none. */
    method Destroy() returns (clean: bool)
      requires Valid()
      modifies repr
      ensures clean == Clean(old(Entries()))
      ensures clean ==> forall n :: n in nodes.nodes ==> !n.live
      ensures clean ==> forall b, n :: 0 <= b < |byId.opts| && n in byId.opts[b].nodes ==> !n.live
    {
      hide Table.Valid, Circular, Covers, Indexed;
      var visited := nodes.FreeAll();
      for i := 0 to |visited|
        invariant forall j :: 0 <= j < i ==> visited[j].item.arg.Some?
      {
        if visited[i].item.arg.None? {
          assert ItemsOf(visited)[i].arg.None?;
          return false;
        }
      }
      byId.Destroy();
      clean := true;
    }
  }

  /** The table maps the ids of the nodes to the nodes. */
  ghost predicate Indexed<V>(nodes: seq<Node<Seen<V>>>, m: map<string, Node<Seen<V>>>) {
    && (forall n :: n in nodes ==> n.item.id in m && m[n.item.id] == n)
    && (forall id :: id in m ==> m[id] in nodes && m[id].item.id == id)
  }

  lemma IndexedHas<V>(nodes: seq<Node<Seen<V>>>, m: map<string, Node<Seen<V>>>, id: string)
    requires Indexed(nodes, m)
    ensures id in m <==> Has(ItemsOf(nodes), id)
  {
    if id in m {
      var i :| 0 <= i < |nodes| && nodes[i] == m[id];
      assert ItemsOf(nodes)[i].id == id;
    }
  }

  lemma IndexedMore<V>(nodes: seq<Node<Seen<V>>>, m: map<string, Node<Seen<V>>>, n: Node<Seen<V>>)
    requires Indexed(nodes, m) && n.item.id !in m
    ensures Indexed(nodes + [n], m[n.item.id := n])
    ensures ItemsOf(nodes + [n]) == ItemsOf(nodes) + [n.item]
  {
  }

  /** The lookup of a word, by long or by short name. What it finds has not been destroyed. */
  method Find<V>(cli: Cli<V>, word: string) returns (n: Node?<Opt<V>>)
    requires cli.Valid() && cli.byShort.Length == UCHAR_MAX
    requires Lookup(cli.View(), cli.byShort[..], word).Missing? || Lookup(cli.View(), cli.byShort[..], word).Known?
    ensures Lookup(cli.View(), cli.byShort[..], word) == if n == null then Missing else Known(n)
    ensures n != null ==> n.live
  {
    hide Ring.Valid, Table.Valid, Hash, ShortsOk, Registry.Consistent;
    ShortsLength(cli.View(), cli.byShort[..], cli.stale);
    if IsLong(word) {
      var hash := HashFromStr(word[2..]);
      var out := cli.byLong.Get(Key(word[2..], hash));
      n := if out.Some? then out.value else null;
    } else {
      if word == "" || word[0] != '-' { return null; }
      var short := if |word| >= 2 then word[1] else NO_SHORT_NAME;
      n := cli.byShort[short as int];
    }
    if n != null {
      LookupFindsIff(cli.View(), cli.byShort[..], cli.stale, word);
      cli.ListedIsLive(n);
    }
  }

  /** `cli_match_check_required` */
  method CheckRequired<V>(required: Ring<Opt<V>>, m: Match<V>) returns (ok: bool)
    requires required.Valid() && m.Valid()
    ensures ok <==> forall n :: n in required.nodes ==> Has(m.Entries(), n.item.id)
  {
    hide Match.Valid, Circular, Covers, Has;
    CoversHead(required.repr, required.nodes);
    if required.head == null { return true; }
    var iter: Node<Opt<V>> := required.head;
    ghost var k := 0;
    while true
      invariant 0 <= k < |required.nodes| && iter == required.nodes[k]
      invariant forall i :: 0 <= i < k ==> Has(m.Entries(), required.nodes[i].item.id)
      decreases |required.nodes| - k
    {
      var present := m.Present(iter.item.id);
      if !present { return false; }
      iter := required.Next(iter, k);
      if iter == required.head {
        RingWrapsLast(required, k);
        return true;
      }
      k := k + 1;
    }
  }

  /** One pass of the loop of `cli_match` over the words from `argv[0]` on, up to the change of the match. */
  method Read<V>(cli: Cli<V>, argv: seq<string>, m: Match<V>) returns (step: Step<V>)
    requires cli.Valid() && cli.byShort.Length == UCHAR_MAX && m.Valid()
    requires argv != [] && !StepOf(cli.View(), cli.byShort[..], argv, m.Entries()).Break?
    ensures step == StepOf(cli.View(), cli.byShort[..], argv, m.Entries())
  {
    hide Cli.Valid, Match.Valid, Has, Lookup;
    var n := Find(cli, argv[0]);
    if n == null { return Refuse; }
    if INTERNAL in n.item.flags { return Exit; }
    var words := 1;
    var value: Option<V> := None;
    if HAS_ARG in n.item.flags {
      words := 2;
      if |argv| < 2 { return Refuse; }
      value := n.item.parser(argv[1]);
      if value.None? { return Refuse; }
    }
    var present := m.Present(n.item.id);
    step := if present then Refuse else Take(words, Seen(n.item.id, value));
  }

  /** One pass of the loop of `cli_match` over the words from `argv[i]` on. */
  method Pass<V>(cli: Cli<V>, argv: seq<string>, i: nat, m: Match<V>, ghost v: Registry<V>, ghost shorts: Shorts<V>)
    returns (step: Step<V>)
    requires cli.Valid() && cli.byShort.Length == UCHAR_MAX && m.Valid()
    requires v == cli.View() && shorts == cli.byShort[..]
    requires i < |argv| && !StepOf(v, shorts, argv[i..], m.Entries()).Break?
    modifies m.repr
    ensures m.Valid() && fresh(m.repr - old(m.repr))
    ensures step == StepOf(v, shorts, argv[i..], old(m.Entries()))
    ensures step.Take? ==> 1 <= step.words <= |argv| - i
    ensures m.Entries() == if step.Take? then old(m.Entries()) + [step.entry] else old(m.Entries())
  {
    hide Cli.Valid, Match.Valid, Match.Entries, Has, StepOf;
    step := Read(cli, argv[i..], m);
    if step.Take? {
      m.AddNode(step.entry.id, step.entry.arg);
    }
  }

  /** How `cli_match` ends: it returns, the help handler ends the process, or a pointer that was never set is
      called. */
  datatype Ending = Returned | Exited | Crashed

  /** The label `destroy_match`. */
  method Refused<V>(m: Match<V>) returns (ending: Ending)
    requires m.Valid()
    modifies m.repr
    ensures Refusal(old(m.Entries())) == if ending == Returned then Failed else Undefined(GarbageCall)
    ensures ending != Exited
  {
    hide Match.Valid, Match.Entries;
    var clean := m.Destroy();
    ending := if clean then Returned else Crashed;
  }

  /** `cli_match` when memory is not short, on every command line on which it makes no wild read. */
  method CliMatch<V>(cli: Cli<V>, argv: seq<string>) returns (result: Match?<V>, ending: Ending)
    requires cli.Valid() && cli.strict && cli.byShort.Length == UCHAR_MAX
    requires MatchOf(cli.View(), cli.byShort[..], argv) != Undefined(DestroyedRead)
    requires MatchOf(cli.View(), cli.byShort[..], argv) != Undefined(OutsideRead)
    ensures result != null ==> fresh(result) && result.Valid() && ending == Returned
    ensures MatchOf(cli.View(), cli.byShort[..], argv)
         == match ending
            case Exited => Helped
            case Crashed => Undefined(GarbageCall)
            case Returned => if result == null then Failed else Matched(result.Entries())
  {
    hide Cli.Valid, Match.Valid, Match.Entries, Has, Scan, StepOf, Refusal;
    ghost var v, shorts := cli.View(), cli.byShort[..];
    var m := new Match<V>();
    var i := 0;
    result := null;
    assert argv[0..] == argv;
    while i < |argv|
      invariant 0 <= i <= |argv| && fresh(m.repr) && m.Valid()
      invariant cli.Valid() && cli.View() == v && cli.byShort[..] == shorts
      invariant Scan(v, shorts, argv, []) == Scan(v, shorts, argv[i..], m.Entries())
    {
      ScanFrom(v, shorts, argv, i, m.Entries());
      var step := Pass(cli, argv, i, m, v, shorts);
      if step.Exit? { return null, Exited; }
      if step.Refuse? {
        ending := Refused(m);
        return;
      }
      i := i + step.words;
    }
    ScanFrom(v, shorts, argv, i, m.Entries());
    cli.RequiredRing();
    var ok := CheckRequired(cli.required, m);
    if ok {
      result, ending := m, Returned;
    } else {
      ending := Refused(m);
    }
  }

  /** Registering an option with a long name and an argument, and then matching its word and an argument: the
      match is there exactly when the argument parses and nothing else is required, and it holds just the
      option's id and the parsed value. */
  method AddAndMatch<V>(cli: Cli<V>, o: Spec<V>, g: Grants, a: string)
    returns (added: bool, result: Match?<V>, ending: Ending)
    requires cli.Valid() && cli.strict && o.longName.Some? && HAS_ARG in o.flags
    modifies cli.byShort, cli.byId, cli.byId.slots, cli.byId.owner.Keys
    modifies cli.byLong, cli.byLong.slots, cli.byLong.owner.Keys
    modifies cli.optional, cli.optional.repr, cli.required, cli.required.repr
    ensures cli.Valid() && (added <==> Admits(old(cli.View()), old(cli.byShort[..]), o, g))
    ensures added ==>
      && o.id.Some? && ending == Returned
      && (result != null <==>
            o.parser(a).Some? && forall m :: m in cli.View().required ==> m.item.id == o.id.value)
      && (result != null ==> result.Valid() && result.Entries() == [Seen(o.id.value, o.parser(a))])
  {
    hide Cli.Valid, Match.Valid, Match.Entries, Admits, MatchOf, Registry.Add, Registry.Accepts, Registry.Consistent;
    hide ShortsOk;
    ghost var n;
    added, n := cli.AddOpt(o, g);
    result, ending := null, Returned;
    if added {
      cli.ValidParts();
      ghost var word := "--" + o.longName.value;
      OptionWithArgument(cli.View(), cli.byShort[..], cli.stale, o, n, word, a, []);
      result, ending := CliMatch(cli, ["--" + o.longName.value, a]);
    }
  }
}
