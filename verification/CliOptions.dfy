/** The registry of cli.c on the heap: adding and removing options. */
module CliOptions {
  import opened Common
  import opened Ring
  import opened CliHash
  import opened HashTable
  import opened CliRegistry

  /** Whether the memory for an option's node and for its entries in the two tables can be had. */
  datatype Grants = Grants(node: bool, id: bool, long: bool)

  predicate IsGraph(c: char) { '!' <= c <= '~' }

  /** `struct cli_opt`, as the user passes it; a null pointer is None. */
  datatype Spec<V> = Spec(id: Option<string>, longName: Option<string>, shortName: char, flags: set<nat>,
      parser: string -> Option<V>)
  {
    /** `cli_opt_user_check` and `cli_opt_check` let it pass. */
    predicate Checked() {
      && (shortName != NO_SHORT_NAME || longName.Some?)
      && id.Some?
      && (IsGraph(shortName) || shortName == NO_SHORT_NAME)
      && flags <= {REQUIRED, HAS_ARG}
    }

    function ToOpt(): Opt<V>
      requires id.Some?
    {
      Opt(id.value, longName, shortName, flags, parser)
    }
  }

  const HELP_ID := "help_id_internal"
  const HELP_LONG := "help"
  const HELP_SHORT := 'h'

  function HelpOpt<V>(): Opt<V> {
    Opt(HELP_ID, Some(HELP_LONG), HELP_SHORT, {INTERNAL}, _ => None)
  }

  /** The slot is free, the names are new, and there is memory. */
  ghost predicate Free<V>(v: Registry<V>, shorts: Shorts<V>, o: Opt<V>, g: Grants) {
    && g.node
    && (o.shortName == NO_SHORT_NAME || (o.shortName as int < |shorts| && shorts[o.shortName as int] == null))
    && g.id && (o.longName.Some? ==> g.long)
    && o.id !in v.ids
    && (o.longName.Some? ==> o.longName.value !in v.longs)
  }

  /** When `cli_add_opt` accepts an option. */
  ghost predicate Admits<V>(v: Registry<V>, shorts: Shorts<V>, o: Spec<V>, g: Grants) {
    o.Checked() && Free(v, shorts, o.ToOpt(), g)
  }

  /** The short names among `nodes`. */
  ghost function ShortNames<V>(nodes: Nodes<V>): set<char> {
    set n | n in nodes && n.item.shortName != NO_SHORT_NAME :: n.item.shortName
  }

  /** The nodes were made from the first options, in order. */
  ghost predicate MadeFrom<V>(nodes: Nodes<V>, opts: seq<Spec<V>>) {
    && |nodes| <= |opts|
    && forall i :: 0 <= i < |nodes| ==> opts[i].Checked() && nodes[i].item == opts[i].ToOpt()
  }

  /** Such a node carries just what the caller passed. */
  lemma MadeAsPassed<V>(nodes: Nodes<V>, opts: seq<Spec<V>>)
    requires MadeFrom(nodes, opts)
    ensures forall i :: 0 <= i < |nodes| ==>
      && opts[i].id == Some(nodes[i].item.id) && nodes[i].item.longName == opts[i].longName
      && nodes[i].item.shortName == opts[i].shortName && nodes[i].item.flags == opts[i].flags
      && nodes[i].item.parser == opts[i].parser
  {
  }

  /** When an option is admitted, in terms of what the caller passed and of the options that are there: it has a
      name and an id, its short name is a visible character or missing, it asks for no more than an argument and
      to be required, its names are new and its slot is empty, and there is memory. */
  lemma AdmitsIff<V>(v: Registry<V>, shorts: Shorts<V>, o: Spec<V>, g: Grants)
    requires v.Consistent()
    ensures Admits(v, shorts, o, g) <==>
      && (o.longName.Some? || o.shortName != '\0') && o.id.Some?
      && (o.shortName == '\0' || (33 <= o.shortName as int <= 126 && o.shortName as int < |shorts|
                                  && shorts[o.shortName as int] == null))
      && (forall f :: f in o.flags ==> f == REQUIRED || f == HAS_ARG)
      && (forall n :: v.Lists(n) ==> n.item.id != o.id.value)
      && (o.longName.Some? ==> forall n :: v.Lists(n) ==> n.item.longName != o.longName)
      && g.node && g.id && (o.longName.Some? ==> g.long)
  {
    hide Registry.RingsOk;
    if o.id.Some? {
      assert o.id.value in v.ids <==> exists n :: v.Lists(n) && n.item.id == o.id.value by {
        if o.id.value in v.ids { assert v.Lists(v.ids[o.id.value]); }
      }
    }
    if o.longName.Some? {
      assert o.longName.value in v.longs <==> exists n :: v.Lists(n) && n.item.longName == o.longName by {
        if o.longName.value in v.longs { assert v.Lists(v.longs[o.longName.value]); }
      }
    }
  }

  /** The short-name array after `nodes` were entered one by one. */
  ghost function WithShorts<V>(shorts: Shorts<V>, nodes: Nodes<V>): (r: Shorts<V>)
    ensures |r| == |shorts|
  {
    if nodes == [] then shorts
    else
      var n, before := nodes[|nodes| - 1], WithShorts(shorts, nodes[..|nodes| - 1]);
      if n.item.shortName == NO_SHORT_NAME || n.item.shortName as int >= |shorts| then before
      else before[n.item.shortName as int := n]
  }

  /** After `added`, the option `o` is refused. */
  ghost predicate Stuck<V>(v: Registry<V>, shorts: Shorts<V>, o: Spec<V>, g: Grants, added: Nodes<V>) {
    !Admits(AddAll(v, added), WithShorts(shorts, added), o, g)
  }

  /** Each option was admitted when its turn came. */
  ghost predicate AllAdmitted<V>(v: Registry<V>, shorts: Shorts<V>, opts: seq<Spec<V>>, grants: nat -> Grants,
      nodes: Nodes<V>)
  {
    nodes != [] ==>
      var i, before := |nodes| - 1, nodes[..|nodes| - 1];
      && |nodes| <= |opts| && AllAdmitted(v, shorts, opts, grants, before)
      && Admits(AddAll(v, before), WithShorts(shorts, before), opts[i], grants(i))
  }

  lemma NoneAdmitted<V>(v: Registry<V>, shorts: Shorts<V>, opts: seq<Spec<V>>, grants: nat -> Grants)
    ensures AllAdmitted(v, shorts, opts, grants, [])
  {
  }

  lemma OneAdmitted<V>(v: Registry<V>, shorts: Shorts<V>, opts: seq<Spec<V>>, grants: nat -> Grants, added: Nodes<V>,
      more: Nodes<V>)
    requires |added| < |opts| && AllAdmitted(v, shorts, opts, grants, added)
    requires |more| == |added| + 1 && more[..|added|] == added
    requires !Stuck(v, shorts, opts[|added|], grants(|added|), added)
    ensures AllAdmitted(v, shorts, opts, grants, more)
  {
    hide Admits, AddAll, WithShorts;
  }

  lemma ShortsLength<V>(r: Registry<V>, shorts: Shorts<V>, stale: set<char>)
    requires ShortsOk(r, shorts, stale)
    ensures |shorts| == UCHAR_MAX && shorts[NO_SHORT_NAME as int] == null
  {
  }

  lemma NothingRegistered<V>(shorts: Shorts<V>)
    requires |shorts| == UCHAR_MAX && forall i :: 0 <= i < |shorts| ==> shorts[i] == null
    ensures var v: Registry<V> := Registry([], [], map[], map[]);
      v.Consistent() && ShortsOk(v, shorts, {})
  {
  }

  /** An option that was just removed can be added again, memory permitting, exactly when it has no short
      name: its slot of the array still points at the destroyed node. */
  lemma RemovedCanReturn<V>(v: Registry<V>, shorts: Shorts<V>, stale: set<char>, n: Node<Opt<V>>, o: Spec<V>)
    requires v.Consistent() && ShortsOk(v, shorts, stale) && v.Lists(n)
    requires o.Checked() && n.item == o.ToOpt()
    ensures Admits(v.Drop(n), shorts, o, Grants(true, true, true)) <==> o.shortName == NO_SHORT_NAME
  {
  }

  lemma NothingAdded<V>(v: Registry<V>, shorts: Shorts<V>, opts: seq<Spec<V>>)
    ensures MadeFrom([], opts) && AllAccepted(v, []) && AddAll(v, []) == v && WithShorts(shorts, []) == shorts
  {
  }

  lemma NodeAdded<V>(v: Registry<V>, shorts: Shorts<V>, opts: seq<Spec<V>>, added: Nodes<V>, n: Node<Opt<V>>)
    requires |added| < |opts| && |shorts| == UCHAR_MAX
    requires MadeFrom(added, opts) && AllAccepted(v, added) && AddAll(v, added).Accepts(n)
    requires opts[|added|].Checked() && n.item == opts[|added|].ToOpt()
    ensures MadeFrom(added + [n], opts) && AllAccepted(v, added + [n])
    ensures AddAll(v, added + [n]) == AddAll(v, added).Add(n)
    ensures WithShorts(shorts, added + [n])
         == if n.item.shortName == NO_SHORT_NAME then WithShorts(shorts, added)
            else WithShorts(shorts, added)[n.item.shortName as int := n]
  {
    hide Registry.Accepts, Registry.Add;
    assert (added + [n])[..|added|] == added;
  }

  lemma ShortNamesStep<V>(nodes: Nodes<V>, j: nat)
    requires j < |nodes|
    ensures ShortNames(nodes[..j + 1]) == ShortNames(nodes[..j]) + ShortNames([nodes[j]])
    ensures nodes[j..][0] == nodes[j]
  {
    assert nodes[..j + 1] == nodes[..j] + [nodes[j]];
  }

  lemma AddNothing<V>(v: Registry<V>)
    ensures AddAll(v, []) == v
  {
  }

  // -------- The registry on the heap --------

  class Cli<V> {
    const optional: Ring<Opt<V>>
    const required: Ring<Opt<V>>
    const byId: Table<Node<Opt<V>>>
    const byLong: Table<Node<Opt<V>>>
    const byShort: array<Node?<Opt<V>>>
    const strict: bool

    ghost var stale: set<char>   // short names of removed options

    /** The objects that make up the registry are sound and do not overlap. */
    ghost predicate Heap()
      reads optional, optional.repr, required, required.repr
      reads byId, byId.slots, byId.owner.Keys, byLong, byLong.slots, byLong.owner.Keys
      ensures Heap() ==> byId != byLong && optional != required
    {
      && optional != required && optional.repr !! required.repr
      && byId != byLong
      && byId.slots !! byLong.slots
      && byId.owner.Keys !! byLong.owner.Keys
      && optional.Valid() && required.Valid()
      && byId.Valid() && byLong.Valid()
    }

    ghost function View(): Registry<V>
      reads optional, required, byId, byLong
    {
      Registry(optional.nodes, required.nodes, byId.contents, byLong.contents)
    }

    ghost predicate Valid()
      reads this`stale, optional, optional.repr, required, required.repr, byShort
      reads byId, byId.slots, byId.owner.Keys, byLong, byLong.slots, byLong.owner.Keys
    {
      Heap() && View().Consistent() && ShortsOk(View(), byShort[..], stale)
    }

    /** `cli_create` without the automatic help option. */
    constructor (strict: bool)
      ensures Valid() && stale == {} && this.strict == strict && byShort.Length == UCHAR_MAX
      ensures View() == Registry([], [], map[], map[]) && forall i :: 0 <= i < UCHAR_MAX ==> byShort[i] == null
      ensures fresh(byShort) && fresh(optional) && fresh(required) && optional.repr == required.repr == {}
      ensures fresh(byId) && fresh(byId.slots) && byId.owner == map[]
      ensures fresh(byLong) && fresh(byLong.slots) && byLong.owner == map[]
    {
      hide Ring.Valid, Table.Valid, ShortsOk, Registry.Consistent, Hash, Without;
      optional := new Ring();
      required := new Ring();
      byId := new Table(HT_SIZE);
      byLong := new Table(HT_SIZE);
      var slots := new Node?<Opt<V>>[UCHAR_MAX](_ => null);
      byShort := slots;
      this.strict := strict;
      stale := {};
      new;
      NothingRegistered(byShort[..]);
    }

    /** `listc_add_item_back` into the ring the flags say. */
    method List(n: Node<Opt<V>>)
      requires Heap() && n !in optional.repr + required.repr && n.next == n && n.prev == n && n.live
      modifies optional, optional.repr, required, required.repr, n`prev, n`next
      ensures Heap()
      ensures View() == old(View()).(
        optional := if REQUIRED in n.item.flags then old(View()).optional else old(View()).optional + [n],
        required := if REQUIRED in n.item.flags then old(View()).required + [n] else old(View()).required)
      ensures optional.repr <= old(optional.repr) + {n} && required.repr <= old(required.repr) + {n}
    {
      hide Ring.Valid, Table.Valid;
      if REQUIRED in n.item.flags {
        required.AddItemBack(n);
      } else {
        optional.AddItemBack(n);
      }
    }

    /** The tables have grown by new nodes only. */
    twostate predicate TablesGrown()
      reads byId, byLong
    {
      fresh(byId.owner.Keys - old(byId.owner.Keys)) && fresh(byLong.owner.Keys - old(byLong.owner.Keys))
    }

    /** `cli_hash_table_insert` into the id table. */
    method InsertId(n: Node<Opt<V>>, granted: bool) returns (ok: bool)
      requires Heap()
      modifies byId, byId.slots, byId.owner.Keys
      ensures Heap() && TablesGrown()
      ensures ok <==> granted && n.item.id !in old(byId.contents)
      ensures byId.contents == if ok then old(byId.contents)[n.item.id := n] else old(byId.contents)
    {
      hide Ring.Valid, Table.Valid, Hash;
      var hash := HashFromStr(n.item.id);
      ok := byId.Insert(Some(n), Key(n.item.id, hash), granted);
    }

    /** `cli_hash_table_insert` into the long-name table. */
    method InsertLong(n: Node<Opt<V>>, granted: bool) returns (ok: bool)
      requires Heap() && n.item.longName.Some?
      modifies byLong, byLong.slots, byLong.owner.Keys
      ensures Heap() && TablesGrown()
      ensures ok <==> granted && n.item.longName.value !in old(byLong.contents)
      ensures byLong.contents == if ok then old(byLong.contents)[n.item.longName.value := n]
        else old(byLong.contents)
    {
      hide Ring.Valid, Table.Valid, Hash;
      var hash := HashFromStr(n.item.longName.value);
      ok := byLong.Insert(Some(n), Key(n.item.longName.value, hash), granted);
    }

    method RemoveId(id: string)
      requires Heap()
      modifies byId, byId.slots, byId.owner.Keys
      ensures Heap() && TablesGrown()
      ensures byId.contents == old(byId.contents) - {id}
    {
      hide Ring.Valid, Table.Valid, Hash;
      var hash := HashFromStr(id);
      var _ := byId.Remove(Key(id, hash));
    }

    method RemoveLong(name: string)
      requires Heap()
      modifies byLong, byLong.slots, byLong.owner.Keys
      ensures Heap() && TablesGrown()
      ensures byLong.contents == old(byLong.contents) - {name}
    {
      hide Ring.Valid, Table.Valid, Hash;
      var hash := HashFromStr(name);
      var _ := byLong.Remove(Key(name, hash));
    }

    /** A node that `cli_opt_node_from_opt` has just made. */
    ghost predicate Fresh(n: Node<Opt<V>>)
      reads optional, required, byShort, n
    {
      && n !in optional.repr && n !in required.repr && n !in byShort[..]
      && n.next == n && n.prev == n && n.live
      && Slot(n.item.shortName)
    }

    /** What the single add demands: a free slot, memory for the table nodes, and new names. */
    ghost predicate CanAdd(n: Node<Opt<V>>, grantedId: bool, grantedLong: bool)
      requires byShort.Length == UCHAR_MAX && Slot(n.item.shortName)
      reads optional, required, byId, byLong, byShort
    {
      && (n.item.shortName == NO_SHORT_NAME || byShort[n.item.shortName as int] == null)
      && grantedId
      && (n.item.longName.Some? ==> grantedLong)
      && View().Accepts(n)
    }

    /** Enters a node that is in the id table into the long-name table, or takes it out again. */
    method LongOrUndo(n: Node<Opt<V>>, granted: bool) returns (ok: bool)
      requires Heap() && n.item.longName.Some?
      modifies byId, byId.slots, byId.owner.Keys, byLong, byLong.slots, byLong.owner.Keys
      ensures Heap()
      ensures TablesGrown()
      ensures ok <==> granted && n.item.longName.value !in old(byLong.contents)
      ensures byId.contents == if ok then old(byId.contents) else old(byId.contents) - {n.item.id}
      ensures byLong.contents == if ok then old(byLong.contents)[n.item.longName.value := n] else old(byLong.contents)
    {
      hide Ring.Valid, Table.Valid, Cli.Heap;
      ok := InsertLong(n, granted);
      if !ok {
        RemoveId(n.item.id);
      }
    }

    /** Enters a node into both tables, or into none: when the long name is refused the id is taken out
        again. */
    method IndexNames(n: Node<Opt<V>>, grantedId: bool, grantedLong: bool) returns (ok: bool)
      requires Heap()
      modifies byId, byId.slots, byId.owner.Keys, byLong, byLong.slots, byLong.owner.Keys
      ensures Heap()
      ensures TablesGrown()
      ensures ok <==>
        && grantedId && n.item.id !in old(byId.contents)
        && (n.item.longName.Some? ==> grantedLong && n.item.longName.value !in old(byLong.contents))
      ensures byId.contents == if ok then old(byId.contents)[n.item.id := n] else old(byId.contents)
      ensures byLong.contents == if ok && n.item.longName.Some? then old(byLong.contents)[n.item.longName.value := n]
        else old(byLong.contents)
    {
      hide Ring.Valid, Table.Valid, Cli.Heap;
      ok := InsertId(n, grantedId);
      if ok && n.item.longName.Some? {
        ok := LongOrUndo(n, grantedLong);
      }
    }

    /** The part of `cli_add_opt_node` before the ring: all indexes are updated, or none. */
    method Index(n: Node<Opt<V>>, grantedId: bool, grantedLong: bool) returns (ok: bool)
      requires Heap() && byShort.Length == UCHAR_MAX && byShort[NO_SHORT_NAME as int] == null && Slot(n.item.shortName)
      modifies byShort, byId, byId.slots, byId.owner.Keys, byLong, byLong.slots, byLong.owner.Keys
      ensures Heap()
      ensures TablesGrown()
      ensures ok <==> old(CanAdd(n, grantedId, grantedLong))
      ensures byId.contents == if ok then old(byId.contents)[n.item.id := n] else old(byId.contents)
      ensures byLong.contents == if ok && n.item.longName.Some? then old(byLong.contents)[n.item.longName.value := n]
        else old(byLong.contents)
      ensures byShort[..] ==
        if ok && n.item.shortName != NO_SHORT_NAME then old(byShort[..])[n.item.shortName as int := n]
        else old(byShort[..])
    {
      hide Ring.Valid, Table.Valid, Cli.Heap;
      var slot := n.item.shortName as int;
      if n.item.shortName != NO_SHORT_NAME {
        if byShort[slot] == null {
          byShort[slot] := n;
        } else {
          return false;
        }
      }
      ok := IndexNames(n, grantedId, grantedLong);
      if !ok {
        byShort[slot] := null;
      }
    }

    /** `cli_add_opt_node`. A failed add leaves both tables, both rings and the short-name array as they
        were. */
    method AddOptNode(n: Node<Opt<V>>, grantedId: bool, grantedLong: bool) returns (ok: bool)
      requires Heap() && ShortsOk(View(), byShort[..], stale) && Fresh(n)
      modifies byShort, byId, byId.slots, byId.owner.Keys, byLong, byLong.slots, byLong.owner.Keys
      modifies optional, optional.repr, required, required.repr, n`prev, n`next
      ensures Heap()
      ensures TablesGrown()
      ensures ok <==> old(CanAdd(n, grantedId, grantedLong))
      ensures View() == if ok then old(View()).Add(n) else old(View())
      ensures byShort[..] ==
        if ok && n.item.shortName != NO_SHORT_NAME then old(byShort[..])[n.item.shortName as int := n]
        else old(byShort[..])
      ensures optional.repr <= old(optional.repr) + {n} && required.repr <= old(required.repr) + {n}
      ensures !ok ==> optional.repr == old(optional.repr) && required.repr == old(required.repr)
    {
      hide Ring.Valid, Table.Valid, Cli.Heap;
      ok := Index(n, grantedId, grantedLong);
      if ok { List(n); }
    }

    /** `listc_remove_item` from the ring the flags say. */
    method Unlist(n: Node<Opt<V>>)
      requires Heap() && View().RingsOk() && View().Lists(n)
      modifies optional, optional.repr, required, required.repr
      ensures Heap()
      ensures n.live && n !in optional.repr && n !in required.repr
      ensures n in old(optional.repr) || n in old(required.repr)
      ensures optional.repr <= old(optional.repr) && required.repr <= old(required.repr)
      ensures View() == old(View()).Drop(n).(ids := old(byId.contents), longs := old(byLong.contents))
    {
      hide Table.Valid, Without, Distinct, Circular;
      var ring := if REQUIRED in n.item.flags then required else optional;
      assert n in ring.nodes;
      ghost var k :| 0 <= k < |ring.nodes| && ring.nodes[k] == n;
      WithoutAt(ring.nodes, k);
      CoversHead(ring.repr, ring.nodes);
      assert n !in (if REQUIRED in n.item.flags then optional.repr else required.repr);
      ring.RemoveItem(n, k);
    }

    /** `cli_hash_table_get` in the id table. */
    method LookupId(id: string) returns (out: Option<Node<Opt<V>>>)
      requires Heap()
      ensures out == if id in byId.contents then Some(byId.contents[id]) else None
    {
      hide Ring.Valid, Table.Valid, Hash;
      var hash := HashFromStr(id);
      out := byId.Get(Key(id, hash));
    }

    /** Takes a node's names out of the tables. */
    method Unindex(n: Node<Opt<V>>)
      requires Heap()
      modifies byId, byId.slots, byId.owner.Keys, byLong, byLong.slots, byLong.owner.Keys
      ensures Heap()
      ensures TablesGrown()
      ensures byId.contents == old(byId.contents) - {n.item.id}
      ensures byLong.contents == if n.item.longName.Some? then old(byLong.contents) - {n.item.longName.value}
        else old(byLong.contents)
    {
      hide Ring.Valid, Table.Valid, Cli.Heap;
      RemoveId(n.item.id);
      if n.item.longName.Some? {
        RemoveLong(n.item.longName.value);
      }
    }

    /** Takes a listed node out of its ring and of the tables, and destroys it. */
    method TakeOut(n: Node<Opt<V>>)
      requires Heap() && View().RingsOk() && View().Lists(n)
      modifies byId, byId.slots, byId.owner.Keys, byLong, byLong.slots, byLong.owner.Keys
      modifies optional, optional.repr, required, required.repr
      ensures Heap()
      ensures TablesGrown()
      ensures View() == old(View()).Drop(n) && !n.live
      ensures optional.repr <= old(optional.repr) && required.repr <= old(required.repr)
    {
      hide Ring.Valid, Table.Valid, Without, Distinct;
      Unlist(n);
      Unindex(n);
      n.Free();
    }

    /** Takes a listed node out and records that its short-name slot is stale. */
    method RemoveNode(n: Node<Opt<V>>)
      requires Valid() && n in View().optional + View().required
      modifies this`stale, byId, byId.slots, byId.owner.Keys, byLong, byLong.slots, byLong.owner.Keys
      modifies optional, optional.repr, required, required.repr
      ensures Valid()
      ensures TablesGrown()
      ensures View() == old(View()).Drop(n) && !n.live
      ensures stale == if n.item.shortName == NO_SHORT_NAME then old(stale) else old(stale) + {n.item.shortName}
      ensures optional.repr <= old(optional.repr) && required.repr <= old(required.repr)
    {
      hide Ring.Valid, Table.Valid, Cli.Heap, Without, ShortsOk;
      hide Registry.Consistent, Registry.Drop, Registry.RingsOk;
      ghost var v := View();
      v.ConsistentRings();
      v.DropConsistent(n);
      DropShorts(v, byShort[..], stale, n, v.Drop(n));
      TakeOut(n);
      if n.item.shortName != NO_SHORT_NAME {
        stale := stale + {n.item.shortName};
      }
    }

    /** `cli_remove_opt`. It fails for an unknown id and for an internal option; otherwise it undoes the add
        of that node in the rings and the tables. The short-name array is not touched. */
    method RemoveOpt(id: string) returns (ok: bool)
      requires Valid()
      modifies this`stale, byId, byId.slots, byId.owner.Keys, byLong, byLong.slots, byLong.owner.Keys
      modifies optional, optional.repr, required, required.repr
      ensures Valid()
      ensures TablesGrown()
      ensures ok <==> id in old(View()).ids && INTERNAL !in old(View()).ids[id].item.flags
      ensures !ok ==> View() == old(View()) && stale == old(stale)
      ensures ok ==>
        var n := old(View()).ids[id];
        && View() == old(View()).Drop(n) && !n.live
        && stale == if n.item.shortName == NO_SHORT_NAME then old(stale) else old(stale) + {n.item.shortName}
      ensures optional.repr <= old(optional.repr) && required.repr <= old(required.repr)
    {
      hide Ring.Valid, Table.Valid, Cli.Heap, Without, ShortsOk;
      hide Registry.Consistent, Registry.Drop, Registry.RingsOk;
      var data := LookupId(id);
      if data.None? { return false; }
      var n := data.value;
      if INTERNAL in n.item.flags { return false; }
      View().ListedById(id);
      RemoveNode(n);
      ok := true;
    }

    twostate predicate Grown()
      reads byId, byLong, optional, required
    {
      TablesGrown() && fresh(optional.repr - old(optional.repr)) && fresh(required.repr - old(required.repr))
    }

    lemma AddedKeeps(n: Node<Opt<V>>, grantedId: bool, grantedLong: bool)
      requires Valid() && Fresh(n) && byShort.Length == UCHAR_MAX
      ensures CanAdd(n, grantedId, grantedLong) ==>
        var v, c := View().Add(n), n.item.shortName;
        && v.Consistent()
        && ShortsOk(v, if c == NO_SHORT_NAME then byShort[..] else byShort[..][c as int := n], stale)
    {
      hide ShortsOk, Registry.Consistent, Registry.Add, Registry.Accepts;
      if CanAdd(n, grantedId, grantedLong) {
        View().AddConsistent(n);
        AddShorts(View(), byShort[..], stale, n);
      }
    }

    /** `cli_add_opt_node` keeps the registry sound. */
    method Enter(n: Node<Opt<V>>, grantedId: bool, grantedLong: bool) returns (ok: bool)
      requires Valid() && Fresh(n)
      modifies byShort, byId, byId.slots, byId.owner.Keys, byLong, byLong.slots, byLong.owner.Keys
      modifies optional, optional.repr, required, required.repr, n`prev, n`next, n`live
      ensures Valid()
      ensures TablesGrown()
      ensures byShort.Length == UCHAR_MAX && ok == old(CanAdd(n, grantedId, grantedLong))
      ensures View() == if ok then old(View()).Add(n) else old(View())
      ensures byShort[..] ==
        if ok && n.item.shortName != NO_SHORT_NAME then old(byShort[..])[n.item.shortName as int := n]
        else old(byShort[..])
      ensures optional.repr <= old(optional.repr) + {n} && required.repr <= old(required.repr) + {n}
    {
      hide Ring.Valid, Table.Valid, Cli.Heap, Cli.CanAdd, ShortsOk, Registry.Consistent, Registry.Add;
      ShortsLength(View(), byShort[..], stale);
      AddedKeeps(n, grantedId, grantedLong);
      ok := AddOptNode(n, grantedId, grantedLong);
      if !ok { n.Free(); }
    }

    /** Makes a node and enters it. */
    method AddNew(item: Opt<V>, g: Grants) returns (ok: bool, ghost n: Node?<Opt<V>>)
      requires Valid() && Slot(item.shortName)
      modifies byShort, byId, byId.slots, byId.owner.Keys, byLong, byLong.slots, byLong.owner.Keys
      modifies optional, optional.repr, required, required.repr
      ensures Valid()
      ensures Grown() && byShort.Length == UCHAR_MAX
      ensures ok <==> Free(old(View()), old(byShort[..]), item, g)
      ensures !ok ==> View() == old(View()) && byShort[..] == old(byShort[..])
      ensures ok ==>
        && n != null && fresh(n) && n.item == item && old(View()).Accepts(n)
        && View() == old(View()).Add(n)
        && byShort[..] == if item.shortName == NO_SHORT_NAME then old(byShort[..])
           else old(byShort[..])[item.shortName as int := n]
    {
      hide Ring.Valid, Table.Valid, Cli.Heap, ShortsOk, Registry.Consistent, Registry.Add;
      ShortsLength(View(), byShort[..], stale);
      n := null;
      if !g.node { return false, null; }
      var node := new Node(item);
      n := node;
      ok := Enter(node, g.id, g.long);
    }

    /** `cli_add_opt`. A failed add changes nothing. */
    method AddOpt(o: Spec<V>, g: Grants) returns (ok: bool, ghost n: Node?<Opt<V>>)
      requires Valid()
      modifies byShort, byId, byId.slots, byId.owner.Keys, byLong, byLong.slots, byLong.owner.Keys
      modifies optional, optional.repr, required, required.repr
      ensures Valid()
      ensures Grown()
      ensures ok <==> Admits(old(View()), old(byShort[..]), o, g)
      ensures !ok ==> View() == old(View()) && byShort[..] == old(byShort[..])
      ensures ok ==>
        && n != null && fresh(n) && o.Checked() && n.item == o.ToOpt() && old(View()).Accepts(n)
        && o.id.Some? && o.id.value in View().ids && View().ids[o.id.value] == n
        && View().required == old(View()).required + (if REQUIRED in o.flags then [n] else [])
        && View().optional == old(View()).optional + (if REQUIRED in o.flags then [] else [n])
        && n.item.id == o.id.value && n.item.longName == o.longName && n.item.shortName == o.shortName
        && n.item.flags == o.flags && n.item.parser == o.parser
        && View() == old(View()).Add(n)
        && byShort[..] == if o.shortName == NO_SHORT_NAME then old(byShort[..])
           else old(byShort[..])[o.shortName as int := n]
    {
      hide Cli.Valid, Free, Registry.Add, Registry.Accepts;
      ghost var v := View();
      ValidIsConsistent();
      n := null;
      if !o.Checked() { return false, null; }
      ok, n := AddNew(o.ToOpt(), g);
      if ok { v.AddedIs(n); }
    }

    /** `cli_add_auto_help`: the one internal option. */
    method AddAutoHelp(g: Grants) returns (ok: bool, ghost n: Node?<Opt<V>>)
      requires Valid()
      modifies byShort, byId, byId.slots, byId.owner.Keys, byLong, byLong.slots, byLong.owner.Keys
      modifies optional, optional.repr, required, required.repr
      ensures Valid()
      ensures Grown()
      ensures ok <==> Free(old(View()), old(byShort[..]), HelpOpt(), g)
      ensures !ok ==> View() == old(View()) && byShort[..] == old(byShort[..])
      ensures ok ==>
        && n != null && fresh(n) && n.item == HelpOpt() && View().Lists(n)
        && n.item.id == "help_id_internal" && n.item.longName == Some("help") && n.item.shortName == 'h'
        && n.item.flags == {INTERNAL}
        && View() == old(View()).Add(n)
        && byShort[..] == old(byShort[..])[HELP_SHORT as int := n]
    {
      hide Cli.Valid, Free, Registry.Add, Registry.Accepts;
      ghost var v := View();
      ValidIsConsistent();
      ok, n := AddNew(HelpOpt(), g);
      if ok { v.AddedIs(n); }
    }

    lemma ValidIsConsistent()
      requires Valid()
      ensures View().Consistent() && byShort.Length == UCHAR_MAX && byShort[NO_SHORT_NAME as int] == null
    {
    }

    lemma ValidParts()
      requires Valid()
      ensures View().Consistent() && ShortsOk(View(), byShort[..], stale) && byShort.Length == UCHAR_MAX
    {
    }

    lemma RequiredRing()
      requires Valid()
      ensures required.Valid()
    {
    }

    /** A node that an index leads to is in a ring, and so not destroyed. */
    lemma ListedIsLive(n: Node<Opt<V>>)
      requires Valid() && View().Lists(n)
      ensures n.live
    {
      CoversHead(optional.repr, optional.nodes);
      CoversHead(required.repr, required.nodes);
    }

    /** One pass of the undo loop of `cli_add_opts`. */
    method RemoveStep(o: Spec<V>, ghost v: Registry<V>, ghost rest: Nodes<V>)
      requires Valid() && v.Consistent() && rest != [] && o.Checked() && rest[0].item == o.ToOpt()
      requires AllAccepted(v, rest) && View() == AddAll(v, rest)
      modifies this`stale, byId, byId.slots, byId.owner.Keys, byLong, byLong.slots, byLong.owner.Keys
      modifies optional, optional.repr, required, required.repr
      ensures Valid()
      ensures Grown()
      ensures AllAccepted(v, rest[1..]) && View() == AddAll(v, rest[1..])
      ensures stale == old(stale) + ShortNames([rest[0]])
    {
      hide Cli.Valid, Registry.Consistent, Registry.Add, Registry.Drop, AllAccepted, AddAll;
      DropFirst(v, rest);
      AddAll(v, rest).ListedHasId(rest[0]);
      var _ := RemoveOpt(o.id.value);
    }

    /** The undo loop of `cli_add_opts`. */
    method RemoveFirst(opts: seq<Spec<V>>, count: nat, ghost v: Registry<V>, ghost added: Nodes<V>)
      requires Valid() && |added| == count && MadeFrom(added, opts)
      requires v.Consistent() && AllAccepted(v, added) && View() == AddAll(v, added)
      modifies this`stale, byId, byId.slots, byId.owner.Keys, byLong, byLong.slots, byLong.owner.Keys
      modifies optional, optional.repr, required, required.repr
      ensures Valid()
      ensures Grown()
      ensures View() == v
      ensures stale == old(stale) + ShortNames(added)
    {
      hide Cli.Valid, Registry.Consistent, AllAccepted, AddAll;
      assert added[0..] == added;
      for j := 0 to count
        invariant Valid()
        invariant Grown()
        invariant AllAccepted(v, added[j..]) && View() == AddAll(v, added[j..])
        invariant stale == old(stale) + ShortNames(added[..j])
      {
        RemoveStep(opts[j], v, added[j..]);
        assert added[j..][1..] == added[j + 1..];
        ShortNamesStep(added, j);
      }
      assert added[count..] == [] && added[..count] == added;
      AddNothing(v);
    }

    /** How far the first loop of `cli_add_opts` has got from `v`: `added` are the nodes of the first
        options. */
    ghost predicate Progress(v: Registry<V>, shorts: Shorts<V>, opts: seq<Spec<V>>, added: Nodes<V>)
      reads optional, required, byId, byLong, byShort
    {
      && MadeFrom(added, opts) && AllAccepted(v, added)
      && View() == AddAll(v, added)
      && byShort[..] == WithShorts(shorts, added)
    }

    /** One pass of the first loop of `cli_add_opts`. */
    method AddStep(opts: seq<Spec<V>>, i: nat, g: Grants, ghost v: Registry<V>, ghost shorts: Shorts<V>,
        ghost added: Nodes<V>)
      returns (ok: bool, ghost more: Nodes<V>)
      requires i < |opts| && |added| == i && |shorts| == UCHAR_MAX
      requires Valid() && Progress(v, shorts, opts, added)
      modifies byShort, byId, byId.slots, byId.owner.Keys, byLong, byLong.slots, byLong.owner.Keys
      modifies optional, optional.repr, required, required.repr
      ensures Valid() && Progress(v, shorts, opts, more)
      ensures Grown()
      ensures if ok then |more| == i + 1 && more[..i] == added else more == added
      ensures ok <==> !Stuck(v, shorts, opts[i], g, added)
    {
      hide Cli.Valid, Admits, Registry.Consistent, Registry.Add, Registry.Accepts;
      hide MadeFrom, AllAccepted, AddAll, WithShorts;
      ghost var n;
      ok, n := AddOpt(opts[i], g);
      more := added;
      if ok {
        NodeAdded(v, shorts, opts, added, n);
        more := added + [n];
      }
    }

    /** The first loop of `cli_add_opts`, up to the first option that is refused. */
    method AddFirst(opts: seq<Spec<V>>, grants: nat -> Grants) returns (i: nat, ghost added: Nodes<V>)
      requires Valid()
      modifies byShort, byId, byId.slots, byId.owner.Keys, byLong, byLong.slots, byLong.owner.Keys
      modifies optional, optional.repr, required, required.repr
      ensures Valid()
      ensures Grown()
      ensures i <= |opts| && |added| == i
      ensures Progress(old(View()), old(byShort[..]), opts, added)
      ensures i < |opts| ==> Stuck(old(View()), old(byShort[..]), opts[i], grants(i), added)
      ensures AllAdmitted(old(View()), old(byShort[..]), opts, grants, added)
    {
      hide Cli.Valid, Admits, Registry.Consistent, MadeFrom, AllAccepted, AddAll, WithShorts, Stuck, AllAdmitted;
      ValidIsConsistent();
      ghost var v, shorts := View(), byShort[..];
      i, added := 0, [];
      NothingAdded(v, shorts, opts);
      NoneAdmitted(v, shorts, opts, grants);
      while i < |opts|
        invariant i <= |opts| && |added| == i
        invariant Valid()
        invariant Grown()
        invariant Progress(v, shorts, opts, added) && AllAdmitted(v, shorts, opts, grants, added)
      {
        var ok;
        ghost var before := added;
        ok, added := AddStep(opts, i, grants(i), v, shorts, added);
        if !ok { return; }
        OneAdmitted(v, shorts, opts, grants, before, added);
        i := i + 1;
      }
    }

    /** `cli_add_opts`. Either all options are added in order, or the two rings, order included, and the two
        tables are what they were. The short-name array is not: the slots of the options added before the
        failure keep pointing at their destroyed nodes. */
    method AddOpts(opts: seq<Spec<V>>, grants: nat -> Grants) returns (ok: bool, ghost added: Nodes<V>)
      requires Valid()
      modifies this`stale, byShort, byId, byId.slots, byId.owner.Keys, byLong, byLong.slots, byLong.owner.Keys
      modifies optional, optional.repr, required, required.repr
      ensures Valid()
      ensures Grown()
      ensures MadeFrom(added, opts) && AllAccepted(old(View()), added)
      ensures AllAdmitted(old(View()), old(byShort[..]), opts, grants, added)
      ensures forall i :: 0 <= i < |added| ==>
        && opts[i].id == Some(added[i].item.id) && added[i].item.longName == opts[i].longName
        && added[i].item.shortName == opts[i].shortName && added[i].item.flags == opts[i].flags
        && added[i].item.parser == opts[i].parser
      ensures if ok then |added| == |opts|
              else |added| < |opts| && Stuck(old(View()), old(byShort[..]), opts[|added|], grants(|added|), added)
      ensures View() == if ok then AddAll(old(View()), added) else old(View())
      ensures stale == if ok then old(stale) else old(stale) + ShortNames(added)
      ensures byShort[..] == WithShorts(old(byShort[..]), added)
    {
      hide Cli.Valid, Registry.Consistent, MadeFrom, AllAccepted, AddAll, WithShorts, ShortNames, Stuck;
      hide AllAdmitted, Admits;
      ValidIsConsistent();
      ghost var v := View();
      var i;
      i, added := AddFirst(opts, grants);
      MadeAsPassed(added, opts);
      ok := i == |opts|;
      if !ok {
        RemoveFirst(opts, i, v, added);
      }
    }
  }
}
