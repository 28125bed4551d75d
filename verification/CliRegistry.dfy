/** The option registry of cli.c: one node per option, listed in one of two rings and indexed by id, by long
    name and by short name. */
module CliRegistry {
  import opened Common
  import opened Ring

  // Flag words are the sets of their 1 bits.
  const REQUIRED: nat := 0
  const HAS_ARG: nat := 1
  const APPEND: nat := 2
  const INTERNAL: nat := 31

  const NO_SHORT_NAME: char := '\0'
  const UCHAR_MAX: nat := 255
  const HT_SIZE: nat := 256

  /** `struct cli_opt_node` without its ring link. `parser` stands for the argument parser, which either
      fails or produces a value. */
  datatype Opt<V> = Opt(
    id: string,
    longName: Option<string>,
    shortName: char,
    flags: set<nat>,
    parser: string -> Option<V>)

  type Nodes<V> = seq<Node<Opt<V>>>
  type Shorts<V> = seq<Node?<Opt<V>>>   // the short-name array

  // -------- The registry as a value --------

  /** The two rings and the two tables. */
  datatype Registry<V> = Registry(
    optional: Nodes<V>,
    required: Nodes<V>,
    ids: map<string, Node<Opt<V>>>,
    longs: map<string, Node<Opt<V>>>)
  {
    ghost predicate Lists(n: Node<Opt<V>>) {
      n in optional + required
    }

    /** Both tables index exactly the listed nodes: every one by its id, and by its long name if it has
        one. Hence ids are distinct, and so are long names. */
    ghost predicate Consistent() {
      RingsOk() && IdsOk() && LongsOk()
    }

    ghost predicate RingsOk() {
      && Distinct(optional) && Distinct(required)
      && (forall n :: n in optional ==> REQUIRED !in n.item.flags)
      && (forall n :: n in required ==> REQUIRED in n.item.flags)
    }

    ghost predicate IdsOk() {
      && (forall n :: n in optional + required ==> n.item.id in ids && ids[n.item.id] == n)
      && (forall s :: s in ids ==> ids[s].item.id == s && ids[s] in optional + required)
    }

    ghost predicate LongsOk() {
      && (forall n :: n in optional + required ==> n.item.longName.Some? ==>
            n.item.longName.value in longs && longs[n.item.longName.value] == n)
      && (forall s :: s in longs ==> longs[s].item.longName == Some(s) && longs[s] in optional + required)
    }

    /** Nothing listed has the new node's names. */
    ghost predicate Accepts(n: Node<Opt<V>>) {
      && n.item.id !in ids
      && (n.item.longName.Some? ==> n.item.longName.value !in longs)
    }

    ghost function Add(n: Node<Opt<V>>): Registry<V> {
      Registry(
        if REQUIRED in n.item.flags then optional else optional + [n],
        if REQUIRED in n.item.flags then required + [n] else required,
        ids[n.item.id := n],
        if n.item.longName.Some? then longs[n.item.longName.value := n] else longs)
    }

    ghost function Drop(n: Node<Opt<V>>): Registry<V> {
      Registry(
        if REQUIRED in n.item.flags then optional else Without(optional, n),
        if REQUIRED in n.item.flags then Without(required, n) else required,
        ids - {n.item.id},
        if n.item.longName.Some? then longs - {n.item.longName.value} else longs)
    }

    lemma AddConsistent(n: Node<Opt<V>>)
      requires Consistent() && Accepts(n)
      ensures Add(n).Consistent()
      ensures !Lists(n)
    {
      AddIds(n, Add(n));
      AddLongs(n, Add(n));
    }

    lemma AddIds(n: Node<Opt<V>>, d: Registry<V>)
      requires IdsOk() && n.item.id !in ids && d.ids == ids[n.item.id := n]
      requires forall m :: m in d.optional + d.required <==> m in optional + required || m == n
      ensures d.IdsOk()
    {
    }

    lemma AddLongs(n: Node<Opt<V>>, d: Registry<V>)
      requires LongsOk() && (n.item.longName.Some? ==> n.item.longName.value !in longs)
      requires d.longs == if n.item.longName.Some? then longs[n.item.longName.value := n] else longs
      requires forall m :: m in d.optional + d.required <==> m in optional + required || m == n
      ensures d.LongsOk()
    {
    }

    lemma AddLists(n: Node<Opt<V>>)
      ensures Add(n).Lists(n)
      ensures forall m :: Lists(m) ==> Add(n).Lists(m)
    {
    }

    /** The new node comes last in its ring, and its names lead to it. */
    lemma AddedIs(n: Node<Opt<V>>)
      ensures Add(n).Lists(n) && n.item.id in Add(n).ids && Add(n).ids[n.item.id] == n
      ensures n.item.longName.Some? ==>
        n.item.longName.value in Add(n).longs && Add(n).longs[n.item.longName.value] == n
      ensures Add(n).required == required + if REQUIRED in n.item.flags then [n] else []
      ensures Add(n).optional == optional + if REQUIRED in n.item.flags then [] else [n]
    {
      assert optional + [] == optional && required + [] == required;
    }

    lemma ListedById(id: string)
      requires Consistent() && id in ids
      ensures RingsOk() && Lists(ids[id]) && ids[id] in optional + required && ids[id].item.id == id
    {
    }

    lemma ListedHasId(n: Node<Opt<V>>)
      requires Consistent() && Lists(n)
      ensures n.item.id in ids && ids[n.item.id] == n
    {
    }

    lemma ConsistentRings()
      requires Consistent()
      ensures RingsOk()
    {
    }

    lemma DropRings(n: Node<Opt<V>>)
      requires RingsOk() && Lists(n)
      ensures Drop(n).RingsOk()
      ensures forall m :: m in Drop(n).optional + Drop(n).required <==> m in optional + required && m != n
    {
      hide Without, Distinct;
      WithoutProperties(optional, n);
      WithoutProperties(required, n);
    }

    lemma DropConsistent(n: Node<Opt<V>>)
      requires Consistent() && Lists(n)
      ensures Drop(n).Consistent()
      ensures forall m :: m in Drop(n).optional + Drop(n).required <==> m in optional + required && m != n
    {
      hide RingsOk;
      DropRings(n);
      DropIds(n, Drop(n));
      DropLongs(n, Drop(n));
    }

    lemma DropIds(n: Node<Opt<V>>, d: Registry<V>)
      requires IdsOk() && Lists(n) && d.ids == ids - {n.item.id}
      requires forall m :: m in d.optional + d.required <==> m in optional + required && m != n
      ensures d.IdsOk()
    {
    }

    lemma DropLongs(n: Node<Opt<V>>, d: Registry<V>)
      requires LongsOk() && Lists(n)
      requires d.longs == if n.item.longName.Some? then longs - {n.item.longName.value} else longs
      requires forall m :: m in d.optional + d.required <==> m in optional + required && m != n
      ensures d.LongsOk()
    {
    }
  }

  // -------- Undoing --------

  /** A registry after `nodes` were added one by one. */
  ghost function AddAll<V>(r: Registry<V>, nodes: Nodes<V>): Registry<V> {
    if nodes == [] then r else AddAll(r, nodes[..|nodes| - 1]).Add(nodes[|nodes| - 1])
  }

  /** Each node was accepted when its turn came. */
  ghost predicate AllAccepted<V>(r: Registry<V>, nodes: Nodes<V>) {
    nodes != [] ==>
      AllAccepted(r, nodes[..|nodes| - 1]) && AddAll(r, nodes[..|nodes| - 1]).Accepts(nodes[|nodes| - 1])
  }

  lemma DropUndoesAdd<V>(r: Registry<V>, n: Node<Opt<V>>)
    requires r.Consistent() && r.Accepts(n)
    ensures r.Add(n).Drop(n) == r
  {
    hide Without;
    WithoutAppend(r.optional, n, n);
    WithoutAppend(r.required, n, n);
    assert r.ids[n.item.id := n] - {n.item.id} == r.ids;
    if n.item.longName.Some? {
      assert r.longs[n.item.longName.value := n] - {n.item.longName.value} == r.longs;
    }
  }

  lemma DropBeforeAdd<V>(r: Registry<V>, first: Node<Opt<V>>, last: Node<Opt<V>>)
    requires r.Consistent() && r.Lists(first) && r.Accepts(last)
    ensures r.Add(last).Drop(first) == r.Drop(first).Add(last)
    ensures r.Drop(first).Accepts(last)
  {
    hide Without;
    WithoutAppend(r.optional, first, last);
    WithoutAppend(r.required, first, last);
    assert first.item.id != last.item.id;
    assert r.ids[last.item.id := last] - {first.item.id} == (r.ids - {first.item.id})[last.item.id := last];
    if first.item.longName.Some? && last.item.longName.Some? {
      assert first.item.longName.value != last.item.longName.value;
      assert r.longs[last.item.longName.value := last] - {first.item.longName.value}
          == (r.longs - {first.item.longName.value})[last.item.longName.value := last];
    }
  }

  /** Dropping the first of the added nodes leaves what adding only the others gives. */
  lemma {:induction false} DropFirst<V>(r: Registry<V>, nodes: Nodes<V>)
    requires r.Consistent() && AllAccepted(r, nodes) && nodes != []
    ensures AddAll(r, nodes).Consistent() && AddAll(r, nodes).Lists(nodes[0])
    ensures AddAll(r, nodes).Drop(nodes[0]) == AddAll(r, nodes[1..]) && AllAccepted(r, nodes[1..])
  {
    hide Registry.Consistent, Registry.Add, Registry.Drop, Registry.Accepts, Without;
    var front, last := nodes[..|nodes| - 1], nodes[|nodes| - 1];
    if front == [] {
      assert AddAll(r, nodes) == r.Add(last);
      r.AddConsistent(last);
      r.AddLists(last);
      DropUndoesAdd(r, last);
      assert nodes[1..] == [];
    } else {
      DropFirst(r, front);
      var x := AddAll(r, front);
      x.AddConsistent(last);
      x.AddLists(last);
      assert front[0] == nodes[0];
      DropBeforeAdd(x, nodes[0], last);
      assert nodes[1..][..|nodes| - 2] == front[1..] && nodes[1..][|nodes| - 2] == last;
    }
  }

  // -------- Short names --------

  /** A slot index of the short-name array. */
  ghost predicate Slot(c: char) { c as int < UCHAR_MAX }

  /** Every listed node with a short name is in its slot. Any other slot is empty, or it is one of `stale`,
      the short names of removed options: it still holds the pointer to the removed node. */
  ghost predicate ShortsOk<V>(r: Registry<V>, shorts: Shorts<V>, stale: set<char>) {
    && |shorts| == UCHAR_MAX
    && shorts[NO_SHORT_NAME as int] == null
    && (forall n :: n in r.optional + r.required && n.item.shortName != NO_SHORT_NAME ==>
          Slot(n.item.shortName) && shorts[n.item.shortName as int] == n)
    && (forall c {:trigger Slot(c)} :: Slot(c) && c !in stale && shorts[c as int] != null ==>
          shorts[c as int] in r.optional + r.required && (shorts[c as int] as Node<Opt<V>>).item.shortName == c)
    && (forall c :: c in stale ==>
          Slot(c) && c != NO_SHORT_NAME && shorts[c as int] != null && shorts[c as int] !in r.optional + r.required)
  }

  lemma AddShorts<V>(r: Registry<V>, shorts: Shorts<V>, stale: set<char>, n: Node<Opt<V>>)
    requires ShortsOk(r, shorts, stale) && Slot(n.item.shortName)
    requires n.item.shortName != NO_SHORT_NAME ==> shorts[n.item.shortName as int] == null
    requires n !in shorts
    ensures var c := n.item.shortName;
      ShortsOk(r.Add(n), if c == NO_SHORT_NAME then shorts else shorts[c as int := n], stale)
  {
    var d := r.Add(n);
    assert forall m :: m in d.optional + d.required <==> m in r.optional + r.required || m == n;
  }

  /** Removing an option leaves its slot alone, so its short name becomes stale. */
  lemma DropShorts<V>(r: Registry<V>, shorts: Shorts<V>, stale: set<char>, n: Node<Opt<V>>, d: Registry<V>)
    requires ShortsOk(r, shorts, stale) && n in r.optional + r.required
    requires forall m :: m in d.optional + d.required <==> m in r.optional + r.required && m != n
    ensures var c := n.item.shortName;
      ShortsOk(d, shorts, if c == NO_SHORT_NAME then stale else stale + {c})
  {
    var c := n.item.shortName;
    var stale' := if c == NO_SHORT_NAME then stale else stale + {c};
    forall b | Slot(b) && b !in stale' && shorts[b as int] != null
      ensures shorts[b as int] in d.optional + d.required && (shorts[b as int] as Node<Opt<V>>).item.shortName == b
    {
      var m: Node<Opt<V>> := shorts[b as int];
      assert m in r.optional + r.required && m.item.shortName == b;
    }
  }
}
