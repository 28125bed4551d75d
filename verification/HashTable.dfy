/** The chained hash table of cli_hash.c over the rings of listc.h, as it is used with hashed strings as
    keys: a finite map from strings to data. */
module HashTable {
  import opened Common
  import opened Ring
  import opened CliHash

  /** `struct cli_hash_str` */
  datatype Key = Key(str: string, hash: nat)

  datatype Entry<+V> = Entry(key: Key, data: V)

  predicate Hashed(k: Key) { k.hash == Hash(k.str) }

  /** `cli_hash_str_cmp` returns 0 */
  predicate Same(l: Key, r: Key) { l.hash == r.hash && l.str == r.str }

  // -------- The table as a value --------

  ghost predicate EntryOk<V>(buckets: seq<seq<Entry<V>>>, m: map<string, V>, b: nat, i: nat)
    requires b < |buckets| && i < |buckets[b]|
  {
    var e := buckets[b][i];
    && Hashed(e.key) && e.key.hash % |buckets| == b
    && e.key.str in m && m[e.key.str] == e.data
  }

  ghost predicate Holds<V>(bucket: seq<Entry<V>>, s: string) {
    exists i :: 0 <= i < |bucket| && bucket[i].key.str == s
  }

  ghost predicate DistinctKeys<V>(bucket: seq<Entry<V>>) {
    forall i, j :: 0 <= i < j < |bucket| ==> bucket[i].key.str != bucket[j].key.str
  }

  /** The buckets hold exactly the pairs of the map, each key once and in the bucket of its hash. */
  ghost predicate Represents<V>(buckets: seq<seq<Entry<V>>>, m: map<string, V>) {
    && |buckets| > 0
    && (forall b, i {:trigger EntryOk(buckets, m, b, i)} :: 0 <= b < |buckets| && 0 <= i < |buckets[b]| ==>
          EntryOk(buckets, m, b, i))
    && (forall b {:trigger DistinctKeys(buckets[b])} :: 0 <= b < |buckets| ==> DistinctKeys(buckets[b]))
    && (forall s {:trigger Holds(buckets[Hash(s) % |buckets|], s)} :: s in m ==> Holds(buckets[Hash(s) % |buckets|], s))
  }

  /** Where a key is looked for decides whether it is in the map. */
  lemma LookupAgrees<V>(buckets: seq<seq<Entry<V>>>, m: map<string, V>, key: Key)
    requires Represents(buckets, m) && Hashed(key)
    ensures |buckets| > 0
    ensures var bucket := buckets[key.hash % |buckets|];
      && (key.str in m <==> exists i :: 0 <= i < |bucket| && Same(bucket[i].key, key))
      && (forall i :: 0 <= i < |bucket| && Same(bucket[i].key, key) ==> m[key.str] == bucket[i].data)
  {
    var b := key.hash % |buckets|;
    forall i | 0 <= i < |buckets[b]| && Same(buckets[b][i].key, key)
      ensures key.str in m && m[key.str] == buckets[b][i].data
    {
      assert EntryOk(buckets, m, b, i);
    }
    if key.str in m {
      assert Holds(buckets[Hash(key.str) % |buckets|], key.str);
      var i :| 0 <= i < |buckets[b]| && buckets[b][i].key.str == key.str;
      assert EntryOk(buckets, m, b, i);
      assert Same(buckets[b][i].key, key);
    }
  }

  lemma InsertRepresents<V>(buckets: seq<seq<Entry<V>>>, m: map<string, V>, key: Key, data: V)
    requires Represents(buckets, m) && Hashed(key) && key.str !in m
    ensures var b := key.hash % |buckets|;
      Represents(buckets[b := buckets[b] + [Entry(key, data)]], m[key.str := data])
  {
    var b := key.hash % |buckets|;
    var t, m' := buckets[b := buckets[b] + [Entry(key, data)]], m[key.str := data];
    forall c, i | 0 <= c < |t| && 0 <= i < |t[c]|
      ensures EntryOk(t, m', c, i)
    {
      if i < |buckets[c]| { assert EntryOk(buckets, m, c, i); }
    }
    forall c | 0 <= c < |t|
      ensures DistinctKeys(t[c])
    {
      assert DistinctKeys(buckets[c]);
      forall i | 0 <= i < |buckets[b]|
        ensures buckets[b][i].key.str != key.str
      {
        assert EntryOk(buckets, m, b, i);
      }
    }
    forall s | s in m'
      ensures Holds(t[Hash(s) % |t|], s)
    {
      var c := Hash(s) % |t|;
      if s == key.str {
        assert t[b][|buckets[b]|].key.str == s;
      } else {
        assert Holds(buckets[c], s);
        var i :| 0 <= i < |buckets[c]| && buckets[c][i].key.str == s;
        assert t[c][i].key.str == s;
      }
    }
  }

  lemma RemoveRepresents<V>(buckets: seq<seq<Entry<V>>>, m: map<string, V>, b: nat, k: nat)
    requires Represents(buckets, m) && b < |buckets| && k < |buckets[b]|
    ensures Represents(buckets[b := buckets[b][..k] + buckets[b][k + 1..]], m - {buckets[b][k].key.str})
  {
    var gone := buckets[b][k].key.str;
    var t, m' := buckets[b := buckets[b][..k] + buckets[b][k + 1..]], m - {gone};
    assert EntryOk(buckets, m, b, k);
    forall c, i | 0 <= c < |t| && 0 <= i < |t[c]|
      ensures EntryOk(t, m', c, i)
    {
      var j := if c == b && i >= k then i + 1 else i;
      assert EntryOk(buckets, m, c, j);
      assert DistinctKeys(buckets[c]);
    }
    forall c | 0 <= c < |t|
      ensures DistinctKeys(t[c])
    {
      assert DistinctKeys(buckets[c]);
    }
    forall s | s in m'
      ensures Holds(t[Hash(s) % |t|], s)
    {
      var c := Hash(s) % |t|;
      assert Holds(buckets[c], s);
      var i :| 0 <= i < |buckets[c]| && buckets[c][i].key.str == s;
      assert t[c][if c == b && i > k then i - 1 else i].key.str == s;
    }
  }

  // -------- The table on the heap --------

  class Table<V> {
    const opts: seq<Ring<Entry<V>>>               // the array of head pointers
    ghost const slots: set<Ring<Entry<V>>>        // the same as a set

    ghost var buckets: seq<seq<Entry<V>>>
    ghost var contents: map<string, V>
    ghost var owner: map<Node<Entry<V>>, nat>   // the bucket of every node, which keeps the rings apart

    ghost predicate BucketAt(b: nat)
      requires b < |opts| == |buckets|
      reads this`buckets, this`owner, opts[b], owner.Keys
    {
      && (forall n :: n in opts[b].repr ==> n in owner && owner[n] == b)
      && opts[b].Valid()
      && buckets[b] == ItemsOf(opts[b].nodes)
    }

    ghost predicate Shape()
      reads this`buckets, this`owner, slots, owner.Keys
    {
      && |opts| == |buckets|
      && Distinct(opts)
      && (forall b :: 0 <= b < |opts| ==> opts[b] in slots)
      && forall b {:trigger BucketAt(b)} :: 0 <= b < |opts| ==> BucketAt(b)
    }

    ghost predicate Valid()
      reads this, slots, owner.Keys
    {
      Shape() && Represents(buckets, contents)
    }

    /** `cli_hash_table_create` */
    constructor (size: nat)
      requires size > 0
      ensures Valid() && contents == map[] && owner == map[] && |opts| == size
      ensures fresh(slots)
    {
      var rings: seq<Ring<Entry<V>>> := [];
      for i := 0 to size
        invariant |rings| == i && fresh(rings) && Distinct(rings)
        invariant forall b :: 0 <= b < i ==> rings[b].Valid() && rings[b].nodes == [] && rings[b].repr == {}
      {
        var slot := new Ring<Entry<V>>();
        rings := rings + [slot];
      }
      opts := rings;
      slots := set r | r in rings;
      buckets := seq(size, _ => []);
      contents, owner := map[], map[];
    }

    /** The search loop of `cli_hash_table_insert`, `_get` and `_remove`. */
    method Search(b: nat, key: Key) returns (found: Node?<Entry<V>>, ghost k: nat)
      requires Shape() && b < |opts|
      ensures found == null ==> forall i :: 0 <= i < |buckets[b]| ==> !Same(buckets[b][i].key, key)
      ensures found != null ==> k < |opts[b].nodes| && found == opts[b].nodes[k] && Same(found.item.key, key)
    {
      assert BucketAt(b);
      var nodes := opts[b];
      k := 0;
      if nodes.head == null { return null, 0; }
      var iter: Node<Entry<V>> := nodes.head;
      while true
        invariant 0 <= k < |nodes.nodes| && iter == nodes.nodes[k]
        invariant forall i :: 0 <= i < k ==> !Same(buckets[b][i].key, key)
        decreases |nodes.nodes| - k
      {
        if Same(iter.item.key, key) { return iter, k; }
        iter := nodes.Next(iter, k);
        if iter == nodes.head {
          RingWrapsLast(nodes, k);
          return null, 0;
        }
        k := k + 1;
      }
    }

    /** Puts a new node at the end of a bucket. */
    method AddNode(b: nat, node: Node<Entry<V>>)
      requires Shape() && b < |opts| && node !in owner
      requires node.next == node && node.prev == node && node.live
      modifies this`buckets, this`owner, opts[b], owner.Keys, node`prev, node`next
      ensures Shape() && owner == old(owner)[node := b]
      ensures buckets == old(buckets)[b := old(buckets)[b] + [node.item]]
    {
      hide Ring.Valid, Hash;
      assert BucketAt(b);
      opts[b].AddItemBack(node);
      owner := owner[node := b];
      buckets := buckets[b := buckets[b] + [node.item]];
      forall c | 0 <= c < |opts|
        ensures BucketAt(c)
      {
        assert old(BucketAt(c));
      }
    }

    /** Takes the k-th node out of a bucket. */
    method TakeNode(b: nat, node: Node<Entry<V>>, ghost k: nat)
      requires Shape() && b < |opts| && k < |opts[b].nodes| && node == opts[b].nodes[k]
      modifies this`buckets, this`owner, opts[b], owner.Keys
      ensures Shape() && owner == old(owner) - {node}
      ensures k < |old(buckets)[b]| && buckets == old(buckets)[b := old(buckets)[b][..k] + old(buckets)[b][k + 1..]]
      ensures node.live
    {
      hide Ring.Valid, Hash;
      assert BucketAt(b);
      opts[b].NodeInRepr(k);
      opts[b].RemoveItem(node, k);
      owner := owner - {node};
      buckets := buckets[b := buckets[b][..k] + buckets[b][k + 1..]];
      forall c | 0 <= c < |opts|
        ensures BucketAt(c)
      {
        assert old(BucketAt(c));
      }
    }

    /** `cli_hash_table_insert`. A null `data`, a failed allocation or a present key leave the map alone. */
    method Insert(data: Option<V>, key: Key, granted: bool) returns (ok: bool)
      requires Valid() && Hashed(key)
      modifies this, slots, owner.Keys
      ensures Valid() && fresh(owner.Keys - old(owner.Keys))
      ensures ok <==> data.Some? && granted && key.str !in old(contents)
      ensures contents == if ok then old(contents)[key.str := data.value] else old(contents)
    {
      hide Represents, Hash;
      if data.None? { return false; }
      if !granted { return false; }
      var node := new Node(Entry(key, data.value));
      LookupAgrees(buckets, contents, key);
      var b := key.hash % |opts|;
      var found, k := Search(b, key);
      if found != null {
        assert BucketAt(b);
        assert Same(buckets[b][k].key, key);
        return false;
      }
      AddNode(b, node);
      InsertRepresents(old(buckets), contents, key, data.value);
      contents := contents[key.str := data.value];
      ok := true;
    }

    /** `cli_hash_table_get` */
    method Get(key: Key) returns (out: Option<V>)
      requires Valid() && Hashed(key)
      ensures out == if key.str in contents then Some(contents[key.str]) else None
    {
      hide Represents, Hash;
      LookupAgrees(buckets, contents, key);
      var b := key.hash % |opts|;
      var found, k := Search(b, key);
      assert BucketAt(b);
      if found == null { return None; }
      assert Same(buckets[b][k].key, key);
      opts[b].NodeInRepr(k);
      out := Some(found.item.data);
    }

    /** `cli_hash_table_remove` */
    method Remove(key: Key) returns (out: Option<V>)
      requires Valid() && Hashed(key)
      modifies this, slots, owner.Keys
      ensures Valid() && owner.Keys <= old(owner.Keys)
      ensures out == if key.str in old(contents) then Some(old(contents)[key.str]) else None
      ensures contents == old(contents) - {key.str}
    {
      hide Represents, Hash, Distinct, Ring.Valid;
      LookupAgrees(buckets, contents, key);
      var b := key.hash % |opts|;
      var found, k := Search(b, key);
      assert BucketAt(b);
      if found == null { return None; }
      assert Same(buckets[b][k].key, key);
      opts[b].NodeInRepr(k);
      out := Some(found.item.data);
      RemoveRepresents(buckets, contents, b, k);
      TakeNode(b, found, k);
      contents := contents - {key.str};
      found.Free();
    }

    /** `cli_hash_table_destroy`: every node is freed once. */
    method Destroy()
      requires Valid()
      modifies owner.Keys
      ensures forall b, n :: 0 <= b < |opts| && n in opts[b].nodes ==> !n.live
    {
      for b := 0 to |opts|
        invariant forall c {:trigger BucketAt(c)} :: b <= c < |opts| ==> BucketAt(c)
        invariant forall c, n :: 0 <= c < b && n in opts[c].nodes ==> !n.live && n in owner && owner[n] == c
      {
        assert BucketAt(b);
        CoversHead(opts[b].repr, opts[b].nodes);
        label BEFORE:
        var _ := opts[b].FreeAll();
        forall c | b < c < |opts|
          ensures BucketAt(c)
        {
          assert old@BEFORE(BucketAt(c));
        }
      }
    }
  }

  /** Coming back to the head means that the last node was left. */
  lemma RingWrapsLast<T>(r: Ring<T>, k: nat)
    requires r.Valid() && k < |r.nodes| && r.nodes[Succ(k, |r.nodes|)] == r.nodes[0]
    ensures k + 1 == |r.nodes|
  {
    NodesDiffer(r.nodes, r.Nexts(), r.Prevs(), 0);
  }
}
