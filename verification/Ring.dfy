/** The intrusive ring of listc.h: circular, doubly linked, reached through a head pointer that is null
    for the empty ring. A link is a node that knows the structure it is embedded in. */
module Ring {
  import opened Common

  class Node<T> {
    const item: T
    var prev: Node<T>
    var next: Node<T>
    ghost var live: bool   // not freed

    /** `listc_init` */
    constructor (item: T)
      ensures this.item == item && prev == this && next == this && live
    {
      this.item := item;
      prev, next, live := this, this, true;
    }

    /** `listc_get_next`, which must not touch a freed node. */
    method GetNext() returns (n: Node<T>)
      requires live
      ensures n == next
    {
      n := next;
    }

    /** `listc_add_before_listc` */
    method AddBefore(n: Node<T>)
      requires n != this && prev != n
      modifies this`prev, prev`next, n`prev, n`next
      ensures n.next == this && n.prev == old(prev) && old(prev).next == n && prev == n
    {
      n.next := this;
      n.prev := prev;
      prev.next := n;
      prev := n;
    }

    /** `listc_unlink_listc` */
    method Unlink()
      requires (prev == this) == (next == this)
      modifies this`prev, this`next, prev`next, next`prev
      ensures next == this && prev == this
      ensures old(prev) != this ==> old(prev).next == old(next) && old(next).prev == old(prev)
    {
      prev.next := next;
      next.prev := prev;
      prev := this;
      next := this;
    }

    method Free()
      requires live
      modifies this`live
      ensures !live
    {
      live := false;
    }
  }

  // -------- Rings as values --------

  function Succ(i: nat, n: nat): nat { if i + 1 < n then i + 1 else 0 }

  function Pred(i: nat, n: nat): int { if i == 0 then n - 1 else i - 1 }

  ghost predicate Covers<N>(repr: set<N>, s: seq<N>) {
    (forall n :: n in repr ==> n in s) && (forall i :: 0 <= i < |s| ==> s[i] in repr)
  }

  lemma CoversHead<N>(repr: set<N>, s: seq<N>)
    requires Covers(repr, s)
    ensures forall i :: 0 <= i < |s| ==> s[i] in repr
    ensures forall n :: n !in repr ==> n !in s
    ensures s == [] ==> repr == {}
  {
  }

  lemma CoversMore<N>(repr: set<N>, s: seq<N>, n: N)
    requires Covers(repr, s)
    ensures Covers(repr + {n}, s + [n]) && Covers(repr + {n}, [n] + s)
  {
  }

  lemma CoversLess<N>(repr: set<N>, s: seq<N>, k: nat)
    requires Covers(repr, s) && Distinct(s) && k < |s|
    ensures Covers(repr - {s[k]}, s[..k] + s[k + 1..])
  {
    var t := s[..k] + s[k + 1..];
    forall n | n in repr - {s[k]}
      ensures n in t
    {
      var i :| 0 <= i < |s| && s[i] == n;
      assert n == t[if i < k then i else i - 1];
    }
    forall n | n in t
      ensures n in repr - {s[k]}
    {
      var i :| 0 <= i < |t| && t[i] == n;
      assert n == s[if i < k then i else i + 1];
    }
  }

  lemma CoversTail<N>(repr: set<N>, s: seq<N>)
    requires Covers(repr, s) && Distinct(s) && s != []
    ensures Covers(repr - {s[0]}, s[1..])
  {
    CoversLess(repr, s, 0);
    assert s[..0] + s[1..] == s[1..];
  }

  ghost predicate Distinct<T>(s: seq<T>) {
    forall i, j :: 0 <= i < j < |s| ==> s[i] != s[j]
  }

  ghost predicate LinkedAt<N>(s: seq<N>, next: map<N, N>, prev: map<N, N>, i: nat)
    requires i < |s|
  {
    && s[i] in next && next[s[i]] == s[Succ(i, |s|)]
    && s[i] in prev && prev[s[i]] == s[Pred(i, |s|)]
  }

  /** Going around from any node, `next` and `prev` follow the sequence. */
  ghost predicate Circular<N>(s: seq<N>, next: map<N, N>, prev: map<N, N>) {
    Distinct(s) && forall i {:trigger LinkedAt(s, next, prev, i)} :: 0 <= i < |s| ==> LinkedAt(s, next, prev, i)
  }

  lemma Neighbours<N>(s: seq<N>, next: map<N, N>, prev: map<N, N>, i: nat)
    requires Circular(s, next, prev) && i < |s|
    ensures s[i] in next && next[s[i]] == s[Succ(i, |s|)]
    ensures s[i] in prev && prev[s[i]] == s[Pred(i, |s|)]
  {
    assert LinkedAt(s, next, prev, i);
  }

  lemma NodesDiffer<N>(s: seq<N>, next: map<N, N>, prev: map<N, N>, i: nat)
    requires Circular(s, next, prev) && i < |s|
    ensures forall j :: 0 <= j < |s| && j != i ==> s[j] != s[i]
  {
  }

  lemma Single<N>(n: N, next: map<N, N>, prev: map<N, N>)
    requires n in next && next[n] == n && n in prev && prev[n] == n
    ensures Circular([n], next, prev)
  {
    assert LinkedAt([n], next, prev, 0);
  }

  /** The four writes of `listc_add_before_listc` put `n` between the last node and the first. */
  lemma Insert<N>(s: seq<N>, next: map<N, N>, prev: map<N, N>, n: N)
    requires Circular(s, next, prev) && s != [] && n !in s
    ensures Circular(s + [n], next[n := s[0]][s[|s| - 1] := n], prev[n := s[|s| - 1]][s[0] := n])
  {
    var next', prev', t := next[n := s[0]][s[|s| - 1] := n], prev[n := s[|s| - 1]][s[0] := n], s + [n];
    forall i | 0 <= i < |t|
      ensures LinkedAt(t, next', prev', i)
    {
      if i < |s| { assert LinkedAt(s, next, prev, i); }
    }
  }

  /** The same ring seen from its last node. */
  lemma Rotate<N>(s: seq<N>, n: N, next: map<N, N>, prev: map<N, N>)
    requires Circular(s + [n], next, prev)
    ensures Circular([n] + s, next, prev)
  {
    var t, u := s + [n], [n] + s;
    forall i | 0 <= i < |u|
      ensures LinkedAt(u, next, prev, i)
    {
      assert LinkedAt(t, next, prev, Pred(i, |u|));
    }
    forall i, j | 0 <= i < j < |u|
      ensures u[i] != u[j]
    {
      assert u[i] == t[Pred(i, |u|)] && u[j] == t[j - 1];
    }
  }

  /** The two writes of `listc_unlink_listc` around `s[k]` take it out. */
  lemma Remove<N>(s: seq<N>, next: map<N, N>, prev: map<N, N>, k: nat)
    requires Circular(s, next, prev) && k < |s|
    ensures Distinct(s)
    ensures var n, before, after := s[k], s[Pred(k, |s|)], s[Succ(k, |s|)];
      Circular(s[..k] + s[k + 1..], next[before := after] - {n}, prev[after := before] - {n})
  {
    var n, before, after := s[k], s[Pred(k, |s|)], s[Succ(k, |s|)];
    var next', prev' := next[before := after] - {n}, prev[after := before] - {n};
    var t := s[..k] + s[k + 1..];
    forall i | 0 <= i < |t|
      ensures LinkedAt(t, next', prev', i)
    {
      assert LinkedAt(s, next, prev, if i < k then i else i + 1);
    }
  }

  /** The sequence without the first occurrence of `x`. */
  function Without<T(==)>(s: seq<T>, x: T): seq<T> {
    if s == [] then [] else if s[0] == x then s[1..] else [s[0]] + Without(s[1..], x)
  }

  lemma {:induction false} WithoutAt<T>(s: seq<T>, k: nat)
    requires Distinct(s) && k < |s|
    ensures Without(s, s[k]) == s[..k] + s[k + 1..]
  {
    if k > 0 {
      assert s[1..][k - 1] == s[k];
      WithoutAt(s[1..], k - 1);
    }
  }

  lemma {:induction false} WithoutAbsent<T>(s: seq<T>, x: T)
    requires x !in s
    ensures Without(s, x) == s
  {
    if s != [] { WithoutAbsent(s[1..], x); }
  }

  lemma {:induction false} WithoutAppend<T>(s: seq<T>, x: T, y: T)
    ensures Without(s + [y], x) == if x in s then Without(s, x) + [y] else if x == y then s else s + [y]
  {
    if s == [] {
      assert s + [y] == [y];
    } else if s[0] == x {
      assert (s + [y])[1..] == s[1..] + [y];
    } else {
      assert (s + [y])[1..] == s[1..] + [y];
      WithoutAppend(s[1..], x, y);
      assert x in s <==> x in s[1..];
    }
  }

  lemma WithoutProperties<T>(s: seq<T>, x: T)
    requires Distinct(s)
    ensures Distinct(Without(s, x)) && x !in Without(s, x)
    ensures forall y :: y in s && y != x ==> y in Without(s, x)
    ensures forall y :: y in Without(s, x) ==> y in s
  {
    if x in s {
      var k :| 0 <= k < |s| && s[k] == x;
      WithoutAt(s, k);
    } else {
      WithoutAbsent(s, x);
    }
  }

  // -------- Rings on the heap --------

  /** A head pointer and the operations on it. */
  class Ring<T> {
    var head: Node?<T>

    ghost var nodes: seq<Node<T>>   // from the head once around
    ghost var repr: set<Node<T>>    // the same as a set

    ghost function Nexts(): map<Node<T>, Node<T>>
      reads this`repr, repr
    {
      map n | n in repr :: n.next
    }

    ghost function Prevs(): map<Node<T>, Node<T>>
      reads this`repr, repr
    {
      map n | n in repr :: n.prev
    }

    ghost predicate Valid()
      reads this, repr
    {
      && head == (if nodes == [] then null else nodes[0])
      && Covers(repr, nodes)
      && (forall n :: n in repr ==> n.live)
      && Circular(nodes, Nexts(), Prevs())
    }

    constructor ()
      ensures Valid() && nodes == [] && repr == {}
    {
      head := null;
      nodes, repr := [], {};
    }

    lemma NodeInRepr(k: nat)
      requires Valid() && k < |nodes|
      ensures nodes[k] in repr
    {
      CoversHead(repr, nodes);
    }

    lemma LastBeforeHead()
      requires Valid() && nodes != []
      ensures head == nodes[0] && head in repr && head.prev == nodes[|nodes| - 1] && head.prev in repr
    {
      hide Circular, Covers;
      CoversHead(repr, nodes);
      Neighbours(nodes, Nexts(), Prevs(), 0);
    }

    /** The writes of `listc_add_before_listc`, as changes of the two link maps. */
    method LinkBefore(n: Node<T>, h: Node<T>)
      requires h in repr && h.prev in repr && n !in repr && n.live && forall m :: m in repr ==> m.live
      modifies this`repr, repr, n`prev, n`next
      ensures repr == old(repr) + {n} && forall m :: m in repr ==> m.live
      ensures Nexts() == old(Nexts())[n := h][old(h.prev) := n]
      ensures Prevs() == old(Prevs())[n := old(h.prev)][h := n]
    {
      h.AddBefore(n);
      repr := repr + {n};
    }

    /** `listc_add_before_listc` with the head: the new node comes between the last one and the head. */
    method AddBefore(n: Node<T>)
      requires Valid() && nodes != [] && n !in repr && n.live
      modifies this`nodes, this`repr, repr, n`prev, n`next
      ensures nodes == old(nodes) + [n] && repr == old(repr) + {n}
      ensures (forall m :: m in repr ==> m.live) && Covers(repr, nodes)
      ensures Circular(nodes, Nexts(), Prevs())
    {
      hide Circular, Covers, Ring.Nexts, Ring.Prevs;
      LastBeforeHead();
      CoversHead(repr, nodes);
      CoversMore(repr, nodes, n);
      Insert(nodes, Nexts(), Prevs(), n);
      LinkBefore(n, head);
      nodes := nodes + [n];
    }

    /** Both ways of adding to an empty ring. */
    method AddOnly(n: Node<T>)
      requires Valid() && head == null && n !in repr && n.next == n && n.prev == n && n.live
      modifies this
      ensures Valid()
      ensures nodes == [n] && old(nodes) == [] && repr == old(repr) + {n}
    {
      hide Circular, Covers;
      CoversMore(repr, nodes, n);
      head := n;
      nodes, repr := nodes + [n], repr + {n};
      assert nodes == [n];
      Single(n, Nexts(), Prevs());
    }

    /** `listc_add_item_back` */
    method AddItemBack(n: Node<T>)
      requires Valid() && n !in repr && n.next == n && n.prev == n && n.live
      modifies this, repr, n`prev, n`next
      ensures Valid()
      ensures nodes == old(nodes) + [n] && repr == old(repr) + {n}
    {
      hide Circular, Covers;
      if head == null {
        AddOnly(n);
        assert nodes == old(nodes) + [n];
      } else {
        AddBefore(n);
      }
    }

    /** Moves the head one node back. */
    method StartAt(n: Node<T>, ghost rest: seq<Node<T>>)
      requires nodes == rest + [n] && (forall m :: m in repr ==> m.live)
      requires Covers(repr, [n] + rest) && Circular(nodes, Nexts(), Prevs())
      modifies this`head, this`nodes
      ensures Valid() && nodes == [n] + rest
    {
      hide Circular, Covers;
      Rotate(rest, n, Nexts(), Prevs());
      head := n;
      nodes := [n] + rest;
    }

    /** `listc_add_item_front` */
    method AddItemFront(n: Node<T>)
      requires Valid() && n !in repr && n.next == n && n.prev == n && n.live
      modifies this, repr, n`prev, n`next
      ensures Valid()
      ensures nodes == [n] + old(nodes) && repr == old(repr) + {n}
    {
      hide Circular, Covers;
      if head == null {
        AddOnly(n);
        assert nodes == [n] + old(nodes);
      } else {
        CoversMore(repr, nodes, n);
        AddBefore(n);
        StartAt(n, old(nodes));
      }
    }

    /** `listc_remove_item` of the k-th node. The node is left as `listc_init` makes it. */
    method RemoveItem(n: Node<T>, ghost k: nat)
      requires Valid() && k < |nodes| && n == nodes[k]
      modifies this, repr
      ensures Valid()
      ensures nodes == old(nodes)[..k] + old(nodes)[k + 1..] && repr == old(repr) - {n}
      ensures n.next == n && n.prev == n && n.live
    {
      hide Circular, Covers;
      ghost var next: map<Node<T>, Node<T>>, prev: map<Node<T>, Node<T>> := Nexts(), Prevs();
      ghost var before: Node<T>, after: Node<T> := n.prev, n.next;
      Remove(nodes, next, prev, k);
      CoversLess(repr, nodes, k);
      CoversHead(repr, nodes);
      Neighbours(nodes, next, prev, k);
      if head == null { return; }
      if head == n {
        if n.prev == n {
          head := null;
        } else {
          head := n.next;
        }
      }
      n.Unlink();
      nodes, repr := nodes[..k] + nodes[k + 1..], repr - {n};
      assert Nexts() == next[before := after] - {n};
      assert Prevs() == prev[after := before] - {n};
    }

    /** One step of LISTC_FOREACH. */
    method Next(n: Node<T>, ghost i: nat) returns (m: Node<T>)
      requires Valid() && i < |nodes| && n == nodes[i]
      ensures m == nodes[Succ(i, |nodes|)]
    {
      CoversHead(repr, nodes);
      Neighbours(nodes, Nexts(), Prevs(), i);
      m := n.GetNext();
    }

    /** LISTC_FOREACH_SAFE freeing every node: each is visited once, in order, and none is read after it
        was freed. The last comparison is with a freed node, but only of its address. */
    method FreeAll() returns (visited: seq<Node<T>>)
      requires Valid()
      modifies repr
      ensures visited == nodes
      ensures forall n :: n in nodes ==> !n.live
    {
      hide Circular, Covers;
      visited := [];
      if head == null { return; }
      ghost var nexts: map<Node<T>, Node<T>>, prevs: map<Node<T>, Node<T>> := Nexts(), Prevs();
      CoversHead(repr, nodes);
      Neighbours(nodes, nexts, prevs, 0);
      var iter: Node<T> := head;
      var following := iter.GetNext();
      ghost var i := 0;
      while true
        invariant 0 <= i < |nodes| && visited == nodes[..i]
        invariant iter == nodes[i] && following == nodes[Succ(i, |nodes|)]
        invariant Nexts() == nexts
        invariant forall j :: i <= j < |nodes| ==> nodes[j].live
        invariant forall j :: 0 <= j < i ==> !nodes[j].live
        decreases |nodes| - i
      {
        NodesDiffer(nodes, nexts, prevs, i);
        visited := visited + [iter];
        iter.Free();
        iter := following;
        if iter == head {
          assert i + 1 == |nodes|;
          return;
        }
        i := i + 1;
        Neighbours(nodes, nexts, prevs, i);
        assert nexts[iter] == iter.next;
        following := following.GetNext();
      }
    }
  }

  function ItemsOf<T>(nodes: seq<Node<T>>): seq<T> {
    seq(|nodes|, i requires 0 <= i < |nodes| => nodes[i].item)
  }

  /** A ring whose links are embedded in its members: `links` leads from a member to its link. */
  class Members<T(==)> {
    const ring: Ring<T>
    var links: map<T, Node<T>>

    ghost var items: seq<T>
    ghost var repr: set<object>

    ghost predicate Valid()
      reads this, repr
      ensures Valid() ==> this in repr && Distinct(items)
    {
      && {this, ring} <= repr && ring.repr <= repr
      && ring.Valid()
      && Distinct(items) && items == ItemsOf(ring.nodes)
      && forall i :: 0 <= i < |items| ==> items[i] in links && links[items[i]] == ring.nodes[i]
    }

    constructor ()
      ensures Valid() && items == [] && fresh(repr)
    {
      ring := new Ring();
      links, items := map[], [];
      new;
      repr := {this, ring};
    }

    /** `listc_add_item_back` of the link embedded in `x`. */
    method Add(x: T)
      requires Valid() && x !in items
      modifies repr
      ensures Valid() && items == old(items) + [x] && fresh(repr - old(repr))
    {
      hide Circular, Covers, Ring.Valid;
      var node := new Node(x);
      ring.AddItemBack(node);
      links := links[x := node];
      items := items + [x];
      repr := repr + {node};
    }

    /** `listc_remove_item` of the link embedded in `x`. */
    method Remove(x: T)
      requires Valid() && x in items
      modifies repr
      ensures Valid() && items == Without(old(items), x) && repr == old(repr)
    {
      hide Circular, Covers, Ring.Valid, Without;
      ghost var k :| 0 <= k < |items| && items[k] == x;
      WithoutAt(items, k);
      WithoutProperties(items, x);
      ring.RemoveItem(links[x], k);
      items := Without(items, x);
    }

    /** The member the head pointer leads to, if there is one. */
    method First() returns (x: Option<T>)
      requires Valid()
      ensures x == if items == [] then None else Some(items[0])
    {
      x := if ring.head == null then None else Some(ring.head.item);
    }
  }
}
