/** The null-terminated list of list.h. An intrusive link is a node that knows the structure it is
    embedded in. The operations act on the sequence of structures as the byte stream uses it. */
module LinkedList {
  import opened Ring

  class Link<T> {
    const item: T
    var prev: Link?<T>
    var next: Link?<T>
    ghost var live: bool   // not freed

    /** `list_init` */
    constructor (item: T)
      ensures this.item == item && prev == null && next == null && live
    {
      this.item, prev, next, live := item, null, null, true;
    }

    /** `list_get_next`, which must not touch a freed node. */
    method GetNext() returns (n: Link?<T>)
      requires live
      ensures n == next
    {
      n := next;
    }

    /** `list_add_tail_list`, with its assertion as the demand on the caller. */
    method AddTail(n: Link<T>)
      requires next == null && n != this
      modifies this`next, n`prev
      ensures next == n && n.prev == this
    {
      n.prev := this;
      next := n;
    }

    /** `list_unlink_list` of a link between two others. */
    method Unlink()
      requires prev != null && next != null && prev != this && next != this && prev != next
      modifies this`prev, this`next, prev`next, next`prev
      ensures prev == null && next == null
      ensures old(prev).next == old(next) && old(next).prev == old(prev)
    {
      if prev != null { prev.next := next; }
      if next != null { next.prev := prev; }
      prev := null;
      next := null;
    }

    method Free()
      requires live
      modifies this`live
      ensures !live
    {
      live := false;
    }
  }

  // -------- Lists as values --------

  ghost predicate LineAt<T>(s: seq<Link<T>>, next: map<Link<T>, Link?<T>>, prev: map<Link<T>, Link?<T>>, i: nat)
    requires i < |s|
  {
    && s[i] in next && next[s[i]] == (if i + 1 < |s| then s[i + 1] else null)
    && s[i] in prev && (i > 0 ==> prev[s[i]] == s[i - 1])
  }

  /** `next` leads from the first link to the last, whose `next` is null, and `prev` back; but nothing is
      known about the `prev` of the first: removing a head does not repair it. */
  ghost predicate Line<T>(s: seq<Link<T>>, next: map<Link<T>, Link?<T>>, prev: map<Link<T>, Link?<T>>) {
    Distinct(s) && forall i {:trigger LineAt(s, next, prev, i)} :: 0 <= i < |s| ==> LineAt(s, next, prev, i)
  }

  lemma LineNeighbours<T>(s: seq<Link<T>>, next: map<Link<T>, Link?<T>>, prev: map<Link<T>, Link?<T>>, i: nat)
    requires Line(s, next, prev) && i < |s|
    ensures LineAt(s, next, prev, i)
    ensures i > 0 ==> LineAt(s, next, prev, i - 1)
    ensures forall j :: 0 <= j < |s| && j != i ==> s[j] != s[i]
  {
  }

  /** Appending to a non-empty list. */
  lemma LineAppend<T>(s: seq<Link<T>>, next: map<Link<T>, Link?<T>>, prev: map<Link<T>, Link?<T>>, n: Link<T>)
    requires Line(s, next, prev) && s != [] && n !in s
    ensures Line(s + [n], next[s[|s| - 1] := n][n := null], prev[n := s[|s| - 1]])
  {
    var t, next', prev' := s + [n], next[s[|s| - 1] := n][n := null], prev[n := s[|s| - 1]];
    forall i | 0 <= i < |t|
      ensures LineAt(t, next', prev', i)
    {
      if i < |s| { assert LineAt(s, next, prev, i); }
    }
  }

  lemma LineSingle<T>(n: Link<T>, next: map<Link<T>, Link?<T>>, prev: map<Link<T>, Link?<T>>)
    requires n in next && next[n] == null && n in prev
    ensures Line([n], next, prev)
  {
    assert LineAt([n], next, prev, 0);
  }

  /** Dropping the head needs no write at all. */
  lemma LineDropHead<T>(s: seq<Link<T>>, next: map<Link<T>, Link?<T>>, prev: map<Link<T>, Link?<T>>)
    requires Line(s, next, prev) && s != []
    ensures Distinct(s)
    ensures Line(s[1..], next - {s[0]}, prev - {s[0]})
  {
    var t := s[1..];
    forall i | 0 <= i < |t|
      ensures LineAt(t, next - {s[0]}, prev - {s[0]}, i)
    {
      assert LineAt(s, next, prev, i + 1);
    }
  }

  /** The two writes of `list_unlink_list` around a link in the middle. */
  lemma LineUnlink<T>(s: seq<Link<T>>, next: map<Link<T>, Link?<T>>, prev: map<Link<T>, Link?<T>>, k: nat)
    requires Line(s, next, prev) && 0 < k < |s| - 1
    ensures Distinct(s)
    ensures Line(s[..k] + s[k + 1..], next[s[k - 1] := s[k + 1]] - {s[k]}, prev[s[k + 1] := s[k - 1]] - {s[k]})
  {
    var t := s[..k] + s[k + 1..];
    var next', prev' := next[s[k - 1] := s[k + 1]] - {s[k]}, prev[s[k + 1] := s[k - 1]] - {s[k]};
    forall i | 0 <= i < |t|
      ensures LineAt(t, next', prev', i)
    {
      assert LineAt(s, next, prev, if i < k then i else i + 1);
    }
  }

  // -------- Lists on the heap --------

  /** A head and a tail pointer, kept by `list_add_item_back` and `list_remove_item`. */
  class List<T> {
    var head: Link?<T>
    var tail: Link?<T>

    ghost var links: seq<Link<T>>   // from head to tail
    ghost var repr: set<Link<T>>    // the same as a set

    ghost function Nexts(): map<Link<T>, Link?<T>>
      reads this`repr, repr
    {
      map n | n in repr :: n.next
    }

    ghost function Prevs(): map<Link<T>, Link?<T>>
      reads this`repr, repr
    {
      map n | n in repr :: n.prev
    }

    ghost predicate Valid()
      reads this, repr
    {
      && (if links == [] then head == null && tail == null
          else head == links[0] && tail == links[|links| - 1])
      && Covers(repr, links)
      && (forall n :: n in repr ==> n.live)
      && Line(links, Nexts(), Prevs())
    }

    /** `list_init_head_tail` */
    constructor ()
      ensures Valid() && links == []
    {
      head, tail := null, null;
      links, repr := [], {};
    }

    lemma TailIsLast()
      requires Valid() && links != []
      ensures tail in repr && tail == links[|links| - 1] && tail.next == null
    {
      hide Line, Covers;
      CoversHead(repr, links);
      LineNeighbours(links, Nexts(), Prevs(), |links| - 1);
    }

    /** The writes behind the tail, as changes of the two link maps. */
    method LinkAfter(n: Link<T>, last: Link<T>)
      requires last in repr && last.next == null && n !in repr && n.next == null && n.live
      requires forall m :: m in repr ==> m.live
      modifies this`repr, repr, n`prev
      ensures repr == old(repr) + {n} && forall m :: m in repr ==> m.live
      ensures Nexts() == old(Nexts())[last := n][n := null]
      ensures Prevs() == old(Prevs())[n := last]
    {
      last.AddTail(n);
      repr := repr + {n};
    }

    method AddToTail(n: Link<T>)
      requires Valid() && links != [] && n !in repr && n.next == null && n.live
      modifies this, repr, n`prev
      ensures Valid()
      ensures links == old(links) + [n] && repr == old(repr) + {n}
    {
      hide Line, Covers, Distinct, List.Nexts, List.Prevs;
      CoversMore(repr, links, n);
      CoversHead(repr, links);
      LineAppend(links, Nexts(), Prevs(), n);
      TailIsLast();
      LinkAfter(n, tail);
      tail := n;
      links := links + [n];
    }

    /** `list_add_item_back` */
    method AddItemBack(n: Link<T>)
      requires Valid() && n !in repr && n.next == null && n.live
      modifies this, repr, n`prev
      ensures Valid()
      ensures links == old(links) + [n] && repr == old(repr) + {n}
    {
      hide Line, Covers, Distinct;
      if head == null {
        CoversMore(repr, links, n);
        head := n;
        tail := n;
        links, repr := links + [n], repr + {n};
        assert links == [n];
        LineSingle(n, Nexts(), Prevs());
      } else {
        AddToTail(n);
      }
    }

    method RemoveHead(n: Link<T>)
      requires Valid() && links != [] && n == links[0]
      modifies this
      ensures Valid()
      ensures links == old(links)[1..] && repr == old(repr) - {n}
    {
      hide Line, Covers, Distinct;
      ghost var next: map<Link<T>, Link?<T>>, prev: map<Link<T>, Link?<T>> := Nexts(), Prevs();
      LineNeighbours(links, next, prev, 0);
      CoversHead(repr, links);
      LineDropHead(links, next, prev);
      CoversTail(repr, links);
      if head == tail {
        assert links[|links| - 1] == n;
        head := null;
        tail := null;
      } else {
        head := n.next;
      }
      links, repr := links[1..], repr - {n};
      assert Nexts() == next - {n};
      assert Prevs() == prev - {n};
    }

    method UnlinkMiddle(n: Link<T>, ghost k: nat)
      requires Valid() && 0 < k < |links| - 1 && n == links[k]
      modifies this`links, this`repr, repr
      ensures Valid()
      ensures links == old(links)[..k] + old(links)[k + 1..] && repr == old(repr) - {n}
      ensures n.live
    {
      hide Line, Covers, Distinct;
      ghost var next: map<Link<T>, Link?<T>>, prev: map<Link<T>, Link?<T>> := Nexts(), Prevs();
      LineNeighbours(links, next, prev, k);
      LineNeighbours(links, next, prev, k + 1);
      CoversHead(repr, links);
      LineUnlink(links, next, prev, k);
      CoversLess(repr, links, k);
      n.Unlink();
      links, repr := links[..k] + links[k + 1..], repr - {n};
      assert Nexts() == next[old(links)[k - 1] := old(links)[k + 1]] - {n};
      assert Prevs() == prev[old(links)[k + 1] := old(links)[k - 1]] - {n};
    }

    /** `list_remove_item` of the k-th link. Everywhere but at the end of a longer list it takes out just
        that link. Taking the last one of a longer list leaves the new tail's `next` at the removed
        link, so that the list is no longer null-terminated. */
    method RemoveItem(n: Link<T>, ghost k: nat)
      requires Valid() && k < |links| && n == links[k]
      modifies this, repr
      ensures k == 0 || k + 1 < |old(links)| ==>
        && Valid()
        && links == old(links)[..k] + old(links)[k + 1..] && repr == old(repr) - {n}
      ensures k > 0 && k + 1 == |old(links)| ==>
        && head == old(head) && tail == old(links)[k - 1] && tail.next == n
        && forall m :: m in old(repr) ==> m.next == old(m.next) && m.prev == old(m.prev)
    {
      hide Line, Covers, Distinct;
      LineNeighbours(links, Nexts(), Prevs(), k);
      LineNeighbours(links, Nexts(), Prevs(), 0);
      LineNeighbours(links, Nexts(), Prevs(), |links| - 1);
      CoversHead(repr, links);
      if head == n {
        assert links[..0] + links[1..] == links[1..];
        RemoveHead(n);
      } else if tail == n {
        assert Nexts()[links[k - 1]] == n;
        tail := n.prev;
      } else {
        UnlinkMiddle(n, k);
      }
    }

    /** `list_foreach_safe` freeing every node: each is visited once, in order, and none is read after it
        was freed, because the next one is fetched before. */
    method FreeAll() returns (visited: seq<Link<T>>)
      requires Valid()
      modifies this, repr
      ensures Valid() && links == []
      ensures visited == old(links)
      ensures forall n :: n in old(links) ==> !n.live
    {
      hide Line, Covers, Distinct, List.Prevs;
      visited := [];
      ghost var s := links;
      if head != null {
        ghost var next: map<Link<T>, Link?<T>>, prev: map<Link<T>, Link?<T>> := Nexts(), Prevs();
        CoversHead(repr, links);
        LineNeighbours(s, next, prev, 0);
        var iter := head;
        var safe := iter.GetNext();
        ghost var i := 0;
        while iter != null
          invariant 0 <= i <= |s| && links == s && repr == old(repr)
          invariant visited == s[..i]
          invariant iter == if i < |s| then s[i] else null
          invariant iter != null ==> safe == if i + 1 < |s| then s[i + 1] else null
          invariant Nexts() == next
          invariant forall j :: i <= j < |s| ==> s[j].live
          invariant forall j :: 0 <= j < i ==> !s[j].live
          decreases |s| - i
        {
          LineNeighbours(s, next, prev, i);
          visited := visited + [iter];
          iter.Free();
          i := i + 1;
          iter := safe;
          if iter != null {
            LineNeighbours(s, next, prev, i);
            assert next[s[i]] == s[i].next;
            safe := safe.GetNext();
          }
        }
      }
      head, tail := null, null;
      links, repr := [], {};
      EmptyLine<T>(Nexts(), Prevs());
    }
  }

  lemma EmptyLine<T>(next: map<Link<T>, Link?<T>>, prev: map<Link<T>, Link?<T>>)
    ensures Line([], next, prev) && Covers<Link<T>>({}, [])
  {
  }
}
