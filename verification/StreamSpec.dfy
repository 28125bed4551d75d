/** What the operations of bstream.c do to the stored bytes, as functions on values: `parts` is what each
    segment stores, from head to tail, and `room` what still fits behind the last stored byte. */
module StreamSpec {
  import opened Common

  const COPIED_SIZE: nat := 256

  function Flatten(parts: seq<seq<char>>): seq<char> {
    if parts == [] then [] else parts[0] + Flatten(parts[1..])
  }

  lemma {:induction false} FlattenAppend(parts: seq<seq<char>>, last: seq<char>)
    ensures Flatten(parts + [last]) == Flatten(parts) + last
  {
    if parts == [] {
      assert parts + [last] == [last];
    } else {
      assert (parts + [last])[1..] == parts[1..] + [last];
      FlattenAppend(parts[1..], last);
    }
  }

  /** Unsigned 64-bit wrap-around. */
  function Wrap(n: int): nat { n % (SIZE_MAX + 1) }

  lemma WrapAdd(x: int, n: nat)
    requires Wrap(x) + n <= SIZE_MAX
    ensures Wrap(x + n) == Wrap(x) + n
  {
  }

  lemma WrapSubtract(x: int, n: nat)
    ensures Wrap(Wrap(x) - n) == Wrap(x - n)
  {
  }

  lemma {:induction false} FlattenGrowLast(parts: seq<seq<char>>, more: seq<char>)
    requires parts != []
    ensures Flatten(GrowLast(parts, more)) == Flatten(parts) + more
  {
    var front, last := parts[..|parts| - 1], parts[|parts| - 1];
    assert parts == front + [last];
    assert GrowLast(parts, more) == front + [last + more];
    FlattenAppend(front, last);
    FlattenAppend(front, last + more);
  }

  function GrowLast(parts: seq<seq<char>>, more: seq<char>): seq<seq<char>>
    requires parts != []
  {
    parts[|parts| - 1 := parts[|parts| - 1] + more]
  }

  lemma GrowNew(parts: seq<seq<char>>, text: seq<char>)
    ensures GrowLast(parts + [[]], text) == parts + [text]
  {
    assert [] + text == text;
  }

  /** The last part grown, if there is one. */
  function Filled(parts: seq<seq<char>>, more: seq<char>): seq<seq<char>> {
    if parts == [] then [] else GrowLast(parts, more)
  }

  lemma {:induction false} FilledStores(parts: seq<seq<char>>, more: seq<char>)
    requires parts == [] ==> more == []
    ensures Flatten(Filled(parts, more)) == Flatten(parts) + more
  {
    if parts != [] { FlattenGrowLast(parts, more); }
  }

  lemma {:induction false} FlattenConcat(a: seq<seq<char>>, b: seq<seq<char>>)
    ensures Flatten(a + b) == Flatten(a) + Flatten(b)
  {
    if a == [] {
      assert a + b == b;
    } else {
      assert (a + b)[1..] == a[1..] + b;
      FlattenConcat(a[1..], b);
    }
  }

  // -------- The books --------

  /** First in, first out over a whole history, and the length field modulo 2^64: it misses exactly the
      uncounted bytes, and is the stored length when there are none. */
  ghost predicate Balanced(pushed: seq<char>, popped: seq<char>, contents: seq<char>, totalLen: nat, uncounted: nat) {
    && pushed == popped + contents
    && totalLen == Wrap(|contents| - uncounted)
    && (uncounted == 0 ==> totalLen == |contents|)
  }

  /** The books after `more` was stored, of which the length field saw `counted` or nothing. */
  lemma BalancedPush(pushed: seq<char>, popped: seq<char>, contents: seq<char>, totalLen: nat, uncounted: nat,
                     more: seq<char>, counted: bool)
    requires Balanced(pushed, popped, contents, totalLen, uncounted)
    requires totalLen + |more| <= SIZE_MAX
    ensures Balanced(pushed + more, popped, contents + more, totalLen + if counted then |more| else 0,
                     uncounted + if counted then 0 else |more|)
  {
    assert popped + contents + more == popped + (contents + more);
    WrapAdd(|contents| - uncounted, |more|);
  }

  /** The books after the first `k` stored bytes were delivered. */
  lemma BalancedPop(pushed: seq<char>, popped: seq<char>, contents: seq<char>, totalLen: nat, uncounted: nat, k: nat)
    requires Balanced(pushed, popped, contents, totalLen, uncounted)
    requires k <= |contents|
    ensures Balanced(pushed, popped + contents[..k], contents[k..], Wrap(totalLen - k), uncounted)
  {
    assert popped + contents == popped + contents[..k] + contents[k..];
    WrapSubtract(|contents| - uncounted, k);
  }

  // -------- Copied writes --------

  /** The counts of a callback that always moves up to `n` bytes. */
  function Always(n: nat): nat -> nat { _ => n }

  /** One call of a reader that has `data` left and is willing to move `quota` bytes. */
  function Moved(quota: nat, asked: nat, data: seq<char>): (k: nat)
    ensures k <= asked && k <= |data|
  {
    Min(quota, Min(asked, |data|))
  }

  /** `left`: what the reader still has. `short`: some call of the reader moved less than it was asked
      for. `refused`: memory ran out. */
  datatype WriteResult = WriteResult(
    parts: seq<seq<char>>, written: nat, left: seq<char>, calls: nat, grants: nat, short: bool, refused: bool)

  /** The loop of `bstream_write`: new segments of 256 bytes until one stays unfilled or all is stored.
      `quota(i)` is what the reader's i-th call would move, `memory(i)` whether the i-th segment can
      be had. */
  function AppendRun(data: seq<char>, remain: nat, quota: nat -> nat, calls: nat, memory: nat -> bool,
      grants: nat): WriteResult
    decreases remain
  {
    if !memory(grants) then WriteResult([], 0, data, calls, grants + 1, false, true)
    else
      var k := Moved(quota(calls), Min(remain, COPIED_SIZE), data);
      if k < COPIED_SIZE || k == remain then
        WriteResult([data[..k]], k, data[k..], calls + 1, grants + 1, k < Min(remain, COPIED_SIZE), false)
      else
        var r := AppendRun(data[k..], remain - k, quota, calls + 1, memory, grants + 1);
        r.(parts := [data[..k]] + r.parts, written := k + r.written)
  }

  /** First in: exactly the bytes taken from the reader are stored, in order. It takes fewer than
      asked only because the reader fell short or memory ran out. */
  lemma {:induction false} AppendRunStores(data: seq<char>, remain: nat, quota: nat -> nat, calls: nat,
      memory: nat -> bool, grants: nat)
    ensures var r := AppendRun(data, remain, quota, calls, memory, grants);
      && r.written <= remain && r.written <= |data|
      && Flatten(r.parts) == data[..r.written]
      && r.left == data[r.written..]
      && (r.written < remain <==> r.short || (r.refused && remain > 0))
    decreases remain
  {
    if memory(grants) {
      var k := Moved(quota(calls), Min(remain, COPIED_SIZE), data);
      if !(k < COPIED_SIZE || k == remain) {
        AppendRunStores(data[k..], remain - k, quota, calls + 1, memory, grants + 1);
        var r := AppendRun(data[k..], remain - k, quota, calls + 1, memory, grants + 1);
        Rejoin([], data, k, r.written);
      }
    }
  }

  /** The condition of the early return in `bstream_write`, after which the bytes just taken are missing
      from the length: the last segment has room, and either all of `len` fits there or the reader
      fell short. */
  predicate LeavesUncounted(room: nat, len: nat, written: nat) {
    room > 0 && (len <= room || written < room)
  }

  /** `bstream_write` once the overflow test has passed. */
  function WriteRun(parts: seq<seq<char>>, room: nat, data: seq<char>, len: nat,
                    quota: nat -> nat, calls: nat, memory: nat -> bool, grants: nat): WriteResult
    requires parts == [] ==> room == 0
  {
    var k := if room == 0 then 0 else Moved(quota(calls), Min(len, room), data);
    var calls' := if room == 0 then calls else calls + 1;
    if parts != [] && (k < room || k == len) then
      WriteResult(Filled(parts, data[..k]), k, data[k..], calls', grants, k < Min(len, room), false)
    else
      var r := AppendRun(data[k..], len - k, quota, calls', memory, grants);
      r.(parts := Filled(parts, data[..k]) + r.parts, written := k + r.written)
  }

  lemma {:induction false} WriteRunStores(parts: seq<seq<char>>, room: nat, data: seq<char>, len: nat,
                                          quota: nat -> nat, calls: nat, memory: nat -> bool, grants: nat)
    requires parts == [] ==> room == 0
    ensures var r := WriteRun(parts, room, data, len, quota, calls, memory, grants);
      && r.written <= len && r.written <= |data|
      && Flatten(r.parts) == Flatten(parts) + data[..r.written]
      && r.left == data[r.written..]
  {
    hide AppendRun, Flatten;
    var k := if room == 0 then 0 else Moved(quota(calls), Min(len, room), data);
    if parts != [] && (k < room || k == len) {
      FilledStores(parts, data[..k]);
    } else {
      var calls' := if room == 0 then calls else calls + 1;
      AppendRunStores(data[k..], len - k, quota, calls', memory, grants);
      StoreTwice(parts, data, k, AppendRun(data[k..], len - k, quota, calls', memory, grants));
    }
  }

  lemma StoreTwice(parts: seq<seq<char>>, data: seq<char>, k: nat, r: WriteResult)
    requires k + r.written <= |data| && (parts == [] ==> k == 0)
    requires Flatten(r.parts) == data[k..][..r.written] && r.left == data[k..][r.written..]
    ensures Flatten(Filled(parts, data[..k]) + r.parts) == Flatten(parts) + data[..k + r.written]
    ensures r.left == data[k + r.written..]
  {
    FilledStores(parts, data[..k]);
    FlattenConcat(Filled(parts, data[..k]), r.parts);
    Rejoin(Flatten(parts), data, k, r.written);
  }

  /** At most 256 bytes in memory behind a full tail take one new segment, if it can be had. */
  lemma OneSegment(parts: seq<seq<char>>, data: seq<char>, quota: nat -> nat, memory: nat -> bool)
    requires 0 < |data| <= COPIED_SIZE && quota(0) >= |data|
    ensures var r := WriteRun(parts, 0, data, |data|, quota, 0, memory, 0);
      r.parts == parts + (if memory(0) then [data] else []) && r.written == if memory(0) then |data| else 0
  {
    assert data[..0] == [] && data[0..] == data && data[..|data|] == data;
    if parts != [] {
      assert GrowLast(parts, []) == parts by { assert parts[|parts| - 1] + [] == parts[|parts| - 1]; }
    }
  }

  /** A write falls short of `len` only through a short reader or a failed allocation. */
  lemma {:induction false} WriteRunShort(parts: seq<seq<char>>, room: nat, data: seq<char>, len: nat,
                                         quota: nat -> nat, calls: nat, memory: nat -> bool, grants: nat)
    requires parts == [] ==> room == 0
    ensures var r := WriteRun(parts, room, data, len, quota, calls, memory, grants);
      r.written < len <==> r.short || (r.refused && len > 0)
  {
    hide AppendRun, Flatten;
    var k := if room == 0 then 0 else Moved(quota(calls), Min(len, room), data);
    var calls' := if room == 0 then calls else calls + 1;
    AppendRunStores(data[k..], len - k, quota, calls', memory, grants);
  }

  lemma Rejoin(front: seq<char>, data: seq<char>, k: nat, n: nat)
    requires k + n <= |data|
    ensures front + data[..k] + data[k..][..n] == front + data[..k + n]
    ensures data[k..][n..] == data[k + n..]
  {
    assert data[..k + n] == data[..k] + data[k..][..n];
  }

  // -------- What a read does to the stored parts --------

  datatype ReadResult = ReadResult(read: nat, taken: seq<char>, parts: seq<seq<char>>, calls: nat)

  /** The segment loop of `bstream_read` on the stored parts: every segment is asked for the whole
      `len` again, because the source never lowers `remain`. */
  ghost function ReadRun(parts: seq<seq<char>>, len: nat, quota: nat -> nat, calls: nat): ReadResult
  {
    if parts == [] then ReadResult(0, [], [], calls)
    else
      var k := Min(quota(calls), Min(len, |parts[0]|));
      if k < |parts[0]| then ReadResult(k, parts[0][..k], [parts[0][k..]] + parts[1..], calls + 1)
      else if k == len then ReadResult(k, parts[0][..k], parts[1..], calls + 1)
      else
        var r := ReadRun(parts[1..], len, quota, calls + 1);
        r.(read := k + r.read, taken := parts[0] + r.taken)
  }

  /** First out: what the writer took is a prefix of what was stored, and the rest stays. */
  lemma {:induction false} ReadRunTakesPrefix(parts: seq<seq<char>>, len: nat, quota: nat -> nat, calls: nat)
    ensures var r := ReadRun(parts, len, quota, calls);
      && r.read <= |Flatten(parts)|
      && r.taken == Flatten(parts)[..r.read]
      && Flatten(r.parts) == Flatten(parts)[r.read..]
  {
    if parts != [] {
      var k := Min(quota(calls), Min(len, |parts[0]|));
      var rest := Flatten(parts[1..]);
      if k < |parts[0]| {
        assert ([parts[0][k..]] + parts[1..])[1..] == parts[1..];
        assert (parts[0] + rest)[k..] == parts[0][k..] + rest;
      } else if k == len {
        assert (parts[0] + rest)[k..] == rest;
      } else {
        ReadRunTakesPrefix(parts[1..], len, quota, calls + 1);
        var r := ReadRun(parts[1..], len, quota, calls + 1);
        assert (parts[0] + rest)[k + r.read..] == rest[r.read..];
        assert (parts[0] + rest)[..k + r.read] == parts[0] + rest[..r.read];
      }
    }
  }

  lemma CutFirst(parts: seq<seq<char>>, k: nat)
    requires parts != [] && k <= |parts[0]|
    ensures parts[0 := parts[0][k..]] == [parts[0][k..]] + parts[1..]
    ensures k == |parts[0]| ==> parts[0][..k] == parts[0]
  {
  }

  lemma ReadNothing(len: nat, quota: nat -> nat, calls: nat)
    ensures ReadRun([], len, quota, calls) == ReadResult(0, [], [], calls)
  {
  }

  function FirstNonEmpty(parts: seq<seq<char>>): nat {
    if parts == [] then 0 else if parts[0] != [] then |parts[0]| else FirstNonEmpty(parts[1..])
  }

  /** The caller's condition for "reads at most `len` bytes": everything stored fits into `len`, or
      the first segment with anything in it holds `len` bytes or more. */
  predicate BoundedRead(parts: seq<seq<char>>, len: nat) {
    |Flatten(parts)| <= len || FirstNonEmpty(parts) >= len
  }

  lemma {:induction false} ReadRunBound(parts: seq<seq<char>>, len: nat, quota: nat -> nat, calls: nat)
    requires FirstNonEmpty(parts) >= len
    ensures ReadRun(parts, len, quota, calls).read <= len
  {
    if parts != [] && parts[0] == [] && len > 0 {
      ReadRunBound(parts[1..], len, quota, calls + 1);
    }
  }

  /** A willing writer is given more than `len` bytes as soon as the condition fails. */
  lemma {:induction false} WillingWriterOverreads(parts: seq<seq<char>>, len: nat, quota: nat -> nat, calls: nat)
    requires forall i :: quota(i) == len
    requires |Flatten(parts)| > len > FirstNonEmpty(parts)
    ensures ReadRun(parts, len, quota, calls).read > len
  {
    if parts[0] == [] {
      assert Flatten(parts) == Flatten(parts[1..]);
      WillingWriterOverreads(parts[1..], len, quota, calls + 1);
    } else {
      WillingWriterReads(parts[1..], len, quota, calls + 1);
    }
  }

  lemma {:induction false} WillingWriterReads(parts: seq<seq<char>>, len: nat, quota: nat -> nat, calls: nat)
    requires forall i :: quota(i) == len
    ensures ReadRun(parts, len, quota, calls).read >= Min(len, |Flatten(parts)|)
  {
    if parts != [] && |parts[0]| < len {
      WillingWriterReads(parts[1..], len, quota, calls + 1);
    }
  }

  /** `bstream_read` keeps to `len` under every writer exactly when the condition holds. */
  lemma {:induction false} ReadsAtMostLenIff(parts: seq<seq<char>>, len: nat)
    ensures (forall quota, calls :: ReadRun(parts, len, quota, calls).read <= len) <==> BoundedRead(parts, len)
  {
    forall quota, calls | BoundedRead(parts, len)
      ensures ReadRun(parts, len, quota, calls).read <= len
    {
      ReadRunTakesPrefix(parts, len, quota, calls);
      if FirstNonEmpty(parts) >= len { ReadRunBound(parts, len, quota, calls); }
    }
    if !BoundedRead(parts, len) {
      var willing := (i: nat) => len;
      WillingWriterOverreads(parts, len, willing, 0);
      assert ReadRun(parts, len, willing, 0).read > len;
    }
  }

  /** A concrete case: three bytes asked, four delivered. */
  lemma OverreadExample()
    ensures ReadRun(["ab", "cd"], 3, _ => 3, 0).read == 4
  {
    assert ["ab", "cd"][1..] == ["cd"];
    assert ["cd"][1..] == [];
  }

  /** When all that is stored was asked for, everything is delivered unless some call to the writer
      falls short. */
  lemma {:induction false} ReadRunDeliversAll(parts: seq<seq<char>>, len: nat, quota: nat -> nat, calls: nat)
    requires |Flatten(parts)| <= len
    requires forall i :: calls <= i < ReadRun(parts, len, quota, calls).calls ==> quota(i) >= len
    ensures ReadRun(parts, len, quota, calls).read == |Flatten(parts)|
    ensures calls <= ReadRun(parts, len, quota, calls).calls
  {
    if parts != [] {
      ReadRunCalls(parts, len, quota, calls);
      assert quota(calls) >= len;
      if |parts[0]| < len {
        ReadRunCalls(parts[1..], len, quota, calls + 1);
        ReadRunDeliversAll(parts[1..], len, quota, calls + 1);
      }
    }
  }

  lemma {:induction false} ReadRunCalls(parts: seq<seq<char>>, len: nat, quota: nat -> nat, calls: nat)
    ensures ReadRun(parts, len, quota, calls).calls >= calls + if parts == [] then 0 else 1
  {
    if parts != [] { ReadRunCalls(parts[1..], len, quota, calls + 1); }
  }
}
