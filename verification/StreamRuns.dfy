/** Whole runs of the byte stream, on values. */
module StreamRuns {
  import opened Common
  import opened StreamSpec

  /** What is stored and how it is accounted for: what was accepted and delivered since the last flush, and
      how many of the accepted bytes the length field never saw. */
  datatype Store = Store(parts: seq<seq<char>>, totalLen: nat, pushed: seq<char>, popped: seq<char>, uncounted: nat)
  {
    ghost predicate Sound() {
      Balanced(pushed, popped, Flatten(parts), totalLen, uncounted)
    }
  }

  /** One operation, with everything it meets: memory, the callback's counts, and for a copied write the room
      in the last segment. */
  datatype Op =
    | Lend(data: seq<char>, granted: bool)
    | Copy(room: nat, data: seq<char>, len: nat, quota: nat -> nat, calls: nat, memory: nat -> bool, grants: nat)
    | Deliver(len: nat, quota: nat -> nat, calls: nat)
    | Clear

  predicate Possible(s: Store, op: Op) {
    op.Copy? && s.parts == [] ==> op.room == 0
  }

  ghost function Do(s: Store, op: Op): Store
    requires Possible(s, op)
  {
    match op
    case Lend(data, granted) =>
      if s.totalLen + |data| > SIZE_MAX || !granted then s
      else s.(parts := s.parts + [data], totalLen := s.totalLen + |data|, pushed := s.pushed + data)
    case Copy(room, data, len, quota, calls, memory, grants) =>
      if s.totalLen + len > SIZE_MAX then s
      else
        var r := WriteRun(s.parts, room, data, len, quota, calls, memory, grants);
        var early := LeavesUncounted(room, len, r.written);
        s.(parts := r.parts,
           pushed := s.pushed + if r.written <= |data| then data[..r.written] else data,
           totalLen := s.totalLen + if early then 0 else r.written,
           uncounted := s.uncounted + if early then r.written else 0)
    case Deliver(len, quota, calls) =>
      var r := ReadRun(s.parts, len, quota, calls);
      s.(parts := r.parts, popped := s.popped + r.taken, totalLen := Wrap(s.totalLen - r.read))
    case Clear => Store([], 0, [], [], 0)
  }

  /** At most 256 bytes in memory behind a last segment without room are stored and counted, as one segment, or
      not at all. */
  lemma ShortCopy(s: Store, data: seq<char>, memory: nat -> bool)
    requires 0 < |data| <= COPIED_SIZE
    ensures Do(s, Copy(0, data, |data|, Always(|data|), 0, memory, 0)) == Do(s, Lend(data, memory(0)))
  {
    hide WriteRun;
    OneSegment(s.parts, data, Always(|data|), memory);
    assert s.parts + [] == s.parts && data[..|data|] == data;
    assert s.pushed + data[..0] == s.pushed;
  }

  lemma DoSound(s: Store, op: Op)
    requires s.Sound() && Possible(s, op)
    ensures Do(s, op).Sound()
  {
    hide Balanced, Flatten, WriteRun, ReadRun;
    match op
    case Lend(data, granted) =>
      FlattenAppend(s.parts, data);
      if s.totalLen + |data| <= SIZE_MAX {
        BalancedPush(s.pushed, s.popped, Flatten(s.parts), s.totalLen, s.uncounted, data, true);
      }
    case Copy(room, data, len, quota, calls, memory, grants) =>
      var r := WriteRun(s.parts, room, data, len, quota, calls, memory, grants);
      WriteRunStores(s.parts, room, data, len, quota, calls, memory, grants);
      if s.totalLen + len <= SIZE_MAX {
        BalancedPush(s.pushed, s.popped, Flatten(s.parts), s.totalLen, s.uncounted, data[..r.written],
                     !LeavesUncounted(room, len, r.written));
      }
    case Deliver(len, quota, calls) =>
      ReadRunTakesPrefix(s.parts, len, quota, calls);
      BalancedPop(s.pushed, s.popped, Flatten(s.parts), s.totalLen, s.uncounted,
                  ReadRun(s.parts, len, quota, calls).read);
    case Clear =>
      NothingBalanced();
  }

  lemma NothingBalanced()
    ensures Balanced([], [], Flatten([]), 0, 0)
  {
  }

  /** The states of a run from the empty stream. */
  ghost predicate Run(states: seq<Store>, ops: seq<Op>) {
    && |states| == |ops| + 1
    && states[0] == Store([], 0, [], [], 0)
    && forall i :: 0 <= i < |ops| ==> Possible(states[i], ops[i]) && Do(states[i], ops[i]) == states[i + 1]
  }

  /** First in, first out over every interleaving: in every state of every run the bytes accepted since the
      last flush are those delivered followed by those stored, and the length field is exact modulo 2^64 up
      to the bytes taken through the early return. */
  lemma {:induction false} RunSound(states: seq<Store>, ops: seq<Op>, i: nat)
    requires Run(states, ops) && i <= |ops|
    ensures states[i].Sound()
    ensures states[i].pushed == states[i].popped + Flatten(states[i].parts)
  {
    hide Do;
    if i == 0 {
      NothingBalanced();
    } else {
      RunSound(states, ops, i - 1);
      DoSound(states[i - 1], ops[i - 1]);
    }
  }

  // -------- When the length is right --------

  predicate Exact(s: Store) {
    s.totalLen == |Flatten(s.parts)|
  }

  /** The length field is right exactly when the bytes it never saw make up a multiple of 2^64, as long as what
      is stored can be counted at all. */
  lemma ExactIff(s: Store)
    requires s.Sound()
    ensures Exact(s) <==> Wrap(s.uncounted) == 0 && |Flatten(s.parts)| <= SIZE_MAX
  {
    WrapOfDifference(|Flatten(s.parts)|, s.uncounted);
  }

  lemma WrapOfDifference(n: nat, u: nat)
    ensures Wrap(n - u) == n <==> Wrap(u) == 0 && n <= SIZE_MAX
  {
    var m := SIZE_MAX + 1;
    if Wrap(n - u) == n {
      assert u == n - (n - u) == m * -((n - u) / m);
      MultipleWraps(-((n - u) / m));
    }
    if Wrap(u) == 0 && n <= SIZE_MAX {
      assert n - u == n + m * -(u / m);
      WrapShift(n, -(u / m));
    }
  }

  lemma MultipleWraps(k: int)
    ensures Wrap((SIZE_MAX + 1) * k) == 0
  {
  }

  lemma WrapShift(n: nat, k: int)
    requires n <= SIZE_MAX
    ensures Wrap(n + (SIZE_MAX + 1) * k) == n
  {
  }

  /** `bstream_empty` answers for the stored bytes exactly when the length is right modulo 2^64, or when there
      are bytes and the wrong length is not zero. */
  lemma EmptyAnswerIff(s: Store)
    requires s.Sound()
    ensures (s.totalLen == 0 <==> Flatten(s.parts) == [])
       <==> if Flatten(s.parts) == [] then Wrap(s.uncounted) == 0
            else Wrap(|Flatten(s.parts)| - s.uncounted) != 0
  {
    WrapOfDifference(0, s.uncounted);
  }

  /** The bytes that a copied write stores without counting them. */
  function MissedBy(s: Store, op: Op): nat
    requires Possible(s, op)
  {
    if !op.Copy? || s.totalLen + op.len > SIZE_MAX then 0
    else
      var r := WriteRun(s.parts, op.room, op.data, op.len, op.quota, op.calls, op.memory, op.grants);
      if LeavesUncounted(op.room, op.len, r.written) then r.written else 0
  }

  /** A copied write misses bytes exactly when the tail has room, the reader moves something there, and it then
      falls short of the room or has moved all that was asked for. */
  lemma MissedIff(s: Store, op: Op)
    requires Possible(s, op) && op.Copy?
    ensures var k := Moved(op.quota(op.calls), Min(op.len, op.room), op.data);
      MissedBy(s, op)
        == if s.totalLen + op.len <= SIZE_MAX && op.room > 0 && (k < op.room || k == op.len) then k else 0
  {
    hide Filled, AppendRun;
    var k := Moved(op.quota(op.calls), Min(op.len, op.room), op.data);
    if op.room > 0 && !(k < op.room || k == op.len) {
      AppendRunStores(op.data[k..], op.len - k, op.quota, op.calls + 1, op.memory, op.grants);
    }
  }

  /** A write from memory misses its bytes exactly when there are some and they fit into the tail. */
  lemma MissedFromMemory(s: Store, room: nat, data: seq<char>, memory: nat -> bool)
    requires s.parts == [] ==> room == 0
    ensures MissedBy(s, Copy(room, data, |data|, Always(|data|), 0, memory, 0))
         == if s.totalLen + |data| <= SIZE_MAX && |data| <= room then |data| else 0
  {
    hide WriteRun;
    MissedIff(s, Copy(room, data, |data|, Always(|data|), 0, memory, 0));
  }

  /** One operation on a right length leaves it right exactly when it misses no byte. */
  lemma StaysExactIff(s: Store, op: Op)
    requires s.Sound() && Possible(s, op) && Exact(s)
    ensures Exact(Do(s, op)) <==> MissedBy(s, op) == 0
  {
    hide Flatten, WriteRun, ReadRun;
    match op
    case Lend(data, granted) =>
      FlattenAppend(s.parts, data);
    case Copy(room, data, len, quota, calls, memory, grants) =>
      WriteRunStores(s.parts, room, data, len, quota, calls, memory, grants);
    case Deliver(len, quota, calls) =>
      ReadRunTakesPrefix(s.parts, len, quota, calls);
    case Clear =>
      NothingBalanced();
      assert |Flatten([])| == 0 by { NothingStored(); }
  }

  lemma NothingStored()
    ensures Flatten([]) == []
  {
  }

  /** The length is right in every state of a run exactly when no write of the run misses a byte. */
  lemma {:induction false} RunExactIff(states: seq<Store>, ops: seq<Op>)
    requires Run(states, ops)
    ensures (forall i :: 0 <= i <= |ops| ==> Exact(states[i]))
       <==> (forall j :: 0 <= j < |ops| ==> MissedBy(states[j], ops[j]) == 0)
  {
    hide Do, MissedBy, Exact, Store.Sound;
    if forall i :: 0 <= i <= |ops| ==> Exact(states[i]) {
      forall j | 0 <= j < |ops|
        ensures MissedBy(states[j], ops[j]) == 0
      {
        RunSound(states, ops, j);
        StaysExactIff(states[j], ops[j]);
        assert Exact(states[j + 1]);
      }
    }
    if forall j :: 0 <= j < |ops| ==> MissedBy(states[j], ops[j]) == 0 {
      StartExact();
      for i := 0 to |ops|
        invariant forall k :: 0 <= k <= i ==> Exact(states[k])
      {
        RunSound(states, ops, i);
        StaysExactIff(states[i], ops[i]);
        assert MissedBy(states[i], ops[i]) == 0;
      }
    }
  }

  lemma StartExact()
    ensures Exact(Store([], 0, [], [], 0))
  {
  }

  /** The bytes missed since the last flush. */
  function Missed(states: seq<Store>, ops: seq<Op>, i: nat): nat
    requires |states| == |ops| + 1 && i <= |ops|
    requires forall j :: 0 <= j < |ops| ==> Possible(states[j], ops[j])
  {
    if i == 0 || ops[i - 1].Clear? then 0 else Missed(states, ops, i - 1) + MissedBy(states[i - 1], ops[i - 1])
  }

  /** In any one state the length is right exactly when the writes since the last flush missed a multiple of
      2^64 bytes. */
  lemma {:induction false} StateExactIff(states: seq<Store>, ops: seq<Op>, i: nat)
    requires Run(states, ops) && i <= |ops|
    ensures states[i].uncounted == Missed(states, ops, i)
    ensures Exact(states[i]) <==> Wrap(Missed(states, ops, i)) == 0 && |Flatten(states[i].parts)| <= SIZE_MAX
  {
    hide Exact, WriteRun, ReadRun, Flatten;
    RunSound(states, ops, i);
    ExactIff(states[i]);
    if i > 0 {
      StateExactIff(states, ops, i - 1);
      assert Do(states[i - 1], ops[i - 1]) == states[i];
    }
  }

  /** In particular no byte is missed where no copied write meets a copied tail with room. */
  lemma {:induction false} RunExact(states: seq<Store>, ops: seq<Op>, i: nat)
    requires Run(states, ops) && i <= |ops|
    requires forall j :: 0 <= j < |ops| && ops[j].Copy? ==> ops[j].room == 0
    ensures states[i].uncounted == 0 && states[i].totalLen == |Flatten(states[i].parts)|
  {
    hide WriteRun, ReadRun;
    RunSound(states, ops, i);
    if i > 0 {
      RunExact(states, ops, i - 1);
      assert Do(states[i - 1], ops[i - 1]) == states[i];
    }
  }

  // -------- What follows from a missed byte --------

  /** Once all bytes were delivered, missed bytes leave a length that is not zero, and a borrowed write is
      refused for want of length exactly when it has at least as many bytes as were missed. */
  lemma DrainedRefusesIff(s: Store, data: seq<char>)
    requires s.Sound() && Flatten(s.parts) == [] && 0 < s.uncounted <= SIZE_MAX
    ensures s.totalLen == SIZE_MAX + 1 - s.uncounted
    ensures Do(s, Lend(data, true)) == s <==> |data| >= s.uncounted
  {
    WrapShift(SIZE_MAX + 1 - s.uncounted, -1);
    assert s.totalLen == SIZE_MAX + 1 - s.uncounted;
    if s.totalLen + |data| <= SIZE_MAX {
      assert |Do(s, Lend(data, true)).parts| == |s.parts| + 1;
    }
  }

  /** Two writes from memory: the second is counted exactly when it does not fit into the segment that the
      first one made. */
  lemma SecondWriteIff(data: seq<char>, more: seq<char>, memory: nat -> bool)
    requires 0 < |data| < COPIED_SIZE && 0 < |more| && |data| + |more| <= SIZE_MAX && memory(0)
    ensures var s := Do(Store([], 0, [], [], 0), Copy(0, data, |data|, Always(|data|), 0, memory, 0));
      var t := Do(s, Copy(COPIED_SIZE - |data|, more, |more|, Always(|more|), 0, memory, 0));
      && s.parts == [data] && Exact(s)
      && (Exact(t) <==> |data| + |more| > 256)
  {
    hide WriteRun, Do, MissedBy, Flatten, Store.Sound;
    var empty := Store([], 0, [], [], 0);
    var s := Do(empty, Lend(data, true));
    ShortCopy(empty, data, memory);
    NothingBalanced();
    assert empty.Sound() by { EmptySound(); }
    DoSound(empty, Lend(data, true));
    OnePart(data);
    MissedFromMemory(s, COPIED_SIZE - |data|, more, memory);
    StaysExactIff(s, Copy(COPIED_SIZE - |data|, more, |more|, Always(|more|), 0, memory, 0));
  }

  lemma EmptySound()
    ensures Store([], 0, [], [], 0).Sound()
  {
  }

  lemma OnePart(data: seq<char>)
    requires |data| <= SIZE_MAX
    ensures var s := Do(Store([], 0, [], [], 0), Lend(data, true));
      s.parts == [data] && s.totalLen == |data| && Exact(s)
  {
    assert [] + [data] == [data] && [data][1..] == [] && data + [] == data;
  }

  /** A write that fits into the tail is not: three bytes of which the length field sees two. When they have
      been delivered the length is 2^64 - 1, and a borrowed write of one byte is refused. */
  lemma UncountedExample()
    ensures var s := Store(["ab"], 2, "ab", [], 0);
      var t := Do(s, Copy(254, "c", 1, _ => 1, 0, _ => true, 0));
      var u := Do(t, Deliver(3, _ => 3, 0));
      && s.Sound() && t == Store(["abc"], 2, "abc", [], 1)
      && u == Store([], SIZE_MAX, "abc", "abc", 1)
      && Do(u, Lend("d", true)) == u
  {
    assert ["ab"][1..] == [] && ["abc"][1..] == [];
    assert "ab" + "c" == "abc" && "c"[..1] == "c" && [] + "ab" == "ab";
    assert ["ab"][0 := "abc"] == ["abc"];
    assert "abc"[..3] == "abc" && [] + "abc" == "abc";
  }
}
