/** The byte stream of bstream.c. Its segments are kept in a sequence from head to tail; LinkedList proves
    that the pointer operations of list.h it uses act on such a sequence. */
module ByteStream {
  import opened Common
  import opened StreamSpec
  import opened StreamRuns
  import opened Segments

  /** What a stream knows about its segments: which they are, what each stores, and a number for every
      segment and buffer that was ever listed, which keeps them pairwise distinct. */
  datatype Book = Book(
    segs: seq<Segment>,
    parts: seq<seq<char>>,
    gone: nat,
    segments: map<Segment, nat>,
    buffers: map<array<char>, nat>)
  {
    ghost predicate At(i: nat)
      requires i < |segs| == |parts|
      reads segments.Keys, buffers.Keys
    {
      var s := segs[i];
      && s in segments && segments[s] == gone + i
      && (s.bytes != null ==> s.bytes in buffers && buffers[s.bytes] == gone + i)
      && s.Valid()
      && parts[i] == s.Stored()
    }

    ghost predicate Holds()
      reads segments.Keys, buffers.Keys
    {
      |segs| == |parts| && forall i {:trigger At(i)} :: 0 <= i < |segs| ==> At(i)
    }

    /** Never seen before. */
    ghost predicate New(s: Segment) {
      s !in segments && (s.bytes != null ==> s.bytes !in buffers)
    }

    ghost function Add(s: Segment, text: seq<char>): Book {
      Book(segs + [s], parts + [text], gone, segments[s := gone + |segs|],
           if s.bytes == null then buffers else buffers[s.bytes := gone + |segs|])
    }

    ghost function Drop(): Book
      requires segs != [] && parts != []
    {
      Book(segs[1..], parts[1..], gone + 1, segments, buffers)
    }

    lemma AddHolds(s: Segment)
      requires Holds() && New(s) && s.Valid()
      ensures Add(s, s.Stored()).Holds()
    {
      var b := Add(s, s.Stored());
      forall i | 0 <= i < |b.segs|
        ensures b.At(i)
      {
        if i < |segs| { assert At(i); }
      }
    }

    lemma DropHolds()
      requires Holds() && segs != []
      ensures Drop().Holds()
    {
      forall i | 0 <= i < |segs| - 1
        ensures Drop().At(i)
      {
        assert At(i + 1);
      }
    }
  }

  class Stream {
    var chain: seq<Segment>
    var totalLen: nat

    ghost var book: Book

    // Since the last flush: what was accepted, what was delivered, and how many of the accepted
    // bytes were never added to totalLen.
    ghost var pushed: seq<char>
    ghost var popped: seq<char>
    ghost var uncounted: nat

    ghost predicate Shape()
      reads this`chain, this`book, book.segments.Keys, book.buffers.Keys
    {
      chain == book.segs && book.Holds()
    }

    /** The stored bytes. */
    ghost function Contents(): seq<char>
      reads this`book
    {
      Flatten(book.parts)
    }

    /** The stream as a value. */
    ghost function Snapshot(): Store
      reads this`book, this`totalLen, this`pushed, this`popped, this`uncounted
    {
      Store(book.parts, totalLen, pushed, popped, uncounted)
    }

    ghost predicate Accounts()
      reads this`book, this`totalLen, this`pushed, this`popped, this`uncounted
    {
      Balanced(pushed, popped, Contents(), totalLen, uncounted)
    }

    ghost predicate Valid()
      reads this, book.segments.Keys, book.buffers.Keys
    {
      Shape() && Accounts()
    }

    lemma EmptyChain()
      requires Valid() && chain == []
      ensures book.parts == [] && TailRoom() == 0
    {
    }

    /** The footprint has grown by new objects only. */
    twostate predicate Grown()
      reads this`book
    {
      fresh(book.segments.Keys - old(book.segments.Keys)) && fresh(book.buffers.Keys - old(book.buffers.Keys))
    }

    constructor ()
      ensures Valid() && book == Book([], [], 0, map[], map[])
      ensures pushed == [] && popped == [] && uncounted == 0
    {
      chain, totalLen := [], 0;
      book := Book([], [], 0, map[], map[]);
      pushed, popped, uncounted := [], [], 0;
    }

    /** `list_add_item_back` of a new segment. */
    method Append(item: Segment)
      requires Shape() && book.New(item) && item.Valid()
      modifies this`chain, this`book
      ensures Shape() && book == old(book).Add(item, item.Stored())
    {
      book.AddHolds(item);
      chain := chain + [item];
      book := book.Add(item, item.Stored());
    }

    /** `list_remove_item` on the head, and its destruction. */
    method RemoveHead(item: Segment)
      requires Shape() && chain != [] && item == chain[0]
      modifies this`chain, this`book, item`live
      ensures Shape() && book == old(book).Drop() && chain == old(chain)[1..]
    {
      assert book.At(0);
      book.DropHolds();
      ghost var b := book.Drop();
      item.Destroy();
      forall i | 0 <= i < |b.segs|
        ensures b.At(i)
      {
        assert old(book.At(i + 1));
      }
      chain := chain[1..];
      book := b;
    }

    ghost function TailRoom(): nat
      reads this`chain, if chain == [] then {} else {chain[|chain| - 1]}
    {
      if chain == [] then 0 else chain[|chain| - 1].Room()
    }

    /** `bstream_buffer_write` into the last segment. */
    method TailWrite(item: Segment, reader: Reader, n: nat) returns (written: nat)
      requires Shape() && chain != [] && item == chain[|chain| - 1]
      modifies this`book, item`len, item`freeSpace, item.bytes, reader
      ensures Shape()
      ensures var k := if old(TailRoom()) == 0 then 0
                       else Moved(reader.quota(old(reader.calls)), Min(n, old(TailRoom())), old(reader.data));
        && written == k
        && book == old(book).(parts := GrowLast(old(book.parts), old(reader.data)[..k]))
        && TailRoom() == old(TailRoom()) - k
        && reader.data == old(reader.data)[k..]
        && reader.calls == old(reader.calls) + if old(TailRoom()) == 0 then 0 else 1
    {
      hide Moved, Segment.Stored, Segment.Room;
      ghost var last := |chain| - 1;
      assert book.At(last);
      ghost var b := book;
      ghost var more := reader.data;
      written := item.Write(reader, n);
      b := b.(parts := GrowLast(b.parts, more[..written]));
      forall i | 0 <= i < |b.segs|
        ensures b.At(i)
      {
        assert old(book.At(i));
      }
      book := b;
    }

    /** `bstream_write_borrow` of the memory `data`. */
    method WriteBorrow(data: seq<char>, granted: bool) returns (written: nat)
      requires Valid()
      modifies this
      ensures Valid() && Grown()
      ensures written == if old(totalLen) + |data| > SIZE_MAX || !granted then 0 else |data|
      ensures book.parts == old(book.parts) +
        if old(totalLen) + |data| > SIZE_MAX || !granted then [] else [data]
      ensures pushed == old(pushed) + data[..written] && popped == old(popped) && uncounted == old(uncounted)
      ensures totalLen == old(totalLen) + written
      ensures TailRoom() == if old(totalLen) + |data| > SIZE_MAX || !granted then old(TailRoom()) else 0
      ensures Snapshot() == Do(old(Snapshot()), Lend(data, granted))
    {
      hide Flatten, Balanced;
      if totalLen + |data| > SIZE_MAX { return 0; }   // ckd_add
      if !granted { return 0; }
      DoSound(Snapshot(), Lend(data, true));
      var item := new Segment.BorrowedCreate(data);
      Append(item);
      totalLen := totalLen + |data|;
      pushed := pushed + data;
      written := |data|;
    }

    /** A new segment goes to the end of the list and is filled. */
    method AppendSegment(reader: Reader, remain: nat, memory: Allocator) returns (granted: bool, res: nat, full: bool)
      requires Shape()
      modifies this`chain, this`book, reader, memory
      ensures Shape()
      ensures Grown()
      ensures granted == memory.grants(old(memory.calls)) && memory.calls == old(memory.calls) + 1
      ensures !granted ==>
        res == 0 && book == old(book) && reader.data == old(reader.data) && reader.calls == old(reader.calls)
      ensures granted ==>
        && res == Moved(reader.quota(old(reader.calls)), Min(remain, COPIED_SIZE), old(reader.data))
        && full == (res == COPIED_SIZE)
        && book.parts == old(book.parts) + [old(reader.data)[..res]]
        && reader.data == old(reader.data)[res..] && reader.calls == old(reader.calls) + 1
    {
      hide Moved, GrowLast;
      granted := memory.Get();
      res, full := 0, false;
      if !granted { return; }
      var item := new Segment.CopiedCreate();
      Append(item);
      assert book.At(|chain| - 1);
      assert book.parts == old(book.parts) + [[]];
      res := TailWrite(item, reader, remain);
      full := !item.Writable();
      GrowNew(old(book.parts), old(reader.data)[..res]);
    }

    /** What the run still to come will have made of the present state is `whole`. */
    ghost predicate Outlook(whole: WriteResult, written: nat, remain: nat, reader: Reader, memory: Allocator)
      reads this`book, reader, memory
    {
      var r := AppendRun(reader.data, remain, reader.quota, reader.calls, memory.grants, memory.calls);
      && whole.parts == book.parts + r.parts
      && whole.written == written + r.written
      && whole.left == r.left && whole.calls == r.calls && whole.grants == r.grants
    }

    /** The present state is `whole`. */
    twostate predicate Done(whole: WriteResult, written: nat, reader: Reader, memory: Allocator)
      reads this`book, reader, memory
    {
      && whole.parts == book.parts
      && whole.written == written
      && whole.left == reader.data && whole.calls == reader.calls && whole.grants == memory.calls
    }

    /** One pass of the loop of `bstream_write`. */
    method Pass(reader: Reader, remain: nat, memory: Allocator, written: nat, ghost whole: WriteResult)
      returns (stop: bool, res: nat)
      requires Shape() && Outlook(whole, written, remain, reader, memory)
      modifies this`chain, this`book, reader, memory
      ensures Shape()
      ensures Grown()
      ensures stop ==> Done(whole, written + res, reader, memory)
      ensures !stop ==> res == COPIED_SIZE < remain && Outlook(whole, written + res, remain - res, reader, memory)
    {
      ghost var parts := book.parts;
      var granted, full;
      granted, res, full := AppendSegment(reader, remain, memory);
      stop := !granted || !full || res == remain;
      if granted && !stop {
        Regroup(parts, [old(reader.data)[..res]],
                AppendRun(reader.data, remain - res, reader.quota, reader.calls, memory.grants, memory.calls).parts);
      }
    }

    /** The loop of `bstream_write`. */
    method AppendSegments(reader: Reader, len: nat, memory: Allocator, already: nat, ghost whole: WriteResult)
      returns (written: nat)
      requires Shape() && Outlook(whole, already, len, reader, memory)
      modifies this`chain, this`book, reader, memory
      ensures Shape()
      ensures Grown()
      ensures Done(whole, written, reader, memory)
    {
      written := already;
      var remain := len;
      while true
        invariant Shape()
        invariant Grown()
        invariant Outlook(whole, written, remain, reader, memory)
        decreases remain
      {
        var stop, res := Pass(reader, remain, memory, written, whole);
        written := written + res;
        if stop { return; }
        remain := remain - res;
      }
    }

    /** `bstream_write` apart from the length: fills the tail and appends segments. `early` is its early
        return, which skips the update of the length. */
    method WriteSegments(reader: Reader, len: nat, memory: Allocator, ghost whole: WriteResult)
      returns (written: nat, early: bool)
      requires Shape()
      requires whole == WriteRun(book.parts, TailRoom(), reader.data, len, reader.quota, reader.calls,
                                memory.grants, memory.calls)
      modifies this`chain, this`book, book.segments.Keys, book.buffers.Keys, reader, memory
      ensures Shape()
      ensures Grown()
      ensures Done(whole, written, reader, memory)
      ensures early == (old(chain) != [] && (written < old(TailRoom()) || len <= old(TailRoom())))
    {
      hide AppendRun, Moved;
      written := 0;
      if chain != [] {
        var last := chain[|chain| - 1];
        assert book.At(|chain| - 1);
        written := TailWrite(last, reader, len);
        if last.Writable() || written == len { return written, true; }
      }
      written := AppendSegments(reader, len - written, memory, written, whole);
      early := false;
    }

    /** `bstream_write_mem`: a write with a reader that moves all it is asked for. */
    method WriteMem(data: seq<char>, grants: nat -> bool) returns (written: nat)
      requires Valid()
      modifies this, book.segments.Keys, book.buffers.Keys
      ensures Valid()
      ensures Grown()
      ensures Snapshot() == Do(old(Snapshot()), Copy(old(TailRoom()), data, |data|, Always(|data|), 0, grants, 0))
    {
      hide Stream.Valid, Do, WriteRun;
      var reader := new Reader.FromMemory(data);
      var memory := new Allocator(grants);
      written := Write(reader, |data|, memory);
    }

    twostate predicate Untouched(reader: Reader, memory: Allocator)
      reads this, reader, memory
    {
      && book == old(book) && totalLen == old(totalLen) && uncounted == old(uncounted)
      && pushed == old(pushed) && popped == old(popped)
      && reader.data == old(reader.data) && reader.calls == old(reader.calls) && memory.calls == old(memory.calls)
    }

    /** The effect of a write: that of WriteRun on the segments, the reader and the memory; the bytes taken
        from the reader are accepted; and they are counted unless the early return was taken. */
    twostate predicate Wrote(whole: WriteResult, room: nat, len: nat, written: nat, reader: Reader, memory: Allocator)
      reads this, reader, memory
    {
      && Done(whole, written, reader, memory)
      && written <= |old(reader.data)|
      && pushed == old(pushed) + old(reader.data)[..written] && popped == old(popped)
      && uncounted == old(uncounted) + (if LeavesUncounted(room, len, written) then written else 0)
      && totalLen == old(totalLen) + (if LeavesUncounted(room, len, written) then 0 else written)
    }

    /** `bstream_write` */
    method Write(reader: Reader, len: nat, memory: Allocator) returns (written: nat)
      requires Valid()
      modifies this, book.segments.Keys, book.buffers.Keys, reader, memory
      ensures Valid()
      ensures Grown()
      ensures old(totalLen) + len > SIZE_MAX ==> written == 0 && Untouched(reader, memory)
      ensures old(totalLen) + len <= SIZE_MAX ==>
        Wrote(WriteRun(old(book.parts), old(TailRoom()), old(reader.data), len, reader.quota, old(reader.calls),
                       memory.grants, old(memory.calls)),
              old(TailRoom()), len, written, reader, memory)
      ensures old(book.parts) == [] ==> old(TailRoom()) == 0
      ensures Snapshot() == Do(old(Snapshot()), Copy(old(TailRoom()), old(reader.data), len, reader.quota,
                                                     old(reader.calls), memory.grants, old(memory.calls)))
    {
      hide WriteRun, AppendRun, Flatten, Balanced;
      if totalLen + len > SIZE_MAX { return 0; }   // ckd_add
      DoSound(Snapshot(), Copy(TailRoom(), reader.data, len, reader.quota, reader.calls, memory.grants, memory.calls));
      ghost var whole := WriteRun(book.parts, TailRoom(), reader.data, len, reader.quota, reader.calls,
                                  memory.grants, memory.calls);
      WriteRunStores(book.parts, TailRoom(), reader.data, len, reader.quota, reader.calls, memory.grants, memory.calls);
      ghost var more := reader.data[..whole.written];
      var early;
      written, early := WriteSegments(reader, len, memory, whole);
      pushed := pushed + more;
      if early {
        uncounted := uncounted + written;
      } else {
        totalLen := totalLen + written;
      }
    }

    /** `bstream_buffer_read` from the first segment. */
    method HeadRead(item: Segment, writer: Writer, n: nat) returns (read: nat)
      requires Shape() && chain != [] && item == chain[0]
      modifies this`book, item`offset, item`len, writer
      ensures Shape()
      ensures read == Min(writer.quota(old(writer.calls)), Min(n, |old(book.parts)[0]|))
      ensures book == old(book).(parts := old(book.parts)[0 := old(book.parts)[0][read..]])
      ensures writer.accepted == old(writer.accepted) + old(book.parts)[0][..read]
      ensures writer.calls == old(writer.calls) + 1
      ensures item.Readable() <==> read < |old(book.parts)[0]|
    {
      assert book.At(0);
      ghost var b := book;
      read := item.Read(writer, n);
      b := b.(parts := b.parts[0 := b.parts[0][read..]]);
      forall i | 0 <= i < |b.segs|
        ensures b.At(i)
      {
        assert old(book.At(i));
      }
      book := b;
    }

    /** What the run still to come will have made of the present state is `whole`. */
    ghost predicate ReadOutlook(base: seq<char>, whole: ReadResult, read: nat, len: nat, writer: Writer)
      reads this`book, writer
    {
      var r := ReadRun(book.parts, len, writer.quota, writer.calls);
      && whole.read == read + r.read
      && base + whole.taken == writer.accepted + r.taken
      && whole.parts == r.parts && whole.calls == r.calls
    }

    twostate predicate ReadDone(base: seq<char>, whole: ReadResult, read: nat, writer: Writer)
      reads this`book, writer
    {
      && book.segments == old(book.segments) && book.buffers == old(book.buffers)
      && whole.read == read
      && base + whole.taken == writer.accepted
      && whole.parts == book.parts && whole.calls == writer.calls
    }

    /** One pass of the loop of `bstream_read`. The source asks for `len` on every pass. */
    method ReadPass(writer: Writer, len: nat, read: nat, ghost base: seq<char>, ghost whole: ReadResult)
      returns (stop: bool, res: nat)
      requires Shape() && chain != [] && ReadOutlook(base, whole, read, len, writer)
      modifies this`chain, this`book, book.segments.Keys, writer
      ensures Shape()
      ensures |chain| < |old(chain)| || stop
      ensures stop ==> ReadDone(base, whole, read + res, writer)
      ensures !stop ==>
        && ReadOutlook(base, whole, read + res, len, writer)
        && book.segments == old(book.segments) && book.buffers == old(book.buffers)
    {
      hide Segment.Stored, Segment.Valid;
      var item := chain[0];
      assert book.At(0);
      ghost var parts := book.parts;
      res := HeadRead(item, writer, len);
      CutFirst(parts, res);
      if item.Readable() { return true, res; }
      RemoveHead(item);
      stop := res == len;
    }

    /** The segment loop of `bstream_read`. */
    method ReadSegments(writer: Writer, len: nat) returns (read: nat)
      requires Shape()
      modifies this`chain, this`book, book.segments.Keys, writer
      ensures Shape()
      ensures ReadDone(old(writer.accepted), ReadRun(old(book.parts), len, writer.quota, old(writer.calls)),
                       read, writer)
    {
      hide ReadRun;
      read := 0;
      ghost var whole := ReadRun(book.parts, len, writer.quota, writer.calls);
      while chain != []
        invariant Shape()
        invariant book.segments == old(book.segments) && book.buffers == old(book.buffers)
        invariant ReadOutlook(old(writer.accepted), whole, read, len, writer)
        decreases |chain|
      {
        var stop, res := ReadPass(writer, len, read, old(writer.accepted), whole);
        read := read + res;
        if stop { return; }
      }
      ReadNothing(len, writer.quota, writer.calls);
    }

    /** `bstream_read` */
    method Read(writer: Writer, len: nat) returns (read: nat)
      requires Valid()
      modifies this, book.segments.Keys, writer
      ensures Valid()
      ensures ReadDone(old(writer.accepted), ReadRun(old(book.parts), len, writer.quota, old(writer.calls)),
                       read, writer)
      ensures read <= |old(Contents())|
      ensures writer.accepted == old(writer.accepted) + old(Contents())[..read]
      ensures popped == old(popped) + old(Contents())[..read] && Contents() == old(Contents())[read..]
      ensures pushed == old(pushed) && uncounted == old(uncounted)
      ensures totalLen == Wrap(old(totalLen) - read)
      ensures BoundedRead(old(book.parts), len) ==> read <= len
      ensures Snapshot() == Do(old(Snapshot()), Deliver(len, writer.quota, old(writer.calls)))
    {
      hide ReadRun, ReadOutlook, Balanced, BoundedRead;
      ghost var stored := Contents();
      ReadRunTakesPrefix(book.parts, len, writer.quota, writer.calls);
      ReadsAtMostLenIff(book.parts, len);
      DoSound(Snapshot(), Deliver(len, writer.quota, writer.calls));
      read := ReadSegments(writer, len);
      totalLen := Wrap(totalLen - read);
      popped := popped + stored[..read];
    }

    /** `bstream_flush` */
    method Flush()
      requires Valid()
      modifies this, book.segments.Keys
      ensures Valid() && Contents() == [] && chain == [] && totalLen == 0
      ensures pushed == [] && popped == [] && uncounted == 0
      ensures Snapshot() == Do(old(Snapshot()), Clear)
      ensures book.segments == old(book.segments) && book.buffers == old(book.buffers)
      ensures forall s :: s in old(chain) ==> !s.live
    {
      for i := 0 to |chain|
        invariant chain == old(chain) && book == old(book)
        invariant forall j :: 0 <= j < i ==> !chain[j].live
        invariant forall j {:trigger book.At(j)} :: i <= j < |chain| ==> book.At(j)
      {
        assert book.At(i);
        label BEFORE:
        chain[i].Destroy();
        forall j | i < j < |chain|
          ensures book.At(j)
        {
          assert old@BEFORE(book.At(j)) && old@BEFORE(book.At(i));
        }
      }
      chain := [];
      book := Book([], [], book.gone + |book.segs|, book.segments, book.buffers);
      totalLen := 0;
      pushed, popped, uncounted := [], [], 0;
    }

    /** `bstream_empty`, and when its answer is right for the stored bytes. */
    method IsEmpty() returns (empty: bool)
      requires Valid()
      ensures empty == (totalLen == 0)
      ensures (empty <==> Contents() == [])
         <==> if Contents() == [] then Wrap(uncounted) == 0 else Wrap(|Contents()| - uncounted) != 0
    {
      EmptyAnswerIff(Snapshot());
      empty := totalLen == 0;
    }
  }
}
