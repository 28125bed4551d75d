/** The segments of the byte stream of bstream.c, owned 256-byte ones and borrowed read-only ones, and
    the callbacks that fill and drain them and may move fewer bytes than asked. Bytes are `char`s. */
module Segments {

  import opened Common
  import opened StreamSpec

  // -------- The callbacks --------

  /** A `bstream_reader_t`: hands out the bytes of `data` in order. `quota(i)` caps what its i-th call
      moves, so every pattern of short counts is some quota. */
  class Reader {
    const quota: nat -> nat
    var calls: nat
    var data: seq<char>

    /** `bstream_memreader` over `data`: every call moves all that it is asked for. */
    constructor FromMemory(data: seq<char>)
      ensures this.data == data && calls == 0 && quota == Always(|data|)
    {
      this.data, calls, quota := data, 0, Always(|data|);
    }

    method Fill(dest: array<char>, at: nat, n: nat) returns (k: nat)
      requires at + n <= dest.Length
      modifies this, dest
      ensures k == Moved(quota(old(calls)), n, old(data))
      ensures dest[..] == old(dest[..])[..at] + old(data)[..k] + old(dest[..])[at + k..]
      ensures data == old(data)[k..] && calls == old(calls) + 1
    {
      k := Moved(quota(calls), n, data);
      forall i | 0 <= i < k {
        dest[at + i] := data[i];
      }
      data := data[k..];
      calls := calls + 1;
    }
  }

  /** A `bstream_writer_t`: appends to `accepted` what it takes. */
  class Writer {
    const quota: nat -> nat
    var calls: nat
    var accepted: seq<char>

    constructor (quota: nat -> nat)
      ensures this.quota == quota && calls == 0 && accepted == []
    {
      this.quota, calls, accepted := quota, 0, [];
    }

    method Take(src: seq<char>) returns (k: nat)
      modifies this
      ensures k == Min(quota(old(calls)), |src|)
      ensures accepted == old(accepted) + src[..k] && calls == old(calls) + 1
    {
      k := Min(quota(calls), |src|);
      accepted := accepted + src[..k];
      calls := calls + 1;
    }
  }

  /** Whether memory for the next segment can be had. */
  class Allocator {
    const grants: nat -> bool
    var calls: nat

    constructor (grants: nat -> bool)
      ensures this.grants == grants && calls == 0
    {
      this.grants, calls := grants, 0;
    }

    method Get() returns (ok: bool)
      modifies this
      ensures ok == grants(old(calls)) && calls == old(calls) + 1
    {
      ok := grants(calls);
      calls := calls + 1;
    }
  }

  // -------- Segments --------

  /** The offered bytes and the stored ones begin alike, and what is not taken stays. */
  lemma SliceOfSlice(all: seq<char>, offset: nat, len: nat, offered: nat, k: nat)
    requires offset + len <= |all| && k <= offered <= len
    ensures all[offset..offset + offered][..k] == all[offset..offset + len][..k]
    ensures all[offset + k..offset + k + (len - k)] == all[offset..offset + len][k..]
  {
  }

  datatype Kind = Borrowed | Copied

  /** `struct bstream_buffer`. Its list links are in LinkedList. */
  class Segment {
    const kind: Kind
    const lent: seq<char>       // the borrowed bytes
    const bytes: array?<char>   // the copied bytes
    var offset: nat
    var len: nat
    var freeSpace: nat
    ghost var live: bool

    ghost predicate Valid()
      reads this`offset, this`len, this`freeSpace, this`live, bytes
    {
      && live
      && match kind
         case Borrowed => bytes == null && offset + len == |lent|
         case Copied => bytes != null && bytes.Length == COPIED_SIZE && offset + len + freeSpace == COPIED_SIZE
    }

    ghost function All(): seq<char>
      requires kind == Copied ==> bytes != null
      reads bytes
    {
      if kind == Borrowed then lent else bytes[..]
    }

    ghost function Stored(): (s: seq<char>)
      requires Valid()
      reads this`offset, this`len, this`freeSpace, this`live, bytes
      ensures |s| == len
    {
      All()[offset..offset + len]
    }

    constructor CopiedCreate()
      ensures Valid() && kind == Copied && Stored() == [] && offset == 0
      ensures bytes != null && fresh(bytes)
    {
      kind, lent, bytes := Copied, [], new char[COPIED_SIZE];
      offset, len, freeSpace := 0, 0, COPIED_SIZE;
      live := true;
    }

    constructor BorrowedCreate(data: seq<char>)
      ensures Valid() && kind == Borrowed && Stored() == data
    {
      kind, lent, bytes := Borrowed, data, null;
      offset, len, freeSpace := 0, |data|, 0;
      live := true;
      new;
      assert lent[0..|data|] == data;
    }

    predicate Writable()
      reads this`freeSpace
    {
      kind == Copied && freeSpace > 0
    }

    predicate Readable()
      reads this`len
    {
      len > 0
    }

    /** Room for bytes behind the stored ones. */
    function Room(): nat
      reads this`freeSpace
    {
      if kind == Copied then freeSpace else 0
    }

    method Write(reader: Reader, n: nat) returns (written: nat)
      requires Valid()
      modifies this`len, this`freeSpace, bytes, reader
      ensures Valid()
      ensures written == if old(Room()) == 0 then 0
        else Moved(reader.quota(old(reader.calls)), Min(n, old(Room())), old(reader.data))
      ensures Room() == old(Room()) - written
      ensures Stored() == old(Stored()) + old(reader.data)[..written]
      ensures reader.data == old(reader.data)[written..]
      ensures reader.calls == old(reader.calls) + if old(Room()) == 0 then 0 else 1
    {
      if kind == Borrowed { return 0; }
      if freeSpace == 0 { return 0; }
      var toWrite := Min(n, freeSpace);
      written := reader.Fill(bytes, offset + len, toWrite);
      freeSpace := freeSpace - written;
      len := len + written;
      assert offset + len + freeSpace == COPIED_SIZE;
    }

    method Read(writer: Writer, n: nat) returns (read: nat)
      requires Valid()
      modifies this`offset, this`len, writer
      ensures Valid()
      ensures read == Min(writer.quota(old(writer.calls)), Min(n, |old(Stored())|))
      ensures Stored() == old(Stored())[read..]
      ensures writer.accepted == old(writer.accepted) + old(Stored())[..read]
      ensures writer.calls == old(writer.calls) + 1
    {
      var toRead := Min(n, len);
      ghost var all, from, had := All(), offset, len;
      if kind == Borrowed {
        read := writer.Take(lent[offset..offset + toRead]);
      } else {
        read := writer.Take(bytes[..][offset..offset + toRead]);
      }
      offset := offset + read;
      len := len - read;
      SliceOfSlice(all, from, had, toRead, read);
      assert All() == all;
    }

    method Destroy()
      requires live
      modifies this`live
      ensures !live
    {
      live := false;
    }
  }
}
