/** Reference-counted memory (rcmem.c). */
module RcMem {
  import opened Common

  const HEADER: nat := 4   // offsetof(struct rcmem, mem_start)

  class Block {
    const mem: array<char>
    var counter: nat
    ghost var freed: bool

    constructor (size: nat)
      ensures counter == 1 && !freed
      ensures fresh(mem) && mem.Length == size
    {
      mem := new char[size];
      counter := 1;
      freed := false;
    }

    /** `rcmem_take`. The source asserts when the counter overflows; that outcome is `false`. */
    method Take() returns (ok: bool)
      requires !freed && counter <= UINT_MAX
      modifies this
      ensures ok == (old(counter) < 0xFFFF_FFFF)
      ensures !freed && counter == if ok then old(counter) + 1 else 0
    {
      ok := counter != UINT_MAX;
      counter := (counter + 1) % (UINT_MAX + 1);   // ckd_add stores the wrapped sum
    }

    /** `rcmem_put`, callable by whoever still holds a reference. */
    method Put()
      requires !freed && 1 <= counter <= UINT_MAX
      modifies this
      ensures freed == (old(counter) == 1)
      ensures counter == if freed then old(counter) else old(counter) - 1
    {
      if counter == 1 {
        freed := true;
        return;
      }
      counter := counter - 1;
    }
  }

  /** `rcmem_alloc`: `null` when the header does not fit or `malloc` fails. */
  method Alloc(size: nat, granted: bool) returns (b: Block?)
    ensures b == null <==> size + 4 > 0xFFFF_FFFF_FFFF_FFFF || !granted
    ensures b != null ==> fresh(b) && fresh(b.mem) && b.mem.Length == size && b.counter == 1 && !b.freed
  {
    if size + HEADER > SIZE_MAX || !granted { return null; }
    b := new Block(size);
  }
}
