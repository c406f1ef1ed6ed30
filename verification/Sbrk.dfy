/** WebAssembly linear memory as sbrk presents it: it only grows, by whole pages, and may refuse.
    Every allocator of the library shares it, so it may also have grown between two calls. */
module Sbrk {
  import opened Words

  const PAGESIZE: nat := 0x1_0000

  /* (void *)-1 */
  const FAILED: int := -1

  class LinearMemory {
    var size: nat

    /* Memory holds at least the program's own data.  It can take up the whole address space; its end then
       is 2^32, which as an address is zero. */
    ghost predicate Valid() reads this { size % PAGESIZE == 0 && 0 < size <= W32 }

    constructor (initialPages: nat)
      requires 0 < initialPages <= W32 / PAGESIZE
      ensures Valid() && size == initialPages * PAGESIZE
    {
      size := initialPages * PAGESIZE;
    }

    /* sbrk; `available` is the engine's answer to memory.grow. */
    method Sbrk(increment: nat, available: bool) returns (r: int)
      requires Valid() && increment % PAGESIZE == 0
      modifies this
      ensures Valid()
      ensures r == FAILED ==> size == old(size)
      ensures r != FAILED ==> r == old(size) % W32 && size == old(size) + increment
      ensures r != FAILED <==> increment == 0 || (available && old(size) + increment <= W32)
    {
      if increment == 0 { return size % W32; }
      if !available || size + increment > W32 { return FAILED; }
      r := size;
      size := size + increment;
    }
  }
}
