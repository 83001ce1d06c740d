/**
 The physical page allocator of mem/alloc.c: a bitmap of 0x1d00 user pages and a
 cursor `mp` that only ever moves forward.
 */
module PhysicalPages {
  import opened Bitmap

  const USER_SPACE_START := 0x300000
  const PAGE_SIZE := 0x1000
  const PAGE_COUNT := 0x1d00
  const MAP_BYTES := 928  // 0x1d00 / 8: the length of the bitmap and the bound of the scan

  /** The addresses `sys_alloc_phy_page` can return. */
  predicate IsPage(addr: int) {
    USER_SPACE_START <= addr < USER_SPACE_START + PAGE_SIZE * PAGE_COUNT && addr % PAGE_SIZE == 0
  }

  function PageIndex(addr: int): (k: nat)
    requires IsPage(addr)
    ensures k < PAGE_COUNT
    ensures addr == USER_SPACE_START + PAGE_SIZE * k
  {
    (addr - USER_SPACE_START) / PAGE_SIZE
  }

  /** The bit index `sys_free_phy_page` computes as it is written: the division binds
      to the constant alone, so 0x300 is subtracted from the address. */
  function FreeIndexAsWritten(addr: int): int {
    addr - USER_SPACE_START / PAGE_SIZE
  }

  /** As written, freeing a page never clears a bit of the bitmap, let alone the page's
      own: the index lies past the last bit for every page the allocator can return. */
  lemma FreeIndexAsWrittenMisses(addr: int)
    requires IsPage(addr)
    ensures PageIndex(addr) < PAGE_COUNT <= FreeIndexAsWritten(addr)
  {
  }

  class PageAllocator {
    const bitmap: array<Byte>
    var mp: nat
    ghost var used: set<int>  // the pages whose bit is set

    ghost predicate Valid()
      reads this, bitmap
    {
      && bitmap.Length == MAP_BYTES
      && (forall k: nat {:trigger Bit(bitmap[..], k)} :: k < PAGE_COUNT ==>
            (Bit(bitmap[..], k) <==> USER_SPACE_START + PAGE_SIZE * k in used))
      && (forall a :: a in used ==> IsPage(a))
    }

    /** The allocator answers iff a free page lies in the window the scan covers. */
    ghost predicate CanAllocate()
      reads this
    {
      exists a :: IsPage(a) && a !in used && mp <= PageIndex(a) < mp + MAP_BYTES
    }

    /** `init_memory`. */
    constructor ()
      ensures Valid() && fresh(bitmap)
      ensures mp == 0 && used == {}
    {
      bitmap := new Byte[MAP_BYTES](_ => 0);
      mp := 0;
      used := {};
      new;
      assert forall k: nat :: k < PAGE_COUNT ==> bitmap[k / 8] == 0;
    }

    /** `sys_alloc_phy_page`: the first free page at or after the cursor. */
    method Alloc() returns (addr: nat)
      requires Valid() && CanAllocate()
      modifies `mp, `used, bitmap
      ensures Valid()
      ensures IsPage(addr) && addr !in old(used)
      ensures used == old(used) + {addr}
      ensures mp == PageIndex(addr) >= old(mp)
      ensures forall a :: IsPage(a) && old(mp) <= PageIndex(a) < mp ==> a in old(used)
    {
      ghost var free :| IsPage(free) && free !in used && mp <= PageIndex(free) < mp + MAP_BYTES;
      var i := 0;
      while i < MAP_BYTES
        invariant 0 <= i <= MAP_BYTES && mp == old(mp) + i <= PageIndex(free)
        invariant Valid() && used == old(used)
        invariant forall a :: IsPage(a) && old(mp) <= PageIndex(a) < mp ==> a in used
      {
        if GetBit(bitmap, mp) == 0 {
          SetBit(bitmap, mp, 1);
          addr := USER_SPACE_START + PAGE_SIZE * mp;
          used := used + {addr};
          return;
        }
        i, mp := i + 1, mp + 1;
      }
      assert false;
    }

    /** `sys_free_phy_page`, with the index that undoes `Alloc` in place of the one
        `FreeIndexAsWritten` describes. */
    method Free(addr: nat)
      requires Valid() && addr in used
      modifies `used, bitmap
      ensures Valid()
      ensures used == old(used) - {addr}
    {
      var k := (addr - USER_SPACE_START) / PAGE_SIZE;
      assert k == PageIndex(addr);
      SetBit(bitmap, k, 0);
      used := used - {addr};
    }
  }
}
