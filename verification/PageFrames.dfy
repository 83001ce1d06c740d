/**
 The pool of page-table frames of mem/paging.c, between PAGE_TABLE_START and 0xc0600000:
 their bitmap and the entries they hold.
 */
module PageFrames {
  import opened Bitmap
  import opened Cow
  import opened PteBits
  import opened MapLemmas

  const PAGE_TABLE_START := 0xc0520000  // PROC_KSTACK_TABLE_START + 0x1000 * PROC_MAX_CNT
  const FRAME_SIZE := 0x1000
  const POOL_BYTES := 28                // POOL / 8
  const NO_ENTRY := Entry(false, false, 0)

  function PageVirToPhy(addr: int): int { addr - 0xc0300000 }

  function PagePhyToVir(addr: int): int { addr + 0xc0300000 }

  /** The physical address of frame `f` of the pool, as `sys_alloc_page_frame` returns it. */
  function FrameAddr(f: int): int {
    PageVirToPhy(PAGE_TABLE_START + f * FRAME_SIZE)
  }

  /** The frame a directory entry points at. */
  function FrameIndex(addr: int): int {
    (PagePhyToVir(addr) - PAGE_TABLE_START) / FRAME_SIZE
  }

  lemma FrameIndexInverts(f: int)
    ensures FrameIndex(FrameAddr(f)) == f
  {
  }

  lemma FramesAligned(f: int)
    requires 0 <= f < POOL
    ensures IsAligned(FrameAddr(f))
  {
    assert FrameAddr(f) == FRAME_SIZE * (0x220 + f);
  }

  /** Entry `j` of frame `f`. */
  ghost function At(words: seq<Entry>, f: int, j: int): Entry {
    if 0 <= f < POOL && 0 <= j < PTES && |words| == POOL * PTES then words[f * PTES + j] else NO_ENTRY
  }

  /** Entry `j` of the kernel's frame `f`: the base directory has two tables, which map physical
      memory below 0x100000, and the next two megabytes. */
  function KernelEntry(f: int, j: int): Entry {
    if f == 0 && j == 768 then Entry(true, true, FrameAddr(1))
    else if f == 0 && j == 769 then Entry(true, true, FrameAddr(2))
    else if f == 1 && j < 256 then Entry(true, true, 0x1000 * j)
    else if f == 2 && j < 512 then Entry(true, true, 0x100000 + 0x1000 * j)
    else NO_ENTRY
  }

  /** The numbers below `n`. */
  ghost function Below(n: nat): (s: set<int>)
    ensures |s| == n && forall f :: f in s <==> 0 <= f < n
  {
    if n == 0 then {} else Below(n - 1) + {n - 1}
  }

  /** A pool that is not full has a free frame. */
  lemma FreeFrame(s: set<int>)
    requires |s| < POOL
    ensures exists f :: 0 <= f < POOL && f !in s
  {
    if Below(POOL) <= s {
      CardinalityMonotone(Below(POOL), s);
    }
  }

  class FramePool {
    const bitmap: array<Byte>
    const words: array<bv32>
    ghost var used: set<int>        // the frames whose bit is set
    ghost var entries: seq<Entry>   // what the words of all frames stand for

    ghost predicate Valid()
      reads this, bitmap, words
    {
      && bitmap.Length == POOL_BYTES
      && (forall f {:trigger Bit(bitmap[..], f)} :: 0 <= f < POOL ==> (Bit(bitmap[..], f) <==> f in used))
      && (forall f :: f in used ==> 0 <= f < POOL)
      && words.Length == |entries| == POOL * PTES
      && (forall k {:trigger words[k]} :: 0 <= k < words.Length ==> Decode(words[k]) == entries[k])
    }

    /** The pool before `init_paging`, over memory with any contents. */
    constructor (memory: seq<bv32>)
      requires |memory| == POOL * PTES
      ensures Valid() && fresh(bitmap) && fresh(words) && used == {}
    {
      bitmap := new Byte[POOL_BYTES](_ => 0);
      words := new bv32[POOL * PTES](i requires 0 <= i < |memory| => memory[i]);
      used := {};
      entries := seq(POOL * PTES, (k: nat) requires k < |memory| => Decode(memory[k]));
      new;
      assert forall f: nat :: f < POOL ==> bitmap[f / 8] == 0;
    }

    /** One of the kernel's frames is marked and cleared. */
    method TakeFrame(f: nat)
      requires Valid() && f < POOL
      modifies this, bitmap, words
      ensures Valid() && used == old(used) + {f}
      ensures forall g, j :: At(entries, g, j) == if g == f then NO_ENTRY else At(old(entries), g, j)
    {
      SetBit(bitmap, f, 1);
      used := used + {f};
      Clear(f);
    }

    /** One of the loops of `init_paging`: the first `n` entries of table `t` map the pages from
        `start` on. */
    method MapPages(t: nat, n: nat, start: int)
      requires Valid() && t < POOL && n <= PTES && 0 <= start && start % 0x1000 == 0 && start + 0x1000 * n <= WORD_ADDRS
      modifies `entries, words
      ensures Valid()
      ensures forall g, j :: At(entries, g, j) ==
                if g == t && 0 <= j < n then Entry(true, true, start + 0x1000 * j) else At(old(entries), g, j)
    {
      var addr := start;
      for i := 0 to n
        invariant Valid() && addr == start + 0x1000 * i
        invariant forall g, j :: At(entries, g, j) ==
                    if g == t && 0 <= j < i then Entry(true, true, start + 0x1000 * j) else At(old(entries), g, j)
      {
        EnterKernel(t, i, addr);
        addr := addr + 0x1000;
      }
    }

    /** `init_paging`: the base directory and its two tables. */
    method InitPaging()
      requires Valid() && used == {}
      modifies this, bitmap, words
      ensures Valid() && used == {0, 1, 2}
      ensures forall f, j :: 0 <= f < KERNEL_FRAMES && 0 <= j < PTES ==> At(entries, f, j) == KernelEntry(f, j)
    {
      TakeFrame(0);
      TakeFrame(1);
      TakeFrame(2);
      FramesAligned(1);
      FramesAligned(2);
      EnterKernel(0, 768, PageVirToPhy(PAGE_TABLE_START + 0x1000));
      EnterKernel(0, 769, PageVirToPhy(PAGE_TABLE_START + 0x2000));
      MapPages(1, 256, 0);
      MapPages(2, 512, 0x100000);
    }

    /** `sys_alloc_page_frame`: the first free frame, cleared. */
    method Alloc() returns (phys: int)
      requires Valid() && exists f :: 0 <= f < POOL && f !in used
      modifies this, bitmap, words
      ensures Valid()
      ensures phys == FrameAddr(FrameIndex(phys))
      ensures 0 <= FrameIndex(phys) < POOL && FrameIndex(phys) !in old(used)
      ensures used == old(used) + {FrameIndex(phys)}
      ensures forall f, j :: At(entries, f, j) == if f == FrameIndex(phys) then NO_ENTRY else At(old(entries), f, j)
      ensures forall f :: 0 <= f < FrameIndex(phys) ==> f in old(used)
    {
      for i := 0 to POOL
        invariant Valid() && used == old(used) && entries == old(entries)
        invariant forall f :: 0 <= f < i ==> f in used
      {
        if GetBit(bitmap, i) == 0 {
          SetBit(bitmap, i, 1);
          used := used + {i};
          Clear(i);
          return PageVirToPhy(PAGE_TABLE_START + i * FRAME_SIZE);
        }
      }
      assert false;
    }

    /** The `memset` of a frame. */
    method Clear(f: nat)
      requires Valid() && f < POOL
      modifies `entries, words
      ensures Valid()
      ensures forall g, j :: At(entries, g, j) == if g == f then NO_ENTRY else At(old(entries), g, j)
    {
      NoEntry();
      for j := 0 to PTES
        invariant Valid()
        invariant forall k :: 0 <= k < |entries| ==>
                    entries[k] == if f * PTES <= k < f * PTES + j then NO_ENTRY else old(entries)[k]
      {
        words[f * PTES + j] := 0;
        entries := entries[f * PTES + j := NO_ENTRY];
      }
    }

    /** The `memcpy` of one frame to another, from word `first` on. */
    method CopyFrame(s: nat, t: nat, first: nat)
      requires Valid() && s < POOL && t < POOL && s != t && first <= PTES
      modifies `entries, words
      ensures Valid()
      ensures forall f, k :: At(entries, f, k) == At(old(entries), if f == t && first <= k then s else f, k)
    {
      for j := first to PTES
        invariant Valid()
        invariant forall k :: 0 <= k < |entries| ==>
                    entries[k] == old(entries)[if t * PTES + first <= k < t * PTES + j
                                               then k - t * PTES + s * PTES else k]
      {
        words[t * PTES + j] := words[s * PTES + j];
        entries := entries[t * PTES + j := entries[s * PTES + j]];
      }
    }

    /** `sys_free_page_frame`, given the frame's virtual address. */
    method Free(addr: int)
      requires Valid() && PAGE_TABLE_START <= addr < PAGE_TABLE_START + POOL * FRAME_SIZE
      modifies `used, bitmap
      ensures Valid()
      ensures used == old(used) - {(addr - PAGE_TABLE_START) / FRAME_SIZE}
    {
      SetBit(bitmap, (addr - PAGE_TABLE_START) / FRAME_SIZE, 0);
      used := used - {(addr - PAGE_TABLE_START) / FRAME_SIZE};
    }

    /** `pde[i] = sys_alloc_page_frame() | 0b111`, in directory `d`: the frame of the table. */
    method InstallTable(d: int, i: int) returns (t: int)
      requires Valid() && d in used && 0 <= i < PTES && |used| < POOL
      modifies this, bitmap, words
      ensures Valid()
      ensures 0 <= t < POOL && t !in old(used) && used == old(used) + {t}
      ensures forall f, j :: At(entries, f, j) ==
                             if f == d && j == i then Entry(true, true, FrameAddr(t))
                             else if f == t then NO_ENTRY else At(old(entries), f, j)
    {
      FreeFrame(used);
      var phys := Alloc();
      t := FrameIndex(phys);
      FramesAligned(t);
      Enter(d, i, phys);
    }

    /** Storing one word, which stands for entry `e`. */
    method Put(f: int, j: int, w: bv32, ghost e: Entry)
      requires Valid() && 0 <= f < POOL && 0 <= j < PTES && Decode(w) == e
      modifies `entries, words
      ensures Valid()
      ensures forall g, k :: At(entries, g, k) == if g == f && k == j then e else At(old(entries), g, k)
    {
      words[f * PTES + j] := w;
      entries := entries[f * PTES + j := e];
    }

    method Load(f: int, j: int) returns (w: bv32)
      requires Valid() && 0 <= f < POOL && 0 <= j < PTES
      ensures Decode(w) == At(entries, f, j)
    {
      w := words[f * PTES + j];
    }

    /** `entry = addr | 0b111`. */
    method Enter(f: int, j: int, addr: int)
      requires Valid() && 0 <= f < POOL && 0 <= j < PTES && IsAligned(addr)
      modifies `entries, words
      ensures Valid()
      ensures forall g, k :: At(entries, g, k) ==
                if g == f && k == j then Entry(true, true, addr) else At(old(entries), g, k)
    {
      FreshEntry(addr);
      Put(f, j, WordOf(addr) | 7, Entry(true, true, addr));
    }

    /** `entry = addr | 0b11`. */
    method EnterKernel(f: int, j: int, addr: int)
      requires Valid() && 0 <= f < POOL && 0 <= j < PTES && IsAligned(addr)
      modifies `entries, words
      ensures Valid()
      ensures forall g, k :: At(entries, g, k) ==
                if g == f && k == j then Entry(true, true, addr) else At(old(entries), g, k)
    {
      KernelEntryWord(addr);
      Put(f, j, WordOf(addr) | 3, Entry(true, true, addr));
    }

    /** `entry &= 0xfffffffd`. */
    method Protect(f: int, j: int)
      requires Valid() && 0 <= f < POOL && 0 <= j < PTES
      modifies `entries, words
      ensures Valid()
      ensures forall g, k :: At(entries, g, k) ==
                if g == f && k == j then At(old(entries), f, j).(writable := false) else At(old(entries), g, k)
    {
      var w := Load(f, j);
      WriteProtected(w);
      Put(f, j, w & 0xfffffffd, At(entries, f, j).(writable := false));
    }

    /** `entry |= 0b10`. */
    method Enable(f: int, j: int)
      requires Valid() && 0 <= f < POOL && 0 <= j < PTES
      modifies `entries, words
      ensures Valid()
      ensures forall g, k :: At(entries, g, k) ==
                if g == f && k == j then At(old(entries), f, j).(writable := true) else At(old(entries), g, k)
    {
      var w := Load(f, j);
      WriteEnabled(w);
      Put(f, j, w | 2, At(entries, f, j).(writable := true));
    }

    /** `entry = 0`. */
    method Erase(f: int, j: int)
      requires Valid() && 0 <= f < POOL && 0 <= j < PTES
      modifies `entries, words
      ensures Valid()
      ensures forall g, k :: At(entries, g, k) == if g == f && k == j then NO_ENTRY else At(old(entries), g, k)
    {
      NoEntry();
      Put(f, j, 0, NO_ENTRY);
    }

    /** Reading one entry: its present and write bits, and `entry & 0xfffff000`. */
    function Get(f: int, j: int): (e: Entry)
      requires Valid() && 0 <= f < POOL && 0 <= j < PTES
      reads this, bitmap, words
      ensures e == At(entries, f, j)
    {
      Decode(words[f * PTES + j])
    }
  }
}
