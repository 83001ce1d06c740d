/**
 mem/paging.c over the arrays it updates: the page-fault handler, the copy of an address
 space by `fork` and its removal by `exec` and `exit`.
 */
module Paging {
  import opened Limits
  import opened PhysicalPages
  import opened FrameCopyMap
  import opened Cow
  import opened CowRefinement
  import opened PteBits
  import opened PageFrames
  import opened PageTables
  import opened ForkTables
  import opened DropTables

  /** Table `i` of process `p` is there, whether it was before or not. */
  ghost predicate TableEnsured(m: Mem, p: int, i: int, m': Mem) {
    && p in m.tabs && p in m'.tabs && i in m'.tabs[p] && KERNEL_FRAMES <= m'.tabs[p][i] < POOL
    && (if i in m.tabs[p] then m' == m
        else && m'.tabs[p][i] !in m.frames
             && m' == m.(tabs := m.tabs[p := m.tabs[p][i := m'.tabs[p][i]]], frames := m.frames + {m'.tabs[p][i]}))
  }

  lemma TouchComposed(m: Mem, m1: Mem, p: int, v: int, a: int, m': Mem)
    requires Inv(m) && TableEnsured(m, p, v / PTES, m1)
    requires p in m.spaces && v !in m.spaces[p] && 0 <= v < USER_PDES * PTES
    requires a !in m.used && a != 0 && a in m.ram
    requires m' == m1.(spaces := m1.spaces[p := m1.spaces[p][v := Entry(true, true, a)]], used := m1.used + {a})
    ensures FirstTouchRel(m, p, v, m.ram[a], m') && m'.spaces[p][v].addr == a && Inv(m')
  {
    NextKeepsInv(m, FirstTouch(p, v, m.ram[a]), m');
  }

  /** The pages handed out are those from 3 to 32 megabytes, and the pool of frames ends where they
      begin. */
  lemma PagesAndFrames(a: int, f: int)
    ensures IsPage(a) <==> 0x30_0000 <= a < 0x200_0000 && a % 0x1000 == 0
    ensures 0 <= f < POOL <==> 0x22_0000 <= FrameAddr(f) < 0x30_0000
  {
  }

  lemma PagesAligned(a: int)
    requires IsPage(a)
    ensures IsAligned(a)
  {
  }

  class PagingUnit {
    const pages: PageAllocator
    const shared: CopyMap
    const pool: FramePool
    var ram: map<int, Page>          // contents of the physical pages, by address
    ghost var dirs: map<int, int>    // pid -> frame of the directory `proc_table[pid]->pde` names

    ghost function Repr(): set<object> {
      {this, pages, pages.bitmap, shared, shared.slots, pool, pool.bitmap, pool.words}
    }

    ghost predicate Separate()
      reads Repr()
    {
      && pages.bitmap != pool.bitmap
      && pages.Valid() && pool.Valid() && shared.Valid()
      && (forall a :: IsPage(a) ==> a in ram)
    }

    /** The memory of module Cow these arrays stand for. */
    ghost function Abs(): Mem
      reads Repr()
    {
      Mem(dirs, AllTabs(pool.entries, dirs), pool.used, AllSpaces(pool.entries, dirs),
          shared.contents, pages.used, ram)
    }

    /** What the code needs of the words it walks. */
    ghost predicate Shape()
      reads Repr()
    {
      && Separate()
      && WithinReach(shared.slots[..])
      && WellFormed(pool.entries, dirs)
      && Apart(AllTabs(pool.entries, dirs), dirs, pool.used)
    }

    ghost predicate Valid()
      reads Repr()
    {
      Shape() && Inv(Abs())
    }

    /** `init_memory` and `init_paging`, over memory with any contents. */
    constructor (memory: seq<bv32>, ram: map<int, Page>)
      requires |memory| == POOL * PTES && forall a :: IsPage(a) ==> a in ram
      ensures Valid() && fresh(Repr()) && Init(Abs())
    {
      pages := new PageAllocator();
      shared := new CopyMap();
      pool := new FramePool(memory);
      this.ram := ram;
      dirs := map[];
      new;
      pool.InitPaging();
      NoSpaces(pool.entries, pool.used);
      InitInv(Abs());
    }

    /** `pde[pdeidx] = sys_alloc_page_frame() | 0b111`. */
    method AddTable(ghost pid: int, dir: int, pdeidx: int) returns (t: int)
      requires Shape() && pid in dirs && dirs[pid] == dir && 0 <= pdeidx < USER_PDES
      requires {0, 1, 2} <= pool.used && |pool.used| < POOL
      requires pdeidx !in TabsOf(pool.entries, dir)
      modifies pool, pool.bitmap, pool`entries, pool.words
      ensures Shape()
      ensures KERNEL_FRAMES <= t < POOL && t !in old(pool.used) && pool.used == old(pool.used) + {t}
      ensures AllTabs(pool.entries, dirs) ==
              old(AllTabs(pool.entries, dirs))[pid := old(AllTabs(pool.entries, dirs))[pid][pdeidx := t]]
      ensures AllSpaces(pool.entries, dirs) == old(AllSpaces(pool.entries, dirs))
    {
      ghost var w0, used := pool.entries, pool.used;
      t := pool.InstallTable(dir, pdeidx);
      TableAdded(w0, pool.entries, dirs, used, pid, pdeidx, t);
      ApartGrows(AllTabs(w0, dirs), dirs, used, pid, pdeidx, t);
    }

    /** A missing page table is allocated and entered in the directory. */
    method EnsureTable(ghost pid: int, dir: int, pdeidx: int)
      requires Shape() && pid in dirs && dirs[pid] == dir && 0 <= pdeidx < USER_PDES
      requires {0, 1, 2} <= pool.used
      requires pdeidx in Abs().tabs[pid] || |pool.used| < POOL
      modifies pool, pool.bitmap, pool`entries, pool.words
      ensures Shape()
      ensures TableEnsured(old(Abs()), pid, pdeidx, Abs())
    {
      assert Abs().tabs[pid] == TabsOf(pool.entries, dir);
      if !pool.Get(dir, pdeidx).present {
        var t := AddTable(pid, dir, pdeidx);
      }
    }

    /** `pte[pteidx] = a | 0b111`, in the table of page number `v`. */
    method EnterPte(ghost pid: int, dir: int, v: int, a: int)
      requires Shape() && pid in dirs && dirs[pid] == dir && IsPage(a)
      requires 0 <= v < USER_PDES * PTES && v / PTES in Abs().tabs[pid]
      modifies pool`entries, pool.words
      ensures Shape()
      ensures Abs() == old(Abs()).(spaces :=
                old(Abs()).spaces[pid := old(Abs()).spaces[pid][v := Entry(true, true, a)]])
    {
      ghost var w0 := pool.entries;
      var t := FrameIndex(pool.Get(dir, v / PTES).addr);
      PagesAligned(a);
      pool.Enter(t, v % PTES, a);
      PteStored(w0, pool.entries, dirs, pool.used, pid, v, Entry(true, true, a));
    }

    /** `pte[pteidx] |= 0b10`. */
    method EnablePte(ghost pid: int, dir: int, v: int)
      requires Shape() && Walks(pid, dir, v)
      modifies pool`entries, pool.words
      ensures Shape() && v in old(Abs()).spaces[pid]
      ensures Abs() == old(Abs()).(spaces :=
                old(Abs()).spaces[pid := old(Abs()).spaces[pid][v := old(Abs()).spaces[pid][v].(writable := true)]])
    {
      ghost var w0 := pool.entries;
      var pte := LoadPte(pid, dir, v);
      var t := FrameIndex(pool.Get(dir, v / PTES).addr);
      pool.Enable(t, v % PTES);
      PteStored(w0, pool.entries, dirs, pool.used, pid, v, pte.(writable := true));
    }

    /** `sys_alloc_phy_page`, as the fault handler calls it. */
    method AllocPage() returns (a: int)
      requires Shape() && pages.CanAllocate()
      modifies pages, pages.bitmap
      ensures Shape() && IsPage(a) && a !in old(Abs()).used
      ensures Abs() == old(Abs()).(used := old(Abs()).used + {a})
    {
      a := pages.Alloc();
    }

    /** The page-fault handler, first branch: the entry is not present. */
    method TouchAbsent(ghost pid: int, dir: int, v: int) returns (a: int)
      requires Shape() && pid in dirs && dirs[pid] == dir && {0, 1, 2} <= pool.used
      requires 0 <= v < USER_PDES * PTES
      requires pages.CanAllocate()
      requires v / PTES in Abs().tabs[pid] || |pool.used| < POOL
      modifies pages, pages.bitmap, pool, pool.bitmap, pool`entries, pool.words
      ensures Shape() && IsPage(a) && a !in old(Abs()).used
      ensures exists m1 :: TableEnsured(old(Abs()), pid, v / PTES, m1) &&
                Abs() == m1.(spaces := m1.spaces[pid := m1.spaces[pid][v := Entry(true, true, a)]],
                    used := m1.used + {a})
    {
      EnsureTable(pid, dir, v / PTES);
      a := AllocPage();
      EnterPte(pid, dir, v, a);
    }

    /** The entry of a mapped page, found through the directory. */
    ghost predicate Walks(pid: int, dir: int, v: int)
      requires Shape()
      reads Repr()
    {
      && pid in dirs && dirs[pid] == dir
      && v in SpaceOf(pool.entries, dir)
    }

    method LoadPte(ghost pid: int, dir: int, v: int) returns (e: Entry)
      requires Shape() && Walks(pid, dir, v)
      ensures v / PTES in Abs().tabs[pid] && v in Abs().spaces[pid] && Abs().spaces[pid][v] == e
    {
      var t := FrameIndex(pool.Get(dir, v / PTES).addr);
      assert TabsOf(pool.entries, dir)[v / PTES] == t && Abs().tabs[pid] == TabsOf(pool.entries, dir);
      e := pool.Get(t, v % PTES);
    }

    /** `dec` on behalf of a page table that lets go of a page. */
    method Unshare(addr: int) returns (left: int)
      requires Shape() && addr != 0
      modifies shared, shared.slots
      ensures Shape()
      ensures left == DecResult(old(shared.contents), addr)
      ensures Abs() == old(Abs()).(copies := DecFrom(old(shared.contents), addr))
    {
      left := shared.Dec(addr);
    }

    /** Overwriting a physical page. */
    method FillPage(a: int, page: Page)
      requires Shape()
      modifies this`ram
      ensures Shape() && ram == old(ram)[a := page]
      ensures Abs() == old(Abs()).(ram := old(ram)[a := page])
    {
      ram := ram[a := page];
    }

    /** The faulting process gets a copy of the page. */
    method GiveCopy(ghost pid: int, dir: int, v: int, addr: int) returns (a: int)
      requires Shape() && Walks(pid, dir, v) && addr in ram && pages.CanAllocate()
      modifies `ram, pages, pages.bitmap, pool`entries, pool.words
      ensures Shape() && IsPage(a) && a !in old(Abs()).used
      ensures Abs() == old(Abs()).(
                          spaces := old(Abs()).spaces[pid := old(Abs()).spaces[pid][v := Entry(true, true, a)]],
                          used := old(Abs()).used + {a},
                          ram := old(Abs()).ram[a := old(ram[addr])])
    {
      var pte := LoadPte(pid, dir, v);
      var buffer := ram[addr];
      a := AllocPage();
      EnterPte(pid, dir, v, a);
      FillPage(a, buffer);
    }

    /** The page-fault handler, second branch: a write to a read-only entry. The last
        process to map the page gets it back writable, any other a copy of its own. */
    method CopyOrEnable(ghost pid: int, dir: int, v: int)
      requires Shape() && Walks(pid, dir, v)
      requires !Abs().spaces[pid][v].writable
      requires Abs().spaces[pid][v].addr != 0 && Abs().spaces[pid][v].addr in ram
      requires DecResult(shared.contents, Abs().spaces[pid][v].addr) != 0 ==> pages.CanAllocate()
      modifies Repr()
      ensures Shape() && WriteFaultRel(old(Abs()), pid, v, Abs())
    {
      ghost var m0 := Abs();
      var pte := LoadPte(pid, dir, v);
      var left := Unshare(pte.addr);
      ghost var m1 := Abs();
      if left != 0 {
        var a := GiveCopy(pid, dir, v, pte.addr);
        assert Abs().spaces[pid][v].addr == a;
      } else {
        EnablePte(pid, dir, v);
      }
    }

    /** The handler's first branch, with what it does to the invariant. */
    method HandleAbsent(ghost pid: int, dir: int, v: int)
      requires Valid() && pid in dirs && dirs[pid] == dir
      requires 0 <= v < USER_PDES * PTES && v !in Abs().spaces[pid]
      requires pages.CanAllocate() && (v / PTES in Abs().tabs[pid] || |pool.used| < POOL)
      modifies Repr()
      ensures Valid() && dirs == old(dirs)
      ensures exists page :: FirstTouchRel(old(Abs()), pid, v, page, Abs())
    {
      ghost var m0 := Abs();
      var a := TouchAbsent(pid, dir, v);
      ghost var m1 :| TableEnsured(m0, pid, v / PTES, m1) &&
              Abs() == m1.(spaces := m1.spaces[pid := m1.spaces[pid][v := Entry(true, true, a)]],
                  used := m1.used + {a});
      TouchComposed(m0, m1, pid, v, a, Abs());
    }

    /** ... and its second. */
    method HandleWrite(ghost pid: int, dir: int, v: int)
      requires Valid() && pid in dirs && dirs[pid] == dir
      requires v in Abs().spaces[pid] && !Abs().spaces[pid][v].writable
      requires DecResult(shared.contents, Abs().spaces[pid][v].addr) != 0 ==> pages.CanAllocate()
      modifies Repr()
      ensures Valid() && dirs == old(dirs)
      ensures WriteFaultRel(old(Abs()), pid, v, Abs())
    {
      ghost var m0 := Abs();
      assert m0.spaces[pid] == SpaceOf(pool.entries, dir);
      CopyOrEnable(pid, dir, v);
      NextKeepsInv(m0, WriteFault(pid, v), Abs());
    }

    /** `page_fault_handler`, for a fault of process `pid` at a user address. */
    method PageFaultHandler(ghost pid: int, dir: int, vaddr: int, present: bool, rw: bool)
      requires Valid() && pid in dirs && dirs[pid] == dir
      requires 0 <= vaddr < USER_PDES * PTES * PAGE_SIZE
      requires present <==> vaddr / PAGE_SIZE in Abs().spaces[pid]
      requires present && rw ==> !Abs().spaces[pid][vaddr / PAGE_SIZE].writable
      requires !present ==>
                 pages.CanAllocate() && (vaddr / PAGE_SIZE / PTES in Abs().tabs[pid] || |pool.used| < POOL)
      requires present && rw && DecResult(shared.contents, Abs().spaces[pid][vaddr / PAGE_SIZE].addr) != 0 ==>
                 pages.CanAllocate()
      modifies Repr()
      ensures Valid() && dirs == old(dirs)
      ensures !present ==>
                exists page :: FirstTouchRel(old(Abs()), pid, vaddr / PAGE_SIZE, page, Abs())
      ensures present && rw ==> WriteFaultRel(old(Abs()), pid, vaddr / PAGE_SIZE, Abs())
      ensures present && !rw ==> Abs() == old(Abs())
    {
      if !present {
        HandleAbsent(pid, dir, vaddr / PAGE_SIZE);
      } else if rw {
        HandleWrite(pid, dir, vaddr / PAGE_SIZE);
      }
    }

    // ----- fork -----

    /** One turn of the inner loop of `sys_copy_pages`. */
    method ShareEntry(s: int, j: int)
      requires pool.Valid() && shared.Valid() && WithinReach(shared.slots[..])
      requires 0 <= s < POOL && 0 <= j < PTES
      requires At(pool.entries, s, j).present ==> At(pool.entries, s, j).addr != 0
      requires At(pool.entries, s, j).present ==> |AddTo(shared.contents, At(pool.entries, s, j).addr)| <= DEC_SLOTS
      modifies shared, shared.slots, pool`entries, pool.words
      ensures pool.Valid() && shared.Valid() && WithinReach(shared.slots[..])
      ensures shared.contents == if old(At(pool.entries, s, j)).present
                                 then AddTo(old(shared.contents), old(At(pool.entries, s, j)).addr)
                                 else old(shared.contents)
      ensures forall f, k :: At(pool.entries, f, k) ==
                             if f == s && k == j then Ro(old(At(pool.entries, s, k))) else old(At(pool.entries, f, k))
    {
      var e := pool.Get(s, j);
      if e.present {
        pool.Protect(s, j);
        ShareOne(e.addr);
      }
    }

    /** The inner loop of `sys_copy_pages`: every present entry of the parent's table `s`
        becomes read-only and its page counts one more mapping. */
    method ShareTable(s: int)
      requires pool.Valid() && shared.Valid() && WithinReach(shared.slots[..])
      requires 0 <= s < POOL && Addable(shared.contents, pool.entries, s)
      modifies shared, shared.slots, pool`entries, pool.words
      ensures pool.Valid() && shared.Valid() && WithinReach(shared.slots[..])
      ensures shared.contents == CountsAfter(old(shared.contents), old(pool.entries), s, PTES)
      ensures forall f, k :: 0 <= k < PTES ==>
                At(pool.entries, f, k) ==
                (if f == s then Ro(old(At(pool.entries, f, k))) else old(At(pool.entries, f, k)))
    {
      ghost var w0, c0 := pool.entries, shared.contents;
      for j := 0 to PTES
        invariant pool.Valid() && shared.Valid() && WithinReach(shared.slots[..])
        invariant shared.contents == CountsAfter(c0, w0, s, j)
        invariant forall f, k :: At(pool.entries, f, k) ==
                                 if f == s && 0 <= k < j then Ro(At(w0, s, k)) else At(w0, f, k)
      {
        assert At(pool.entries, s, j) == At(w0, s, j);
        ShareEntry(s, j);
      }
    }

    /** ... and then the table is copied. */
    method CopyTable(s: int, t: int)
      requires pool.Valid() && shared.Valid() && WithinReach(shared.slots[..])
      requires 0 <= s < POOL && 0 <= t < POOL && s != t && Addable(shared.contents, pool.entries, s)
      modifies shared, shared.slots, pool`entries, pool.words
      ensures pool.Valid() && shared.Valid() && WithinReach(shared.slots[..])
      ensures shared.contents == CountsAfter(old(shared.contents), old(pool.entries), s, PTES)
      ensures TableCopied(old(pool.entries), pool.entries, s, t)
    {
      ShareTable(s);
      pool.CopyFrame(s, t, 0);
    }

    /** `add`, with a free slot within the reach of `dec`. */
    method ShareOne(addr: int)
      requires shared.Valid() && WithinReach(shared.slots[..])
      requires addr != 0 && |AddTo(shared.contents, addr)| <= DEC_SLOTS
      modifies shared, shared.slots
      ensures shared.Valid() && WithinReach(shared.slots[..])
      ensures shared.contents == AddTo(old(shared.contents), addr)
    {
      if addr !in shared.contents {
        FreeSlotWithinReach(shared.slots[..], shared.contents);
      }
      shared.Add(addr);
    }

    /** One turn of the outer loop of `sys_copy_pages`, for a present directory entry that
        names table `p`. */
    method CopyEntry(p: int, d: int, i: int) returns (t: int)
      requires pool.Valid() && shared.Valid() && WithinReach(shared.slots[..])
      requires 0 <= p < POOL && 0 <= i < USER_PDES && p != d && {p, d} <= pool.used && |pool.used| < POOL
      requires Addable(shared.contents, pool.entries, p)
      modifies shared, shared.slots, pool, pool.words, pool.bitmap
      ensures pool.Valid() && shared.Valid() && WithinReach(shared.slots[..])
      ensures 0 <= t < POOL && t !in old(pool.used) && pool.used == old(pool.used) + {t}
      ensures TurnTaken(old(pool.entries), pool.entries, d, i, p, t)
      ensures shared.contents == CountsAfter(old(shared.contents), old(pool.entries), p, PTES)
    {
      ghost var w0, c0 := pool.entries, shared.contents;
      t := pool.InstallTable(d, i);
      ghost var w1 := pool.entries;
      assert forall j :: 0 <= j < PTES ==> At(w1, p, j) == At(w0, p, j);
      SameTable(c0, w0, w1, p);
      CopyTable(p, t);
      TurnComposed(w0, w1, pool.entries, d, i, p, t);
    }

    /** One turn of the outer loop of `sys_copy_pages`. */
    method CopyTurn(s: int, d: int, i: int, ghost tabs: map<int, int>) returns (ghost tabs': map<int, int>)
      requires pool.Valid() && shared.Valid() && WithinReach(shared.slots[..])
      requires 0 <= s < POOL && 0 <= d < POOL && d in pool.used && 0 <= i < USER_PDES
      requires Ready(Progress(pool.entries, pool.used, shared.contents, tabs), s, d, i)
      modifies shared, shared.slots, pool, pool.words, pool.bitmap
      ensures pool.Valid() && shared.Valid() && WithinReach(shared.slots[..])
      ensures Turn(old(Progress(pool.entries, pool.used, shared.contents, tabs)),
                   Progress(pool.entries, pool.used, shared.contents, tabs'), s, d, i)
      ensures d in pool.used
    {
      if pool.Get(s, i).present {
        var t := CopyEntry(FrameIndex(pool.Get(s, i).addr), d, i);
        tabs' := tabs[i := t];
      } else {
        pool.Erase(d, i);
        tabs' := tabs;
      }
    }

    /** The outer loop of `sys_copy_pages`: from the parent's directory `s` to the child's `d`. */
    method CopyDirectory(s: int, d: int, ghost was: seq<Entry>, ghost frames: set<int>)
      returns (ghost trace: seq<Progress>)
      requires pool.Valid() && shared.Valid() && WithinReach(shared.slots[..])
      requires 0 <= s < POOL && 0 <= d < POOL && d in pool.used
      requires Start(was, shared.contents, Progress(pool.entries, pool.used, shared.contents, map[]), s, d, frames)
      modifies shared, shared.slots, pool, pool.words, pool.bitmap
      ensures pool.Valid() && shared.Valid() && WithinReach(shared.slots[..])
      ensures |trace| == USER_PDES + 1
      ensures trace[0] == old(Progress(pool.entries, pool.used, shared.contents, map[]))
      ensures trace[USER_PDES] == Progress(pool.entries, pool.used, shared.contents, trace[USER_PDES].tabs)
      ensures forall k :: 0 <= k < USER_PDES ==> Turn(trace[k], trace[k + 1], s, d, k)
    {
      ghost var tabs := map[];
      trace := [Progress(pool.entries, pool.used, shared.contents, tabs)];
      for i := 0 to USER_PDES
        invariant pool.Valid() && shared.Valid() && WithinReach(shared.slots[..])
        invariant |trace| == i + 1 && trace[i] == Progress(pool.entries, pool.used, shared.contents, tabs)
        invariant trace[0] == old(Progress(pool.entries, pool.used, shared.contents, map[]))
        invariant forall k :: 0 <= k < i ==> Turn(trace[k], trace[k + 1], s, d, k)
        invariant d in pool.used
      {
        TurnsReady(was, trace, s, d, i, frames);
        tabs := CopyTurn(s, d, i, tabs);
        trace := trace + [Progress(pool.entries, pool.used, shared.contents, tabs)];
      }
    }

    /** `dest->pde = page_phy_to_vir(sys_alloc_page_frame())`. */
    method NewDirectory(s: int) returns (d: int)
      requires pool.Valid() && |pool.used| < POOL && s in pool.used && {0, 1, 2} <= pool.used
      requires TablesOf(pool.entries, s, pool.used) && Shareable(shared.contents, pool.entries, s)
      requires |pool.used| + 1 + |TabsOf(pool.entries, s)| <= POOL
      modifies pool, pool.words, pool.bitmap
      ensures pool.Valid() && 0 <= d < POOL && d in pool.used && d !in old(pool.used)
      ensures Start(old(pool.entries), shared.contents, Progress(pool.entries, pool.used, shared.contents, map[]),
                    s, d, old(pool.used))
    {
      FreeFrame(pool.used);
      var phys := pool.Alloc();
      d := FrameIndex(phys);
    }

    /** `sys_copy_pages` on the words: a directory, the loop, and the kernel's entries. */
    method BuildChild(s: int) returns (d: int, ghost trace: seq<Progress>)
      requires pool.Valid() && shared.Valid() && WithinReach(shared.slots[..])
      requires 0 <= s < POOL && s in pool.used && {0, 1, 2} <= pool.used
      requires TablesOf(pool.entries, s, pool.used) && Shareable(shared.contents, pool.entries, s)
      requires |pool.used| + 1 + |TabsOf(pool.entries, s)| <= POOL
      modifies shared, shared.slots, pool, pool.words, pool.bitmap
      ensures pool.Valid() && shared.Valid() && WithinReach(shared.slots[..])
      ensures ChildBuilt(old(pool.entries), trace, pool.entries, old(pool.used), old(shared.contents), s, d)
      ensures trace[USER_PDES].used == pool.used && trace[USER_PDES].counts == shared.contents
    {
      ghost var was, frames := pool.entries, pool.used;
      d := NewDirectory(s);
      trace := CopyDirectory(s, d, was, frames);
      pool.CopyFrame(s, d, USER_PDES);
    }

    method AddChild(ghost q: int, s: int) returns (d: int, ghost trace: seq<Progress>)
      requires Separate() && WithinReach(shared.slots[..])
      requires 0 <= s < POOL && s in pool.used && {0, 1, 2} <= pool.used
      requires TablesOf(pool.entries, s, pool.used) && Shareable(shared.contents, pool.entries, s)
      requires |pool.used| + 1 + |TabsOf(pool.entries, s)| <= POOL
      modifies Repr()
      ensures Separate() && WithinReach(shared.slots[..])
      ensures dirs == old(dirs)[q := d] && pages.used == old(pages.used) && ram == old(ram)
      ensures ChildBuilt(old(pool.entries), trace, pool.entries, old(pool.used), old(shared.contents), s, d)
      ensures trace[USER_PDES].used == pool.used && trace[USER_PDES].counts == shared.contents
    {
      d, trace := BuildChild(s);
      dirs := dirs[q := d];
    }

    method CopySpace(ghost p: int, ghost q: int, s: int) returns (d: int)
      requires Shape() && p in dirs && dirs[p] == s && q !in dirs && 0 <= q < PROC_MAX
      requires CanDuplicate(dirs, pool.used, shared.contents, pool.entries, p)
      modifies Repr()
      ensures Shape() && dirs == old(dirs)[q := d]
      ensures ForkRel(old(Abs()), p, q, Abs())
    {
      ghost var m, was := Abs(), pool.entries;
      ForkStarts(m.dirs, m.frames, m.copies, was, p);
      ghost var trace;
      d, trace := AddChild(q, s);
      ForkComposed(m, was, trace, pool.entries, p, q, d);
    }

    /** `sys_copy_pages`, from process `p` to the new process `q`. */
    method CopyPages(ghost p: int, ghost q: int, s: int) returns (d: int)
      requires Valid() && p in dirs && dirs[p] == s && q !in dirs && 0 <= q < PROC_MAX
      requires |pool.used| + 1 + |Abs().tabs[p]| <= POOL
      requires |AddAll(shared.contents, Addrs(Abs().spaces[p]))| <= DEC_SLOTS
      modifies Repr()
      ensures Valid() && dirs == old(dirs)[q := d]
      ensures ForkRel(old(Abs()), p, q, Abs())
    {
      ghost var m := Abs();
      InvCanDuplicate(m, pool.entries, p);
      d := CopySpace(p, q, s);
      NextKeepsInv(m, Fork(p, q), Abs());
    }

    // ----- exec and exit -----

    ghost function Held(): Holdings
      reads Repr()
    {
      Holdings(shared.contents, pages.used)
    }

    ghost function AtClearing(): Clearing
      reads Repr()
    {
      Clearing(pool.entries, pool.used, Held())
    }

    /** The body of the inner loop of `sys_cleanup_memory`, for a present entry. */
    method DropPage(addr: int)
      requires Separate() && WithinReach(shared.slots[..])
      requires addr != 0 && (DecResult(shared.contents, addr) == 0 ==> addr in pages.used)
      modifies shared, shared.slots, pages`used, pages.bitmap
      ensures Separate() && WithinReach(shared.slots[..])
      ensures Held() == LetGo(old(Held()), addr)
    {
      var left := shared.Dec(addr);
      if left == 0 {
        pages.Free(addr);
      }
    }

    /** The inner loop of `sys_cleanup_memory`. */
    method DropTable(t: int)
      requires Separate() && WithinReach(shared.slots[..])
      requires 0 <= t < POOL && Droppable(Held(), pool.entries, t)
      modifies shared, shared.slots, pages`used, pages.bitmap
      ensures Separate() && WithinReach(shared.slots[..])
      ensures Held() == TableLetGo(old(Held()), pool.entries, t, PTES)
    {
      ghost var x := Held();
      for j := 0 to PTES
        invariant Separate() && WithinReach(shared.slots[..])
        invariant Held() == TableLetGo(x, pool.entries, t, j)
      {
        var e := pool.Get(t, j);
        if e.present {
          DropPage(e.addr);
        }
      }
    }

    /** One turn of the outer loop of `sys_cleanup_memory`. */
    method ClearEntry(d: int, i: int)
      requires Separate() && WithinReach(shared.slots[..])
      requires 0 <= d < POOL && 0 <= i < USER_PDES && Clearable(AtClearing(), d, i)
      modifies shared, shared.slots, pages`used, pages.bitmap, pool`used, pool`entries, pool.words, pool.bitmap
      ensures Separate() && WithinReach(shared.slots[..])
      ensures Cleared(old(AtClearing()), AtClearing(), d, i)
    {
      var e := pool.Get(d, i);
      if e.present {
        var pte := PagePhyToVir(e.addr);
        DropTable(FrameIndex(e.addr));
        pool.Free(pte);
        pool.Erase(d, i);
      }
    }

    /** The outer loop of `sys_cleanup_memory`. */
    method ClearDirectory(d: int) returns (ghost trace: seq<Clearing>)
      requires Separate() && WithinReach(shared.slots[..])
      requires 0 <= d < POOL && CanClear(AtClearing(), d)
      modifies shared, shared.slots, pages`used, pages.bitmap, pool`used, pool`entries, pool.words, pool.bitmap
      ensures Separate() && WithinReach(shared.slots[..])
      ensures |trace| == USER_PDES + 1 && trace[0] == old(AtClearing()) && trace[USER_PDES] == AtClearing()
      ensures forall k :: 0 <= k < USER_PDES ==> Cleared(trace[k], trace[k + 1], d, k)
    {
      trace := [AtClearing()];
      for i := 0 to USER_PDES
        invariant Separate() && WithinReach(shared.slots[..])
        invariant |trace| == i + 1 && trace[0] == old(AtClearing()) && trace[i] == AtClearing()
        invariant forall k :: 0 <= k < i ==> Cleared(trace[k], trace[k + 1], d, k)
      {
        ClearsReady(trace, d, i);
        ClearEntry(d, i);
        trace := trace + [AtClearing()];
      }
    }

    method ClearSpace(ghost pid: int, d: int)
      requires Valid() && pid in dirs && dirs[pid] == d
      modifies shared, shared.slots, pages`used, pages.bitmap, pool`used, pool`entries, pool.words, pool.bitmap
      ensures Separate() && WithinReach(shared.slots[..]) && WellFormed(pool.entries, dirs)
      ensures pages.used == old(pages.used) - Released(old(Abs()), pid)
      ensures DropRel(old(Abs()), pid, Abs())
    {
      ghost var m, was := Abs(), pool.entries;
      InvCanClear(m, was, pid);
      ghost var trace := ClearDirectory(d);
      ClearsReach(trace, d, USER_PDES);
      DropDone(m, was, AtClearing(), pid);
    }

    /** `sys_cleanup_memory`: process `pid` lets go of its memory; a page is freed iff
        nothing else maps it. */
    method CleanupMemory(ghost pid: int, d: int)
      requires Valid() && pid in dirs && dirs[pid] == d
      modifies shared, shared.slots, pages`used, pages.bitmap, pool`used, pool`entries, pool.words, pool.bitmap
      ensures Valid()
      ensures pages.used == old(pages.used) - Released(old(Abs()), pid)
      ensures DropRel(old(Abs()), pid, Abs())
    {
      ghost var m := Abs();
      ClearSpace(pid, d);
      DropShape(m, pid, Abs());
    }

    // ----- the directories -----

    method AddDirectory(ghost q: int) returns (d: int)
      requires Separate() && |pool.used| < POOL && 0 in pool.used
      modifies this`dirs, pool, pool.words, pool.bitmap
      ensures Separate() && dirs == old(dirs)[q := d]
      ensures 0 <= d < POOL && d !in old(pool.used) && pool.used == old(pool.used) + {d}
      ensures forall f, j :: At(pool.entries, f, j) ==
                if f != d then At(old(pool.entries), f, j)
                else if USER_PDES <= j then At(old(pool.entries), 0, j) else NO_ENTRY
    {
      FreeFrame(pool.used);
      var phys := pool.Alloc();
      d := FrameIndex(phys);
      pool.CopyFrame(0, d, USER_PDES);
      dirs := dirs[q := d];
    }

    /** `sys_create_proc_page_table`. */
    method CreateProcPageTable(ghost q: int) returns (d: int)
      requires Valid() && q !in dirs && 0 <= q < PROC_MAX && |pool.used| < POOL
      modifies this`dirs, pool, pool.words, pool.bitmap
      ensures Valid() && dirs == old(dirs)[q := d]
      ensures SpawnRel(old(Abs()), q, Abs())
    {
      ghost var m, was := Abs(), pool.entries;
      assert 0 in m.frames && 1 in m.frames && 2 in m.frames;
      d := AddDirectory(q);
      DirectoryAdded(m, was, pool.entries, q, d, Abs());
      SpawnShape(m, q, Abs());
    }

    /** `sys_free_page_frame(proc_table[i]->pde)`, as `schedule` calls it for a dead process. */
    method FreeDirectory(ghost p: int, d: int)
      requires Valid() && p in dirs && dirs[p] == d && Abs().tabs[p] == map[]
      modifies this`dirs, pool`used, pool.bitmap
      ensures Valid() && dirs == old(dirs) - {p}
      ensures ReapRel(old(Abs()), p, Abs())
    {
      ghost var m, words := Abs(), pool.entries;
      pool.Free(PagePhyToVir(FrameAddr(d)));
      dirs := dirs - {p};
      DirectoryRemoved(m, words, p, Abs());
    }
  }
}
