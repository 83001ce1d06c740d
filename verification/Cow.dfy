/**
 Copy-on-write paging (mem/paging.c) as a machine over whole address spaces, and the
 machine it stands for, in which `fork` copies every page at once.
 */
module Cow {
  import opened Limits
  import opened FrameCopyMap

  const POOL := 224          // page-table frames between PAGE_TABLE_START and 0xc0600000
  const KERNEL_FRAMES := 3   // the base directory and its two tables
  const USER_PDES := 768
  const PTES := 1024

  type Page = seq<bv8>

  /** A page-table entry: the present bit, the write bit and `entry & 0xfffff000`. */
  datatype Entry = Entry(present: bool, writable: bool, addr: int)

  /** The present user entries of one address space, by virtual page number. */
  type Space = map<int, Entry>

  datatype Mem = Mem(
    dirs: map<int, int>,            // pid -> frame of its page directory
    tabs: map<int, map<int, int>>,  // pid -> user directory index -> frame of that page table
    frames: set<int>,               // set bits of page_bitmap
    spaces: map<int, Space>,        // pid -> present user pages
    copies: map<int, int>,          // frame_copy_map
    used: set<int>,                 // set bits of mem_bitmap, as page addresses
    ram: map<int, Page>             // contents of the physical user pages
  )

  // ----- one step of the machine -----

  datatype Step =
    | Spawn(p: int)                                  // sys_create_proc_page_table
    | Fork(p: int, q: int)                           // sys_copy_pages
    | FirstTouch(p: int, v: int, page: Page)         // page fault, entry not present
    | WriteFault(p: int, v: int)                     // page fault, write to a read-only entry
    | Load(p: int, v: int, offset: int, b: bv8)      // user read
    | Store(p: int, v: int, offset: int, b: bv8)     // user write
    | Drop(p: int)                                   // sys_cleanup_memory, from exec and exit
    | Reap(p: int)                                   // schedule frees the directory of a dead process

  ghost function Addrs(s: Space): (r: set<int>)
    ensures forall v :: v in s ==> s[v].addr in r
    ensures forall a :: a in r ==> exists v :: v in s && s[v].addr == a
  {
    set v | v in s :: s[v].addr
  }

  /** The frames of a set of page tables. */
  ghost function TableFrames(t: map<int, int>): (r: set<int>)
    ensures forall i :: i in t ==> t[i] in r
    ensures forall f :: f in r ==> exists i :: i in t && t[i] == f
  {
    set i | i in t :: t[i]
  }

  function ReadOnly(s: Space): Space {
    map v | v in s :: s[v].(writable := false)
  }

  ghost predicate SpawnRel(m: Mem, p: int, m': Mem) {
    && p !in m.spaces && 0 <= p < PROC_MAX
    && p in m'.dirs && m'.dirs[p] !in m.frames && KERNEL_FRAMES <= m'.dirs[p] < POOL
    && m' == m.(dirs := m.dirs[p := m'.dirs[p]],
                tabs := m.tabs[p := map[]],
                frames := m.frames + {m'.dirs[p]},
                spaces := m.spaces[p := map[]])
  }

  /** The frames a fork takes from the pool: a directory and as many tables as the parent has. */
  ghost function NewFrames(d: int, t: map<int, int>): set<int> {
    {d} + TableFrames(t)
  }

  ghost predicate ForkRel(m: Mem, p: int, q: int, m': Mem) {
    && p in m.spaces && q !in m.spaces && 0 <= q < PROC_MAX && p in m.tabs
    && q in m'.dirs && q in m'.tabs
    && var d, t := m'.dirs[q], m'.tabs[q];
    && t.Keys == m.tabs[p].Keys
    && (forall i, j :: i in t && j in t && i != j ==> t[i] != t[j])
    && d !in TableFrames(t) && KERNEL_FRAMES <= d < POOL && (forall i :: i in t ==> KERNEL_FRAMES <= t[i] < POOL)
    && NewFrames(d, t) !! m.frames
    && m' == m.(dirs := m.dirs[q := d],
                tabs := m.tabs[q := t],
                frames := m.frames + NewFrames(d, t),
                spaces := m.spaces[p := ReadOnly(m.spaces[p])][q := ReadOnly(m.spaces[p])],
                copies := AddAll(m.copies, Addrs(m.spaces[p])))
  }

  ghost predicate FirstTouchRel(m: Mem, p: int, v: int, page: Page, m': Mem) {
    && p in m.spaces && v !in m.spaces[p] && 0 <= v < USER_PDES * PTES && p in m.tabs
    && p in m'.spaces && v in m'.spaces[p] && p in m'.tabs
    && var a := m'.spaces[p][v].addr;
    && a !in m.used && a != 0 && a in m.ram && m.ram[a] == page
    && var t := v / PTES;
    && t in m'.tabs[p] && KERNEL_FRAMES <= m'.tabs[p][t] < POOL
    && (t in m.tabs[p] ==> m'.tabs == m.tabs && m'.frames == m.frames)
    && (t !in m.tabs[p] ==>
          && m'.tabs[p][t] !in m.frames
          && m'.tabs == m.tabs[p := m.tabs[p][t := m'.tabs[p][t]]]
          && m'.frames == m.frames + {m'.tabs[p][t]})
    && m' == m.(tabs := m'.tabs, frames := m'.frames,
                spaces := m.spaces[p := m.spaces[p][v := Entry(true, true, a)]],
                used := m.used + {a})
  }

  ghost predicate WriteFaultRel(m: Mem, p: int, v: int, m': Mem) {
    && p in m.spaces && v in m.spaces[p] && !m.spaces[p][v].writable
    && p in m'.spaces && v in m'.spaces[p]
    && var a, n := m.spaces[p][v].addr, m'.spaces[p][v].addr;
    if DecResult(m.copies, a) != 0 then
      && n !in m.used && n != 0 && n in m.ram && a in m.ram
      && m' == m.(spaces := m.spaces[p := m.spaces[p][v := Entry(true, true, n)]],
                  copies := DecFrom(m.copies, a),
                  used := m.used + {n},
                  ram := m.ram[n := m.ram[a]])
    else
      m' == m.(spaces := m.spaces[p := m.spaces[p][v := m.spaces[p][v].(writable := true)]],
               copies := DecFrom(m.copies, a))
  }

  /** Process `p` maps page number `v`, and the offset lies in the page. */
  ghost predicate InPage(m: Mem, p: int, v: int, offset: int) {
    && p in m.spaces && v in m.spaces[p] && m.spaces[p][v].addr in m.ram
    && 0 <= offset < |m.ram[m.spaces[p][v].addr]|
  }

  ghost predicate LoadRel(m: Mem, p: int, v: int, offset: int, b: bv8, m': Mem) {
    InPage(m, p, v, offset) && b == m.ram[m.spaces[p][v].addr][offset] && m' == m
  }

  /** The memory after a byte of a mapped page is overwritten in place. */
  ghost function Poke(m: Mem, p: int, v: int, offset: int, b: bv8): Mem
    requires InPage(m, p, v, offset)
  {
    var a := m.spaces[p][v].addr;
    m.(ram := m.ram[a := m.ram[a][offset := b]])
  }

  ghost predicate StoreRel(m: Mem, p: int, v: int, offset: int, b: bv8, m': Mem) {
    InPage(m, p, v, offset) && m.spaces[p][v].writable && m' == Poke(m, p, v, offset, b)
  }

  /** The pages `sys_cleanup_memory` hands to `sys_free_phy_page`. */
  ghost function Released(m: Mem, p: int): (r: set<int>)
    requires p in m.spaces
  {
    set a | a in Addrs(m.spaces[p]) && DecResult(m.copies, a) == 0
  }

  /** Exactly the released pages become available again, as they do with the index that
      `sys_free_phy_page` was to compute (PhysicalPages.Free). */
  ghost predicate DropRel(m: Mem, p: int, m': Mem) {
    && p in m.spaces && p in m.tabs
    && m' == m.(tabs := m.tabs[p := map[]],
                frames := m.frames - TableFrames(m.tabs[p]),
                spaces := m.spaces[p := map[]],
                copies := DecAll(m.copies, Addrs(m.spaces[p])),
                used := m.used - Released(m, p))
  }

  ghost predicate ReapRel(m: Mem, p: int, m': Mem) {
    && p in m.dirs && p in m.tabs && m.tabs[p] == map[]
    && m' == m.(dirs := m.dirs - {p}, tabs := m.tabs - {p},
                frames := m.frames - {m.dirs[p]}, spaces := m.spaces - {p})
  }

  ghost predicate Next(m: Mem, step: Step, m': Mem) {
    match step
    case Spawn(p) => SpawnRel(m, p, m')
    case Fork(p, q) => ForkRel(m, p, q, m')
    case FirstTouch(p, v, page) => FirstTouchRel(m, p, v, page, m')
    case WriteFault(p, v) => WriteFaultRel(m, p, v, m')
    case Load(p, v, offset, b) => LoadRel(m, p, v, offset, b, m')
    case Store(p, v, offset, b) => StoreRel(m, p, v, offset, b, m')
    case Drop(p) => DropRel(m, p, m')
    case Reap(p) => ReapRel(m, p, m')
  }

  /** After `init_paging` and `init_memory`: no address space, nothing shared. */
  ghost predicate Init(m: Mem) {
    && m.dirs == map[] && m.tabs == map[] && m.spaces == map[] && m.copies == map[] && m.used == {}
    && m.frames == {0, 1, 2}
  }

  // ----- the reference machine: fork copies every page -----

  /** The private memory of one process, by virtual page number. */
  datatype Memory = Memory(pages: map<int, Page>)

  type Eager = map<int, Memory>

  function PutPage(e: Eager, p: int, v: int, page: Page): Eager
    requires p in e
  {
    e[p := Memory(e[p].pages[v := page])]
  }

  ghost predicate EagerNext(e: Eager, step: Step, e': Eager) {
    match step
    case Spawn(p) => p !in e && e' == e[p := Memory(map[])]
    case Fork(p, q) => p in e && q !in e && e' == e[q := e[p]]
    case FirstTouch(p, v, page) => p in e && v !in e[p].pages && e' == PutPage(e, p, v, page)
    case WriteFault(p, v) => e' == e
    case Load(p, v, offset, b) =>
      p in e && v in e[p].pages && 0 <= offset < |e[p].pages[v]| && b == e[p].pages[v][offset] && e' == e
    case Store(p, v, offset, b) =>
      p in e && v in e[p].pages && 0 <= offset < |e[p].pages[v]| && e' == PutPage(e, p, v, e[p].pages[v][offset := b])
    case Drop(p) => p in e && e' == e[p := Memory(map[])]
    case Reap(p) => p in e && e' == e - {p}
  }

  /** The contents of an address space. */
  ghost function SpaceView(s: Space, ram: map<int, Page>): Memory {
    Memory(map v | v in s && s[v].addr in ram :: ram[s[v].addr])
  }

  /** What each process sees of memory. */
  ghost function View(m: Mem): Eager {
    ViewOf(m.spaces, m.ram)
  }

  ghost function ViewOf(spaces: map<int, Space>, ram: map<int, Page>): Eager {
    map p | p in spaces :: SpaceView(spaces[p], ram)
  }

  /** Every mapped page is an allocated one. */
  ghost predicate Mapped(m: Mem) {
    forall p, v {:trigger m.spaces[p][v]} :: p in m.spaces && v in m.spaces[p] ==>
      && m.spaces[p][v].present
      && m.spaces[p][v].addr in m.used && m.spaces[p][v].addr != 0 && m.spaces[p][v].addr in m.ram
  }

  // ----- the invariants -----

  ghost predicate MapsPage(s: Space, a: int) {
    exists v :: v in s && s[v].addr == a
  }

  /** The processes that map a page. */
  ghost function Sharers(m: Mem, a: int): set<int> {
    set p | p in m.spaces && MapsPage(m.spaces[p], a)
  }

  /** A page appears at one virtual page number only, in whichever spaces map it; so no
      space maps a page twice. */
  ghost predicate OnePlace(m: Mem) {
    forall p, v, q, w ::
      p in m.spaces && v in m.spaces[p] && q in m.spaces && w in m.spaces[q] && v != w ==>
        m.spaces[p][v].addr != m.spaces[q][w].addr
  }

  /** The counting invariant of `frame_copy_map`: a tracked page has as many mappings as it
      counts, an untracked one has at most one. */
  ghost predicate Counted(m: Mem) {
    forall a {:trigger Sharers(m, a)} ::
      if a in m.copies then m.copies[a] == |Sharers(m, a)| >= 1 else |Sharers(m, a)| <= 1
  }

  /** A page is writable where it is mapped iff it is not tracked. */
  ghost predicate WritableUnlessTracked(m: Mem) {
    forall p, v {:trigger m.spaces[p][v]} :: p in m.spaces && v in m.spaces[p] ==>
      (m.spaces[p][v].writable <==> m.spaces[p][v].addr !in m.copies)
  }

  ghost predicate Sharing(m: Mem) {
    Mapped(m) && OnePlace(m) && Counted(m) && WritableUnlessTracked(m)
  }

  /** What a page-table frame serves as: the directory of a process, or one of its tables. */
  datatype Role = Directory(p: int) | Table(p: int, i: int)

  ghost predicate HasRole(m: Mem, r: Role) {
    match r
    case Directory(p) => p in m.dirs
    case Table(p, i) => p in m.tabs && i in m.tabs[p]
  }

  ghost function FrameOf(m: Mem, r: Role): int
    requires HasRole(m, r)
  {
    match r
    case Directory(p) => m.dirs[p]
    case Table(p, i) => m.tabs[p][i]
  }

  ghost predicate Serves(m: Mem, r: Role, f: int) {
    HasRole(m, r) && FrameOf(m, r) == f
  }

  /** Each frame in use is a kernel frame or has exactly one role. */
  ghost predicate OneRoleEach(m: Mem) {
    && (forall r :: HasRole(m, r) ==> KERNEL_FRAMES <= FrameOf(m, r) < POOL && FrameOf(m, r) in m.frames)
    && (forall r, s :: HasRole(m, r) && HasRole(m, s) && r != s ==> FrameOf(m, r) != FrameOf(m, s))
    && (forall f :: 0 <= f < KERNEL_FRAMES ==> f in m.frames)
    && (forall f :: f in m.frames && !(0 <= f < KERNEL_FRAMES) ==> exists r :: Serves(m, r, f))
  }

  /** Every process has a directory, and a table for every page it maps. */
  ghost predicate TablesCover(m: Mem) {
    && m.dirs.Keys == m.spaces.Keys && m.tabs.Keys == m.spaces.Keys
    && (forall p :: p in m.dirs ==> 0 <= p < PROC_MAX)
    && (forall p, i {:trigger m.tabs[p][i]} :: p in m.tabs && i in m.tabs[p] ==> 0 <= i < USER_PDES)
    && (forall p, v {:trigger m.spaces[p][v]} :: p in m.spaces && v in m.spaces[p] ==>
          0 <= v < USER_PDES * PTES && v / PTES in m.tabs[p])
  }

  ghost predicate Owned(m: Mem) {
    OneRoleEach(m) && TablesCover(m)
  }

  ghost predicate Inv(m: Mem) {
    Sharing(m) && Owned(m)
  }
}
