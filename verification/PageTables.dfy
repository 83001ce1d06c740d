/**
 What the directory and table words in the pool mean: the address spaces of module Cow.
 */
module PageTables {
  import opened Cow
  import opened FrameCopyMap
  import opened PageFrames
  import opened MapLemmas

  /** The tables a directory names. */
  ghost function TabsOf(words: seq<Entry>, d: int): map<int, int> {
    map i | 0 <= i < USER_PDES && At(words, d, i).present :: FrameIndex(At(words, d, i).addr)
  }

  /** The entry the processor finds for page number `v`. */
  ghost function PteAt(words: seq<Entry>, d: int, v: int): Entry {
    var e := At(words, d, v / PTES);
    if 0 <= v < USER_PDES * PTES && e.present then At(words, FrameIndex(e.addr), v % PTES) else NO_ENTRY
  }

  ghost function SpaceOf(words: seq<Entry>, d: int): Space {
    map v | 0 <= v < USER_PDES * PTES && PteAt(words, d, v).present :: PteAt(words, d, v)
  }

  ghost function AllTabs(words: seq<Entry>, dirs: map<int, int>): map<int, map<int, int>> {
    map p | p in dirs :: TabsOf(words, dirs[p])
  }

  ghost function AllSpaces(words: seq<Entry>, dirs: map<int, int>): map<int, Space> {
    map p | p in dirs :: SpaceOf(words, dirs[p])
  }

  /** The kernel's frames hold what `init_paging` put there, every directory shares the kernel's
      entries with the base directory, and its user entries point at frames of the pool. */
  ghost predicate WellFormed(words: seq<Entry>, dirs: map<int, int>) {
    && |words| == POOL * PTES
    && (forall f, j {:trigger At(words, f, j)} :: 0 <= f < KERNEL_FRAMES && 0 <= j < PTES ==>
           At(words, f, j) == KernelEntry(f, j))
    && (forall p, i {:trigger At(words, dirs[p], i)} ::
          p in dirs && 0 <= i < USER_PDES && At(words, dirs[p], i).present ==>
          At(words, dirs[p], i).addr == FrameAddr(FrameIndex(At(words, dirs[p], i).addr)))
    && (forall p, i {:trigger At(words, dirs[p], i)} :: p in dirs && USER_PDES <= i < PTES ==>
          At(words, dirs[p], i) == At(words, 0, i))
  }

  /** An address space does not change if its directory and its tables do not. */
  lemma SpaceUntouched(words: seq<Entry>, words': seq<Entry>, d: int)
    requires forall i :: 0 <= i < USER_PDES ==> At(words', d, i) == At(words, d, i)
    requires forall i, j :: i in TabsOf(words, d) && 0 <= j < PTES ==>
               At(words', TabsOf(words, d)[i], j) == At(words, TabsOf(words, d)[i], j)
    ensures TabsOf(words', d) == TabsOf(words, d) && SpaceOf(words', d) == SpaceOf(words, d)
  {
    forall v | 0 <= v < USER_PDES * PTES ensures PteAt(words', d, v) == PteAt(words, d, v) {
      if At(words, d, v / PTES).present {
        assert v / PTES in TabsOf(words, d);
      }
    }
  }

  /** Storing one present entry in a table of the space. */
  lemma EntryStored(words: seq<Entry>, words': seq<Entry>, d: int, v: int, e: Entry)
    requires 0 <= v < USER_PDES * PTES && v / PTES in TabsOf(words, d) && e.present
    requires d != TabsOf(words, d)[v / PTES]
    requires 0 <= TabsOf(words, d)[v / PTES] < POOL && |words'| == POOL * PTES
    requires forall i :: i in TabsOf(words, d) && i != v / PTES ==> TabsOf(words, d)[i] != TabsOf(words, d)[v / PTES]
    requires forall f, j :: At(words', f, j) ==
               if f == TabsOf(words, d)[v / PTES] && j == v % PTES then e else At(words, f, j)
    ensures TabsOf(words', d) == TabsOf(words, d)
    ensures SpaceOf(words', d) == SpaceOf(words, d)[v := e]
  {
    forall w | 0 <= w < USER_PDES * PTES ensures PteAt(words', d, w) == if w == v then e else PteAt(words, d, w) {
      if At(words, d, w / PTES).present {
        assert w / PTES in TabsOf(words, d);
        assert w / PTES == v / PTES && w % PTES == v % PTES ==> w == v;
      }
    }
  }

  /** A cleared frame becomes a table of the space. */
  lemma TableInstalled(words: seq<Entry>, words': seq<Entry>, d: int, i: int, t: int)
    requires 0 <= i < USER_PDES && i !in TabsOf(words, d) && d != t
    requires forall k :: 0 <= k < USER_PDES ==>
               At(words', d, k) == if k == i then Entry(true, true, FrameAddr(t)) else At(words, d, k)
    requires forall j :: 0 <= j < PTES ==> !At(words', t, j).present
    requires forall k, j :: k in TabsOf(words, d) && 0 <= j < PTES ==>
               At(words', TabsOf(words, d)[k], j) == At(words, TabsOf(words, d)[k], j)
    ensures TabsOf(words', d) == TabsOf(words, d)[i := t]
    ensures SpaceOf(words', d) == SpaceOf(words, d)
  {
    FrameIndexInverts(t);
    forall v | 0 <= v < USER_PDES * PTES
      ensures PteAt(words', d, v).present <==> PteAt(words, d, v).present
      ensures PteAt(words, d, v).present ==> PteAt(words', d, v) == PteAt(words, d, v)
    {
      if v / PTES != i && At(words, d, v / PTES).present {
        assert v / PTES in TabsOf(words, d);
      }
    }
  }

  /** No frame serves twice, and all that serve lie among the frames in use, above the kernel's. */
  ghost predicate Apart(tabs: map<int, map<int, int>>, dirs: map<int, int>, frames: set<int>) {
    && tabs.Keys == dirs.Keys
    && (forall p :: p in dirs ==> KERNEL_FRAMES <= dirs[p] < POOL && dirs[p] in frames)
    && (forall p, i :: p in tabs && i in tabs[p] ==> KERNEL_FRAMES <= tabs[p][i] < POOL && tabs[p][i] in frames)
    && (forall p, q :: p in dirs && q in dirs && p != q ==> dirs[p] != dirs[q])
    && (forall p, q, i :: p in dirs && q in tabs && i in tabs[q] ==> dirs[p] != tabs[q][i])
    && (forall p, i, q, j :: p in tabs && q in tabs && i in tabs[p] && j in tabs[q] && (p != q || i != j) ==>
          tabs[p][i] != tabs[q][j])
  }

  /** What the roles of frames in module Cow say about the maps the code walks. */
  lemma RolesApart(m: Mem)
    requires Owned(m)
    ensures Apart(m.tabs, m.dirs, m.frames)
  {
    forall p | p in m.dirs ensures HasRole(m, Directory(p)) && FrameOf(m, Directory(p)) == m.dirs[p] {}
    forall p, i | p in m.tabs && i in m.tabs[p]
      ensures HasRole(m, Table(p, i)) && FrameOf(m, Table(p, i)) == m.tabs[p][i]
    {
    }
  }

  lemma ApartGrows(tabs: map<int, map<int, int>>, dirs: map<int, int>, frames: set<int>, p: int, i: int, t: int)
    requires Apart(tabs, dirs, frames) && p in dirs && KERNEL_FRAMES <= t < POOL && t !in frames
    ensures Apart(tabs[p := tabs[p][i := t]], dirs, frames + {t})
  {
  }

  /** A change that leaves the directory and the tables of `q` alone. */
  ghost predicate Keeps(words: seq<Entry>, words': seq<Entry>, d: int) {
    && (forall i :: 0 <= i < PTES ==> At(words', d, i) == At(words, d, i))
    && (forall i, j :: i in TabsOf(words, d) && 0 <= j < PTES ==>
          At(words', TabsOf(words, d)[i], j) == At(words, TabsOf(words, d)[i], j))
  }

  /** Only the space of process `p` changes. */
  lemma OneSpaceChanged(words: seq<Entry>, words': seq<Entry>, dirs: map<int, int>, p: int)
    requires p in dirs && forall q :: q in dirs && q != p ==> Keeps(words, words', dirs[q])
    ensures AllTabs(words', dirs) == AllTabs(words, dirs)[p := TabsOf(words', dirs[p])]
    ensures AllSpaces(words', dirs) == AllSpaces(words, dirs)[p := SpaceOf(words', dirs[p])]
  {
    forall q | q in dirs && q != p
      ensures TabsOf(words', dirs[q]) == TabsOf(words, dirs[q]) && SpaceOf(words', dirs[q]) == SpaceOf(words, dirs[q])
    {
      SpaceUntouched(words, words', dirs[q]);
    }
    AgreeElsewhere(AllTabs(words, dirs), AllTabs(words', dirs), p, TabsOf(words', dirs[p]));
    AgreeElsewhere(AllSpaces(words, dirs), AllSpaces(words', dirs), p, SpaceOf(words', dirs[p]));
  }

  /** A store to a table of process `p` shows in the space of `p` alone. */
  lemma PteStored(words: seq<Entry>, words': seq<Entry>, dirs: map<int, int>, frames: set<int>, p: int, v: int,
                  e: Entry)
    requires Apart(AllTabs(words, dirs), dirs, frames) && WellFormed(words, dirs) && |words'| == POOL * PTES
    requires p in dirs && 0 <= v < USER_PDES * PTES && v / PTES in TabsOf(words, dirs[p]) && e.present
    requires forall f, j :: At(words', f, j) ==
               if f == TabsOf(words, dirs[p])[v / PTES] && j == v % PTES then e else At(words, f, j)
    ensures AllTabs(words', dirs) == AllTabs(words, dirs)
    ensures AllSpaces(words', dirs) == AllSpaces(words, dirs)[p := AllSpaces(words, dirs)[p][v := e]]
    ensures WellFormed(words', dirs)
  {
    var tabs := AllTabs(words, dirs);
    forall q | q in dirs ensures tabs[q] == TabsOf(words, dirs[q]) {}
    forall q | q in dirs && q != p ensures Keeps(words, words', dirs[q]) {}
    OneSpaceChanged(words, words', dirs, p);
    EntryStored(words, words', dirs[p], v, e);
    AgreeElsewhere(AllTabs(words, dirs), AllTabs(words, dirs), p, TabsOf(words, dirs[p]));
    assert forall q, i :: q in dirs ==> At(words', dirs[q], i) == At(words, dirs[q], i);
  }

  /** A cleared frame `t` no space uses becomes table `i` of process `p`. */
  lemma TableAdded(words: seq<Entry>, words': seq<Entry>, dirs: map<int, int>, frames: set<int>, p: int, i: int, t: int)
    requires Apart(AllTabs(words, dirs), dirs, frames) && WellFormed(words, dirs) && |words'| == POOL * PTES
    requires p in dirs && 0 <= i < USER_PDES && i !in TabsOf(words, dirs[p]) && KERNEL_FRAMES <= t < POOL
    requires t !in frames
    requires forall f, j :: At(words', f, j) ==
               if f == dirs[p] && j == i then Entry(true, true, FrameAddr(t))
               else if f == t then NO_ENTRY else At(words, f, j)
    ensures AllTabs(words', dirs) == AllTabs(words, dirs)[p := AllTabs(words, dirs)[p][i := t]]
    ensures AllSpaces(words', dirs) == AllSpaces(words, dirs)
    ensures WellFormed(words', dirs)
  {
    var tabs := AllTabs(words, dirs);
    forall q | q in dirs ensures tabs[q] == TabsOf(words, dirs[q]) {}
    forall q | q in dirs && q != p ensures Keeps(words, words', dirs[q]) {}
    OneSpaceChanged(words, words', dirs, p);
    TableInstalled(words, words', dirs[p], i, t);
    AgreeElsewhere(AllSpaces(words, dirs), AllSpaces(words, dirs), p, SpaceOf(words, dirs[p]));
    FrameIndexInverts(t);
    assert forall q, k :: q in dirs && (q != p || k != i) ==> At(words', dirs[q], k) == At(words, dirs[q], k);
  }

  /** Before any process has a directory. */
  lemma NoSpaces(words: seq<Entry>, frames: set<int>)
    requires |words| == POOL * PTES
    requires forall f, j :: 0 <= f < KERNEL_FRAMES && 0 <= j < PTES ==> At(words, f, j) == KernelEntry(f, j)
    ensures WellFormed(words, map[]) && AllTabs(words, map[]) == map[] && AllSpaces(words, map[]) == map[]
    ensures Apart(AllTabs(words, map[]), map[], frames)
  {
  }

  // ----- the kernel's half of every address space -----

  /** The entry the processor finds for an address, in the directory `d`. */
  ghost function Walk(words: seq<Entry>, d: int, va: int): Entry {
    At(words, FrameIndex(At(words, d, va / 0x40_0000).addr), va / 0x1000 % 1024)
  }

  /** In every address space the kernel's code and data lie at physical 0, its stacks and the pool
      of frames above 0x100000, below all user pages. */
  lemma KernelMapped(words: seq<Entry>, dirs: map<int, int>, p: int, va: int)
    requires WellFormed(words, dirs) && p in dirs
    requires 0xc000_0000 <= va < 0xc010_0000 || 0xc040_0000 <= va < 0xc060_0000
    ensures At(words, dirs[p], va / 0x40_0000).present && Walk(words, dirs[p], va).present
    ensures Walk(words, dirs[p], va).addr + va % 0x1000 == if va < 0xc010_0000 then va - 0xc000_0000
            else va - 0xc030_0000
    ensures Walk(words, dirs[p], va).addr + va % 0x1000 < 0x30_0000
  {
    var i, j := va / 0x40_0000, va / 0x1000 % 1024;
    assert At(words, dirs[p], i) == At(words, 0, i) == KernelEntry(0, i);
    if va < 0xc010_0000 {
      assert i == 768 && j < 256;
      FrameIndexInverts(1);
      assert At(words, 1, j) == KernelEntry(1, j);
    } else {
      assert i == 769 && j < 512;
      FrameIndexInverts(2);
      assert At(words, 2, j) == KernelEntry(2, j);
    }
  }

  /** So in every address space frame `f` is found where `page_phy_to_vir` says it is. */
  lemma FrameReachable(words: seq<Entry>, dirs: map<int, int>, p: int, f: int, k: int)
    requires WellFormed(words, dirs) && p in dirs && 0 <= f < POOL && 0 <= k < 0x1000
    ensures var va := PagePhyToVir(FrameAddr(f)) + k;
            && 0xc052_0000 <= va < 0xc060_0000
            && Walk(words, dirs[p], va).present && Walk(words, dirs[p], va).addr + va % 0x1000 == FrameAddr(f) + k
  {
    KernelMapped(words, dirs, p, PagePhyToVir(FrameAddr(f)) + k);
  }

  // ----- one table at a time -----

  /** `entry & 0xfffffffd` of a present entry. */
  function Ro(e: Entry): Entry {
    if e.present then e.(writable := false) else e
  }

  /** The pages the first `n` entries of table `t` map. */
  ghost function TableAddrs(words: seq<Entry>, t: int, n: nat): (s: set<int>)
    ensures forall j :: 0 <= j < n && At(words, t, j).present ==> At(words, t, j).addr in s
    ensures forall a :: a in s ==> exists j :: 0 <= j < n && At(words, t, j).present && At(words, t, j).addr == a
  {
    if n == 0 then {}
    else if At(words, t, n - 1).present then TableAddrs(words, t, n - 1) + {At(words, t, n - 1).addr}
    else TableAddrs(words, t, n - 1)
  }

  lemma {:induction false} TableAddrsGrow(words: seq<Entry>, t: int, j: nat, n: nat)
    requires j <= n
    ensures TableAddrs(words, t, j) <= TableAddrs(words, t, n)
  {
    if j < n {
      TableAddrsGrow(words, t, j, n - 1);
    }
  }

  /** The entries of a table map distinct pages, none of them page 0. */
  ghost predicate DistinctPages(words: seq<Entry>, t: int) {
    && (forall j :: 0 <= j < PTES && At(words, t, j).present ==> At(words, t, j).addr != 0)
    && (forall j, k :: 0 <= j < k < PTES && At(words, t, j).present && At(words, t, k).present ==>
          At(words, t, j).addr != At(words, t, k).addr)
  }

  /** Tables `s` and `t` both hold the read-only version of what `s` held. */
  ghost predicate TableCopied(words: seq<Entry>, words': seq<Entry>, s: int, t: int) {
    forall f, k :: 0 <= k < PTES ==>
      (At(words', f, k) == if f == s || f == t then Ro(At(words, s, k)) else At(words, f, k))
  }

  /** The counts after `add` for the first `n` entries of table `t`, in order. */
  ghost function CountsAfter(c: map<int, int>, words: seq<Entry>, t: int, n: nat): map<int, int> {
    if n == 0 then c
    else if At(words, t, n - 1).present then AddTo(CountsAfter(c, words, t, n - 1), At(words, t, n - 1).addr)
    else CountsAfter(c, words, t, n - 1)
  }

  lemma {:induction false} CountsAfterAll(c: map<int, int>, words: seq<Entry>, t: int, n: nat)
    requires DistinctPages(words, t) && n <= PTES
    ensures CountsAfter(c, words, t, n) == AddAll(c, TableAddrs(words, t, n))
  {
    if n > 0 {
      CountsAfterAll(c, words, t, n - 1);
      if At(words, t, n - 1).present {
        AddAllOne(c, TableAddrs(words, t, n - 1), At(words, t, n - 1).addr);
      }
    }
  }

  /** Each turn of the loop finds a page it can track within the reach of `dec`. */
  ghost predicate Addable(c: map<int, int>, words: seq<Entry>, t: int) {
    forall j {:trigger At(words, t, j)} :: 0 <= j < PTES && At(words, t, j).present ==>
      && At(words, t, j).addr != 0
      && |AddTo(CountsAfter(c, words, t, j), At(words, t, j).addr)| <= DEC_SLOTS
  }

  lemma BoundedTo(c: map<int, int>, words: seq<Entry>, t: int, n: nat)
    requires DistinctPages(words, t) && n <= PTES
    ensures |CountsAfter(c, words, t, n)| <= |AddAll(c, TableAddrs(words, t, PTES))|
  {
    CountsAfterAll(c, words, t, n);
    TableAddrsGrow(words, t, n, PTES);
    AddAllBounded(c, TableAddrs(words, t, n), TableAddrs(words, t, PTES));
  }

  /** No turn of the loop tracks more pages than the whole table does. */
  lemma DistinctAddable(c: map<int, int>, words: seq<Entry>, t: int)
    requires DistinctPages(words, t) && |AddAll(c, TableAddrs(words, t, PTES))| <= DEC_SLOTS
    ensures Addable(c, words, t)
  {
    forall j | 0 <= j < PTES && At(words, t, j).present
      ensures |AddTo(CountsAfter(c, words, t, j), At(words, t, j).addr)| <= DEC_SLOTS
    {
      BoundedTo(c, words, t, j + 1);
      assert CountsAfter(c, words, t, j + 1) == AddTo(CountsAfter(c, words, t, j), At(words, t, j).addr);
    }
  }

  lemma {:induction false} SameCounts(c: map<int, int>, words: seq<Entry>, words': seq<Entry>, t: int, n: nat)
    requires n <= PTES && forall j :: 0 <= j < PTES ==> At(words', t, j) == At(words, t, j)
    ensures CountsAfter(c, words', t, n) == CountsAfter(c, words, t, n)
  {
    if n > 0 {
      SameCounts(c, words, words', t, n - 1);
    }
  }

  /** A table that holds the same entries is shared to the same effect. */
  lemma SameTable(c: map<int, int>, words: seq<Entry>, words': seq<Entry>, t: int)
    requires forall j :: 0 <= j < PTES ==> At(words', t, j) == At(words, t, j)
    ensures CountsAfter(c, words', t, PTES) == CountsAfter(c, words, t, PTES)
    ensures Addable(c, words, t) ==> Addable(c, words', t)
  {
    SameCounts(c, words, words', t, PTES);
    forall j | 0 <= j < PTES ensures CountsAfter(c, words', t, j) == CountsAfter(c, words, t, j) {
      SameCounts(c, words, words', t, j);
    }
  }
}
