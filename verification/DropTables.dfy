/**
 The loops of `sys_cleanup_memory` (mem/paging.c) on the words of the pool, and what they
 leave of an address space.
 */
module DropTables {
  import opened Limits
  import opened FrameCopyMap
  import opened Cow
  import opened CowRefinement
  import opened MapLemmas
  import opened PageFrames
  import opened PageTables
  import opened ForkTables

  /** The counts, and the physical pages in use. */
  datatype Holdings = Holdings(counts: map<int, int>, pages: set<int>)

  /** `if(!dec(a)) sys_free_phy_page(a)`. */
  ghost function LetGo(x: Holdings, a: int): Holdings {
    Holdings(DecFrom(x.counts, a), if DecResult(x.counts, a) == 0 then x.pages - {a} else x.pages)
  }

  /** ... for the pages of a set, in any order. */
  ghost function LetGoAll(x: Holdings, s: set<int>): Holdings {
    Holdings(DecAll(x.counts, s), x.pages - Last(x.counts, s))
  }

  /** The pages of a set that nothing else maps. */
  ghost function Last(c: map<int, int>, s: set<int>): set<int> {
    set a | a in s && DecResult(c, a) == 0
  }

  /** The inner loop, for the first `n` entries of table `t`. */
  ghost function TableLetGo(x: Holdings, words: seq<Entry>, t: int, n: nat): Holdings {
    if n == 0 then x
    else if At(words, t, n - 1).present then LetGo(TableLetGo(x, words, t, n - 1), At(words, t, n - 1).addr)
    else TableLetGo(x, words, t, n - 1)
  }

  /** The outer loop, for the first `n` entries of directory `d`. */
  ghost function DirLetGo(x: Holdings, words: seq<Entry>, d: int, n: nat): Holdings {
    if n == 0 then x
    else if At(words, d, n - 1).present
    then TableLetGo(DirLetGo(x, words, d, n - 1), words, TableAt(words, d, n - 1), PTES)
    else DirLetGo(x, words, d, n - 1)
  }

  lemma LetGoOne(x: Holdings, s: set<int>, a: int)
    requires a !in s
    ensures LetGo(LetGoAll(x, s), a) == LetGoAll(x, s + {a})
  {
    DecAllOne(x.counts, s, a);
  }

  lemma LetGoTwice(x: Holdings, a: set<int>, b: set<int>)
    requires a !! b
    ensures LetGoAll(LetGoAll(x, a), b) == LetGoAll(x, a + b)
  {
    var c := DecAll(x.counts, a);
    forall k | k in b ensures k in c <==> k in x.counts {}
    assert DecAll(c, b) == DecAll(x.counts, a + b);
    assert Last(c, b) == Last(x.counts, b);
    assert Last(x.counts, a + b) == Last(x.counts, a) + Last(x.counts, b);
  }

  lemma {:induction false} TableLetGoAll(x: Holdings, words: seq<Entry>, t: int, n: nat)
    requires DistinctPages(words, t) && n <= PTES
    ensures TableLetGo(x, words, t, n) == LetGoAll(x, TableAddrs(words, t, n))
  {
    if n == 0 {
      assert DecAll(x.counts, {}) == x.counts;
    } else {
      TableLetGoAll(x, words, t, n - 1);
      if At(words, t, n - 1).present {
        LetGoOne(x, TableAddrs(words, t, n - 1), At(words, t, n - 1).addr);
      }
    }
  }

  /** The loops let go of every page of the space once. */
  lemma {:induction false} DirLetGoAll(x: Holdings, words: seq<Entry>, d: int, n: nat)
    requires MappedOnce(words, d) && n <= USER_PDES
    ensures DirLetGo(x, words, d, n) == LetGoAll(x, DirAddrs(words, d, n))
  {
    if n == 0 {
      assert DecAll(x.counts, {}) == x.counts;
    } else {
      DirLetGoAll(x, words, d, n - 1);
      if At(words, d, n - 1).present {
        TableApart(words, d, n - 1);
        TableDistinct(words, d, n - 1);
        TableLetGoAll(DirLetGo(x, words, d, n - 1), words, TableAt(words, d, n - 1), PTES);
        LetGoTwice(x, DirAddrs(words, d, n - 1), TableAddrs(words, TableAt(words, d, n - 1), PTES));
      }
    }
  }

  /** Each page a table lets go of last is a page in use, when its turn comes. */
  ghost predicate Droppable(x: Holdings, words: seq<Entry>, t: int) {
    forall j {:trigger At(words, t, j)} :: 0 <= j < PTES && At(words, t, j).present ==>
      && At(words, t, j).addr != 0
      && (DecResult(TableLetGo(x, words, t, j).counts, At(words, t, j).addr) == 0 ==>
            At(words, t, j).addr in TableLetGo(x, words, t, j).pages)
  }

  ghost predicate DirDroppable(x: Holdings, words: seq<Entry>, d: int) {
    forall i {:trigger At(words, d, i)} :: 0 <= i < USER_PDES && At(words, d, i).present ==>
      Droppable(DirLetGo(x, words, d, i), words, TableAt(words, d, i))
  }

  lemma TableDroppable(x: Holdings, words: seq<Entry>, t: int)
    requires DistinctPages(words, t)
    requires forall j :: 0 <= j < PTES && At(words, t, j).present ==> At(words, t, j).addr in x.pages
    ensures Droppable(x, words, t)
  {
    forall j | 0 <= j < PTES && At(words, t, j).present
      ensures At(words, t, j).addr in TableLetGo(x, words, t, j).pages
    {
      TableLetGoAll(x, words, t, j);
      assert At(words, t, j).addr !in TableAddrs(words, t, j);
    }
  }

  lemma MappedDroppable(x: Holdings, words: seq<Entry>, d: int)
    requires MappedOnce(words, d)
    requires forall v :: 0 <= v < USER_PDES * PTES && PteAt(words, d, v).present ==> PteAt(words, d, v).addr in x.pages
    ensures DirDroppable(x, words, d)
  {
    forall i | 0 <= i < USER_PDES && At(words, d, i).present
      ensures Droppable(DirLetGo(x, words, d, i), words, TableAt(words, d, i))
    {
      var t := TableAt(words, d, i);
      DirLetGoAll(x, words, d, i);
      TableDistinct(words, d, i);
      TableApart(words, d, i);
      forall j | 0 <= j < PTES && At(words, t, j).present
        ensures At(words, t, j).addr in DirLetGo(x, words, d, i).pages
      {
        TableEntry(words, d, i, j);
        assert At(words, t, j).addr in TableAddrs(words, t, PTES);
      }
      TableDroppable(DirLetGo(x, words, d, i), words, t);
    }
  }

  // ----- one turn at a time -----

  /** Where the outer loop has got to. */
  datatype Clearing = Clearing(words: seq<Entry>, frames: set<int>, holdings: Holdings)

  /** One turn of the outer loop, for entry `i` of directory `d`. */
  ghost predicate Cleared(x: Clearing, y: Clearing, d: int, i: int) {
    if At(x.words, d, i).present then
      && (forall f, j :: At(y.words, f, j) == if f == d && j == i then NO_ENTRY else At(x.words, f, j))
      && y.frames == x.frames - {TableAt(x.words, d, i)}
      && y.holdings == TableLetGo(x.holdings, x.words, TableAt(x.words, d, i), PTES)
    else
      y == x
  }

  /** What a turn needs. */
  ghost predicate Clearable(x: Clearing, d: int, i: int) {
    At(x.words, d, i).present ==>
      && 0 <= TableAt(x.words, d, i) < POOL && TableAt(x.words, d, i) != d
      && At(x.words, d, i).addr == FrameAddr(TableAt(x.words, d, i))
      && Droppable(x.holdings, x.words, TableAt(x.words, d, i))
  }

  /** A space whose tables lie apart and whose pages are in use. */
  ghost predicate CanClear(x: Clearing, d: int) {
    && TablesOf(x.words, d, x.frames) && DirDroppable(x.holdings, x.words, d)
    && forall i {:trigger At(x.words, d, i)} :: 0 <= i < USER_PDES && At(x.words, d, i).present ==>
         At(x.words, d, i).addr == FrameAddr(TableAt(x.words, d, i))
  }

  ghost predicate ClearedTo(x: Clearing, y: Clearing, d: int, n: nat) {
    && (forall f, j :: At(y.words, f, j) ==
          if f == d && 0 <= j < n && At(x.words, f, j).present then NO_ENTRY else At(x.words, f, j))
    && y.frames == x.frames - Touched(x.words, d, n)
    && y.holdings == DirLetGo(x.holdings, x.words, d, n)
  }

  lemma {:induction false} SameLetGo(x: Holdings, words: seq<Entry>, words': seq<Entry>, t: int, n: nat)
    requires n <= PTES && forall j :: 0 <= j < PTES ==> At(words', t, j) == At(words, t, j)
    ensures TableLetGo(x, words', t, n) == TableLetGo(x, words, t, n)
  {
    if n > 0 {
      SameLetGo(x, words, words', t, n - 1);
    }
  }

  lemma SameDroppable(x: Holdings, words: seq<Entry>, words': seq<Entry>, t: int)
    requires forall j :: 0 <= j < PTES ==> At(words', t, j) == At(words, t, j)
    requires Droppable(x, words, t)
    ensures Droppable(x, words', t)
  {
    forall j | 0 <= j < PTES ensures TableLetGo(x, words', t, j) == TableLetGo(x, words, t, j) {
      SameLetGo(x, words, words', t, j);
    }
  }

  lemma ClearedOne(x: Clearing, y: Clearing, z: Clearing, d: int, n: nat)
    requires CanClear(x, d) && ClearedTo(x, y, d, n) && n < USER_PDES && Cleared(y, z, d, n)
    ensures ClearedTo(x, z, d, n + 1)
  {
    if At(x.words, d, n).present {
      SameLetGo(y.holdings, x.words, y.words, TableAt(x.words, d, n), PTES);
    }
  }

  lemma ClearedReady(x: Clearing, y: Clearing, d: int, n: nat)
    requires CanClear(x, d) && ClearedTo(x, y, d, n) && n < USER_PDES
    ensures Clearable(y, d, n)
  {
    if At(x.words, d, n).present {
      SameDroppable(y.holdings, x.words, y.words, TableAt(x.words, d, n));
    }
  }

  lemma {:induction false} ClearsReach(trace: seq<Clearing>, d: int, n: nat)
    requires n < |trace| && n <= USER_PDES && CanClear(trace[0], d)
    requires forall k :: 0 <= k < n ==> Cleared(trace[k], trace[k + 1], d, k)
    ensures ClearedTo(trace[0], trace[n], d, n)
  {
    if n > 0 {
      ClearsReach(trace, d, n - 1);
      assert Cleared(trace[n - 1], trace[n - 1 + 1], d, n - 1);
      ClearedOne(trace[0], trace[n - 1], trace[n], d, n - 1);
    }
  }

  lemma ClearsReady(trace: seq<Clearing>, d: int, n: nat)
    requires n < |trace| && n < USER_PDES && CanClear(trace[0], d)
    requires forall k :: 0 <= k < n ==> Cleared(trace[k], trace[k + 1], d, k)
    ensures Clearable(trace[n], d, n)
  {
    ClearsReach(trace, d, n);
    ClearedReady(trace[0], trace[n], d, n);
  }

  // ----- the address spaces -----

  lemma TouchedAll(words: seq<Entry>, d: int)
    ensures Touched(words, d, USER_PDES) == TableFrames(TabsOf(words, d))
  {
    TouchedAre(words, d, USER_PDES);
    var t := TabsOf(words, d);
    forall f | f in Touched(words, d, USER_PDES) ensures f in TableFrames(t) {
      var i :| 0 <= i < USER_PDES && At(words, d, i).present && TableAt(words, d, i) == f;
      assert i in t && t[i] == f;
    }
    forall f | f in TableFrames(t) ensures f in Touched(words, d, USER_PDES) {
      var i :| i in t && t[i] == f;
      assert At(words, d, i).present && TableAt(words, d, i) == f;
    }
  }

  /** Clearing the user half of a directory empties its space and no other. */
  lemma SpaceCleared(words: seq<Entry>, words': seq<Entry>, dirs: map<int, int>, frames: set<int>, p: int)
    requires Apart(AllTabs(words, dirs), dirs, frames) && WellFormed(words, dirs) && |words'| == POOL * PTES
    requires p in dirs
    requires forall f, j :: At(words', f, j) ==
               if f == dirs[p] && 0 <= j < USER_PDES && At(words, f, j).present then NO_ENTRY else At(words, f, j)
    ensures AllTabs(words', dirs) == AllTabs(words, dirs)[p := map[]]
    ensures AllSpaces(words', dirs) == AllSpaces(words, dirs)[p := map[]]
    ensures WellFormed(words', dirs)
  {
    var tabs := AllTabs(words, dirs);
    forall q | q in dirs ensures tabs[q] == TabsOf(words, dirs[q]) {}
    forall q | q in dirs && q != p ensures Keeps(words, words', dirs[q]) {}
    OneSpaceChanged(words, words', dirs, p);
    assert TabsOf(words', dirs[p]) == map[];
    assert SpaceOf(words', dirs[p]) == map[];
    assert forall q, i :: q in dirs && q != p ==> At(words', dirs[q], i) == At(words, dirs[q], i);
  }

  /** What the invariant says about the words of a process that drops its memory. */
  lemma InvCanClear(m: Mem, was: seq<Entry>, p: int)
    requires Inv(m) && p in m.dirs && m.tabs == AllTabs(was, m.dirs) && m.spaces == AllSpaces(was, m.dirs)
    requires WellFormed(was, m.dirs)
    ensures CanClear(Clearing(was, m.frames, Holdings(m.copies, m.used)), m.dirs[p])
  {
    var d := m.dirs[p];
    InvOfWords(m, was, p);
    TablesApart(was, m.dirs, p, m.frames);
    forall v | 0 <= v < USER_PDES * PTES && PteAt(was, d, v).present ensures PteAt(was, d, v).addr in m.used {
      assert v in m.spaces[p] && m.spaces[p][v] == PteAt(was, d, v);
    }
    MappedDroppable(Holdings(m.copies, m.used), was, d);
  }

  /** The loops done, the memory of process `p` is dropped. */
  lemma DropDone(m: Mem, was: seq<Entry>, y: Clearing, p: int)
    requires Inv(m) && p in m.dirs && m.tabs == AllTabs(was, m.dirs) && m.spaces == AllSpaces(was, m.dirs)
    requires WellFormed(was, m.dirs) && |y.words| == POOL * PTES
    requires ClearedTo(Clearing(was, m.frames, Holdings(m.copies, m.used)), y, m.dirs[p], USER_PDES)
    ensures y.holdings.pages == m.used - Released(m, p)
    ensures DropRel(m, p, Mem(m.dirs, AllTabs(y.words, m.dirs), y.frames, AllSpaces(y.words, m.dirs),
                              y.holdings.counts, y.holdings.pages, m.ram))
    ensures WellFormed(y.words, m.dirs)
  {
    InvOfWords(m, was, p);
    TouchedAll(was, m.dirs[p]);
    DirLetGoAll(Holdings(m.copies, m.used), was, m.dirs[p], USER_PDES);
    SpaceCleared(was, y.words, m.dirs, m.frames, p);
    assert Last(m.copies, Addrs(m.spaces[p])) == Released(m, p);
  }

  lemma DropShape(m: Mem, p: int, m': Mem)
    requires Inv(m) && DropRel(m, p, m')
    ensures Inv(m') && Apart(m'.tabs, m'.dirs, m'.frames)
  {
    NextKeepsInv(m, Drop(p), m');
    RolesApart(m');
  }

  // ----- a directory comes and goes -----

  /** A new directory that holds the kernel's entries only. */
  lemma EmptySpaceAdded(dirs: map<int, int>, frames: set<int>, was: seq<Entry>, now: seq<Entry>, q: int, d: int)
    requires Apart(AllTabs(was, dirs), dirs, frames) && q !in dirs && d !in frames
    requires forall f, j :: At(now, f, j) ==
               if f != d then At(was, f, j) else if USER_PDES <= j then At(was, 0, j) else NO_ENTRY
    ensures AllTabs(now, dirs[q := d]) == AllTabs(was, dirs)[q := map[]]
    ensures AllSpaces(now, dirs[q := d]) == AllSpaces(was, dirs)[q := map[]]
  {
    var tabs := AllTabs(was, dirs);
    forall r | r in dirs
      ensures TabsOf(now, dirs[r]) == TabsOf(was, dirs[r]) && SpaceOf(now, dirs[r]) == SpaceOf(was, dirs[r])
    {
      assert tabs[r] == TabsOf(was, dirs[r]);
      SpaceUntouched(was, now, dirs[r]);
    }
    assert TabsOf(now, d) == map[];
    assert SpaceOf(now, d) == map[];
    AgreeElsewhere(AllTabs(was, dirs), AllTabs(now, dirs[q := d]), q, map[]);
    AgreeElsewhere(AllSpaces(was, dirs), AllSpaces(now, dirs[q := d]), q, map[]);
  }

  lemma KernelHalfGiven(dirs: map<int, int>, was: seq<Entry>, now: seq<Entry>, q: int, d: int)
    requires WellFormed(was, dirs) && |now| == POOL * PTES && d !in {0, 1, 2} && forall r :: r in dirs ==> dirs[r] != d
    requires forall f, j :: At(now, f, j) ==
               if f != d then At(was, f, j) else if USER_PDES <= j then At(was, 0, j) else NO_ENTRY
    ensures WellFormed(now, dirs[q := d])
  {
    assert forall r, j :: r in dirs ==> At(now, dirs[r], j) == At(was, dirs[r], j);
  }

  lemma DirectoryAdded(m: Mem, was: seq<Entry>, now: seq<Entry>, q: int, d: int, m': Mem)
    requires m.dirs.Keys == m.spaces.Keys && Apart(m.tabs, m.dirs, m.frames) && {0, 1, 2} <= m.frames
    requires q !in m.dirs && 0 <= q < PROC_MAX && 0 <= d < POOL && d !in m.frames
    requires m.tabs == AllTabs(was, m.dirs) && m.spaces == AllSpaces(was, m.dirs)
    requires WellFormed(was, m.dirs) && |now| == POOL * PTES
    requires forall f, j :: At(now, f, j) ==
               if f != d then At(was, f, j) else if USER_PDES <= j then At(was, 0, j) else NO_ENTRY
    requires m' == Mem(m.dirs[q := d], AllTabs(now, m.dirs[q := d]), m.frames + {d}, AllSpaces(now, m.dirs[q := d]),
                       m.copies, m.used, m.ram)
    ensures SpawnRel(m, q, m') && WellFormed(now, m'.dirs)
  {
    EmptySpaceAdded(m.dirs, m.frames, was, now, q, d);
    KernelHalfGiven(m.dirs, was, now, q, d);
    assert m'.dirs[q] == d && d !in {0, 1, 2};
  }

  lemma SpawnShape(m: Mem, q: int, m': Mem)
    requires Inv(m) && SpawnRel(m, q, m')
    ensures Inv(m') && Apart(m'.tabs, m'.dirs, m'.frames)
  {
    NextKeepsInv(m, Spawn(q), m');
    RolesApart(m');
  }

  /** A directory without tables is given up. */
  lemma DirectoryRemoved(m: Mem, words: seq<Entry>, p: int, m': Mem)
    requires Inv(m) && p in m.dirs && m.tabs[p] == map[]
    requires m.tabs == AllTabs(words, m.dirs) && m.spaces == AllSpaces(words, m.dirs)
    requires m' == Mem(m.dirs - {p}, AllTabs(words, m.dirs - {p}), m.frames - {m.dirs[p]},
                       AllSpaces(words, m.dirs - {p}), m.copies, m.used, m.ram)
    ensures ReapRel(m, p, m') && Inv(m') && Apart(m'.tabs, m'.dirs, m'.frames)
  {
    assert m'.tabs == m.tabs - {p};
    assert m'.spaces == m.spaces - {p};
    NextKeepsInv(m, Reap(p), m');
    RolesApart(m');
  }
}
