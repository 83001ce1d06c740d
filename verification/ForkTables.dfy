/**
 The outer loop of `sys_copy_pages` (mem/paging.c) on the words of the pool: what it has
 done after `n` directory entries, and what that means for the address spaces.
 */
module ForkTables {
  import opened Limits
  import opened MapLemmas
  import opened FrameCopyMap
  import opened Cow
  import opened PageFrames
  import opened PageTables

  // ----- the counts -----

  /** The table entry `i` of directory `d` names. */
  ghost function TableAt(words: seq<Entry>, d: int, i: int): int {
    FrameIndex(At(words, d, i).addr)
  }

  /** The pages mapped through the first `n` directory entries. */
  ghost function DirAddrs(words: seq<Entry>, d: int, n: nat): set<int> {
    if n == 0 then {}
    else if At(words, d, n - 1).present
    then DirAddrs(words, d, n - 1) + TableAddrs(words, TableAt(words, d, n - 1), PTES)
    else DirAddrs(words, d, n - 1)
  }

  /** The counts after `add` for every page mapped through the first `n` directory entries. */
  ghost function DirCounts(c: map<int, int>, words: seq<Entry>, d: int, n: nat): map<int, int> {
    if n == 0 then c
    else if At(words, d, n - 1).present
    then CountsAfter(DirCounts(c, words, d, n - 1), words, TableAt(words, d, n - 1), PTES)
    else DirCounts(c, words, d, n - 1)
  }

  /** No page is mapped twice in the space, and page 0 not at all. */
  ghost predicate MappedOnce(words: seq<Entry>, d: int) {
    && (forall v {:trigger PteAt(words, d, v)} ::
          0 <= v < USER_PDES * PTES && PteAt(words, d, v).present ==> PteAt(words, d, v).addr != 0)
    && (forall v, w {:trigger PteAt(words, d, v), PteAt(words, d, w)} ::
          0 <= v < w < USER_PDES * PTES && PteAt(words, d, v).present && PteAt(words, d, w).present ==>
            PteAt(words, d, v).addr != PteAt(words, d, w).addr)
  }

  lemma TableEntry(words: seq<Entry>, d: int, i: nat, j: nat)
    requires i < USER_PDES && j < PTES && At(words, d, i).present
    ensures 0 <= i * PTES + j < USER_PDES * PTES
    ensures PteAt(words, d, i * PTES + j) == At(words, TableAt(words, d, i), j)
  {
    assert (i * PTES + j) / PTES == i && (i * PTES + j) % PTES == j;
  }

  lemma TableDistinct(words: seq<Entry>, d: int, i: nat)
    requires MappedOnce(words, d) && i < USER_PDES && At(words, d, i).present
    ensures DistinctPages(words, TableAt(words, d, i))
  {
    var t := TableAt(words, d, i);
    forall j | 0 <= j < PTES ensures PteAt(words, d, i * PTES + j) == At(words, t, j) {
      TableEntry(words, d, i, j);
    }
  }

  /** The pages of the first `n` tables are those of the page numbers below them. */
  lemma {:induction false} DirAddrsAre(words: seq<Entry>, d: int, n: nat)
    requires n <= USER_PDES
    ensures forall v :: 0 <= v < n * PTES && PteAt(words, d, v).present ==>
              PteAt(words, d, v).addr in DirAddrs(words, d, n)
    ensures forall a :: a in DirAddrs(words, d, n) ==>
              exists v :: 0 <= v < n * PTES && PteAt(words, d, v).present && PteAt(words, d, v).addr == a
  {
    if n > 0 {
      DirAddrsAre(words, d, n - 1);
      var e := At(words, d, n - 1);
      var t := FrameIndex(e.addr);
      forall v | (n - 1) * PTES <= v < n * PTES && PteAt(words, d, v).present
        ensures PteAt(words, d, v).addr in DirAddrs(words, d, n)
      {
        assert v / PTES == n - 1;
        assert At(words, t, v % PTES).addr in TableAddrs(words, t, PTES);
      }
      if e.present {
        forall a | a in TableAddrs(words, t, PTES)
          ensures exists v :: 0 <= v < n * PTES && PteAt(words, d, v).present && PteAt(words, d, v).addr == a
        {
          var j :| 0 <= j < PTES && At(words, t, j).present && At(words, t, j).addr == a;
          TableEntry(words, d, n - 1, j);
        }
      }
    }
  }

  lemma DirAddrsOfSpace(words: seq<Entry>, d: int)
    ensures DirAddrs(words, d, USER_PDES) == Addrs(SpaceOf(words, d))
  {
    DirAddrsAre(words, d, USER_PDES);
    var s := SpaceOf(words, d);
    forall a | a in DirAddrs(words, d, USER_PDES) ensures a in Addrs(s) {
      var v :| 0 <= v < USER_PDES * PTES && PteAt(words, d, v).present && PteAt(words, d, v).addr == a;
      assert v in s;
    }
    forall a | a in Addrs(s) ensures a in DirAddrs(words, d, USER_PDES) {
      var v :| v in s && s[v].addr == a;
      assert PteAt(words, d, v).present;
    }
  }

  lemma AddAllTwice(c: map<int, int>, a: set<int>, b: set<int>)
    requires a !! b
    ensures AddAll(AddAll(c, a), b) == AddAll(c, a + b)
  {
  }

  lemma {:induction false} DirAddrsGrow(words: seq<Entry>, d: int, i: nat, n: nat)
    requires i <= n
    ensures DirAddrs(words, d, i) <= DirAddrs(words, d, n)
  {
    if i < n {
      DirAddrsGrow(words, d, i, n - 1);
    }
  }

  /** A table maps none of the pages of the tables before it. */
  lemma TableApart(words: seq<Entry>, d: int, i: nat)
    requires MappedOnce(words, d) && i < USER_PDES && At(words, d, i).present
    ensures DirAddrs(words, d, i) !! TableAddrs(words, TableAt(words, d, i), PTES)
  {
    var t := TableAt(words, d, i);
    forall a | a in DirAddrs(words, d, i) ensures a !in TableAddrs(words, t, PTES) {
      DirAddrsAre(words, d, i);
      var v :| 0 <= v < i * PTES && PteAt(words, d, v).present && PteAt(words, d, v).addr == a;
      forall j | 0 <= j < PTES && At(words, t, j).present ensures At(words, t, j).addr != a {
        TableEntry(words, d, i, j);
      }
    }
  }

  /** The loop counts every page of the space once. */
  lemma {:induction false} DirCountsAll(c: map<int, int>, words: seq<Entry>, d: int, n: nat)
    requires MappedOnce(words, d) && n <= USER_PDES
    ensures DirCounts(c, words, d, n) == AddAll(c, DirAddrs(words, d, n))
  {
    if n == 0 {
      assert AddAll(c, {}) == c;
    } else {
      DirCountsAll(c, words, d, n - 1);
      if At(words, d, n - 1).present {
        TableApart(words, d, n - 1);
        TableDistinct(words, d, n - 1);
        CountsAfterAll(DirCounts(c, words, d, n - 1), words, TableAt(words, d, n - 1), PTES);
        AddAllTwice(c, DirAddrs(words, d, n - 1), TableAddrs(words, TableAt(words, d, n - 1), PTES));
      }
    }
  }

  lemma DirCountsBounded(c: map<int, int>, words: seq<Entry>, d: int, n: nat)
    requires MappedOnce(words, d) && n <= USER_PDES
    ensures |DirCounts(c, words, d, n)| <= |AddAll(c, DirAddrs(words, d, USER_PDES))|
  {
    DirCountsAll(c, words, d, n);
    DirAddrsGrow(words, d, n, USER_PDES);
    AddAllBounded(c, DirAddrs(words, d, n), DirAddrs(words, d, USER_PDES));
  }

  /** Every table of the space can be shared when its turn comes. */
  ghost predicate Shareable(c: map<int, int>, words: seq<Entry>, d: int) {
    forall i {:trigger At(words, d, i)} :: 0 <= i < USER_PDES && At(words, d, i).present ==>
      Addable(DirCounts(c, words, d, i), words, TableAt(words, d, i))
  }

  lemma MappedOnceShareable(c: map<int, int>, words: seq<Entry>, d: int)
    requires MappedOnce(words, d) && |AddAll(c, DirAddrs(words, d, USER_PDES))| <= DEC_SLOTS
    ensures Shareable(c, words, d)
  {
    forall i | 0 <= i < USER_PDES && At(words, d, i).present
      ensures Addable(DirCounts(c, words, d, i), words, TableAt(words, d, i))
    {
      TableDistinct(words, d, i);
      CountsAfterAll(DirCounts(c, words, d, i), words, TableAt(words, d, i), PTES);
      DirCountsBounded(c, words, d, i + 1);
      DistinctAddable(DirCounts(c, words, d, i), words, TableAt(words, d, i));
    }
  }

  // ----- the words -----

  /** The tables the first `n` directory entries name. */
  ghost function Touched(was: seq<Entry>, s: int, n: nat): set<int> {
    if n == 0 then {}
    else if At(was, s, n - 1).present then Touched(was, s, n - 1) + {TableAt(was, s, n - 1)}
    else Touched(was, s, n - 1)
  }

  /** The tables of directory `s` are distinct frames in use, and `s` is not one of them. */
  ghost predicate TablesOf(was: seq<Entry>, s: int, frames: set<int>) {
    forall i {:trigger At(was, s, i)} :: 0 <= i < USER_PDES && At(was, s, i).present ==>
      && TableAt(was, s, i) in frames && TableAt(was, s, i) != s && KERNEL_FRAMES <= TableAt(was, s, i) < POOL
      && TableAt(was, s, i) !in Touched(was, s, i)
  }

  lemma {:induction false} TouchedAre(was: seq<Entry>, s: int, n: nat)
    requires n <= USER_PDES
    ensures forall i :: 0 <= i < n && At(was, s, i).present ==> TableAt(was, s, i) in Touched(was, s, n)
    ensures forall f :: f in Touched(was, s, n) ==>
              exists i :: 0 <= i < n && At(was, s, i).present && TableAt(was, s, i) == f
  {
    if n > 0 {
      TouchedAre(was, s, n - 1);
    }
  }

  /** The child has a frame of its own for every present entry among the parent's first `n`. */
  ghost predicate FreshTables(was: seq<Entry>, s: int, d: int, n: nat, frames: set<int>, made: map<int, int>) {
    && (forall i :: i in made <==> 0 <= i < n && At(was, s, i).present)
    && (forall i :: i in made ==> KERNEL_FRAMES <= made[i] < POOL && made[i] !in frames && made[i] != d)
  }

  /** The child's directory names those frames. */
  ghost predicate Named(now: seq<Entry>, d: int, made: map<int, int>) {
    forall i :: 0 <= i < USER_PDES ==>
      (At(now, d, i) == if i in made then Entry(true, true, FrameAddr(made[i])) else NO_ENTRY)
  }

  /** The child's tables, and the parent's, hold what the parent's held, read-only. */
  ghost predicate BothReadOnly(was: seq<Entry>, now: seq<Entry>, s: int, made: map<int, int>) {
    forall i, j {:trigger At(now, made[i], j)} {:trigger At(now, TableAt(was, s, i), j)} ::
      i in made && 0 <= j < PTES ==>
        && At(now, made[i], j) == Ro(At(was, TableAt(was, s, i), j))
        && At(now, TableAt(was, s, i), j) == Ro(At(was, TableAt(was, s, i), j))
  }

  /** The other frames in use hold what they held. */
  ghost predicate RestSame(was: seq<Entry>, now: seq<Entry>, frames: set<int>, touched: set<int>) {
    forall f, j {:trigger At(now, f, j)} ::
      f in frames && 0 <= j < PTES && f !in touched ==> At(now, f, j) == At(was, f, j)
  }

  /** The words after `n` turns of the loop. */
  ghost predicate Copied(was: seq<Entry>, now: seq<Entry>, s: int, d: int, n: nat,
                         frames: set<int>, made: map<int, int>) {
    && FreshTables(was, s, d, n, frames, made)
    && Named(now, d, made)
    && BothReadOnly(was, now, s, made)
    && RestSame(was, now, frames, Touched(was, s, n))
  }

  /** One turn of the loop over the words, for a present entry: table `t` is entered for
      index `i` and becomes, like the parent's table `p`, its read-only version. */
  ghost predicate TurnTaken(now: seq<Entry>, next: seq<Entry>, d: int, i: int, p: int, t: int) {
    forall f, j :: 0 <= j < PTES ==>
      (At(next, f, j) == if f == d && j == i then Entry(true, true, FrameAddr(t))
                         else if f == p || f == t then Ro(At(now, p, j)) else At(now, f, j))
  }

  lemma TurnComposed(now: seq<Entry>, mid: seq<Entry>, next: seq<Entry>, d: int, i: int, p: int, t: int)
    requires p != t && p != d && t != d
    requires forall f, j :: At(mid, f, j) ==
               if f == d && j == i then Entry(true, true, FrameAddr(t)) else if f == t then NO_ENTRY else At(now, f, j)
    requires TableCopied(mid, next, p, t)
    ensures TurnTaken(now, next, d, i, p, t)
  {
  }

  lemma RestNext(was: seq<Entry>, now: seq<Entry>, next: seq<Entry>, frames: set<int>, touched: set<int>,
                 d: int, i: int, p: int, t: int)
    requires RestSame(was, now, frames, touched) && TurnTaken(now, next, d, i, p, t)
    requires d !in frames && t !in frames
    ensures RestSame(was, next, frames, touched + {p})
  {
  }

  lemma NamedNext(now: seq<Entry>, next: seq<Entry>, d: int, made: map<int, int>, i: int, p: int, t: int)
    requires Named(now, d, made) && TurnTaken(now, next, d, i, p, t) && d != p && d != t
    ensures Named(next, d, made[i := t])
  {
  }

  lemma TablesNext(was: seq<Entry>, now: seq<Entry>, next: seq<Entry>, s: int, d: int, made: map<int, int>,
                   i: int, t: int)
    requires BothReadOnly(was, now, s, made) && TurnTaken(now, next, d, i, TableAt(was, s, i), t)
    requires forall j :: 0 <= j < PTES ==> At(now, TableAt(was, s, i), j) == At(was, TableAt(was, s, i), j)
    requires t != d && TableAt(was, s, i) != d
    requires forall k :: k in made ==>
               && made[k] != d && made[k] != TableAt(was, s, i) && made[k] != t
               && TableAt(was, s, k) != d && TableAt(was, s, k) != TableAt(was, s, i) && TableAt(was, s, k) != t
    ensures BothReadOnly(was, next, s, made[i := t])
  {
    forall k, j | k in made && 0 <= j < PTES
      ensures At(next, made[k], j) == At(now, made[k], j)
      ensures At(next, TableAt(was, s, k), j) == At(now, TableAt(was, s, k), j)
    {
    }
  }

  lemma FreshNext(was: seq<Entry>, s: int, d: int, i: nat, t: int, frames: set<int>, made: map<int, int>)
    requires FreshTables(was, s, d, i, frames, made) && At(was, s, i).present
    requires KERNEL_FRAMES <= t < POOL && t !in frames && t != d && t !in TableFrames(made)
    ensures FreshTables(was, s, d, i + 1, frames, made[i := t])
  {
  }

  /** The parent's tables are distinct. */
  lemma EarlierTables(was: seq<Entry>, s: int, i: nat, frames: set<int>)
    requires TablesOf(was, s, frames) && i < USER_PDES && At(was, s, i).present
    ensures forall k :: 0 <= k < i && At(was, s, k).present ==>
              TableAt(was, s, k) in frames && TableAt(was, s, k) != TableAt(was, s, i)
  {
    TouchedAre(was, s, i);
  }

  /** The tables made and copied so far are none of those the next turn writes. */
  lemma TurnApart(was: seq<Entry>, s: int, d: int, i: nat, t: int, frames: set<int>, made: map<int, int>)
    requires FreshTables(was, s, d, i, frames, made) && TablesOf(was, s, frames) && d !in frames
    requires i < USER_PDES && At(was, s, i).present && t !in frames && t !in TableFrames(made)
    ensures TableAt(was, s, i) != d
    ensures forall k :: k in made ==>
              && made[k] != d && made[k] != TableAt(was, s, i) && made[k] != t
              && TableAt(was, s, k) != d && TableAt(was, s, k) != TableAt(was, s, i) && TableAt(was, s, k) != t
  {
    EarlierTables(was, s, i, frames);
    assert TableAt(was, s, i) in frames;
  }

  lemma CopiedNext(was: seq<Entry>, now: seq<Entry>, next: seq<Entry>, s: int, d: int, i: nat, t: int,
                   frames: set<int>, made: map<int, int>)
    requires Copied(was, now, s, d, i, frames, made) && i < USER_PDES && At(was, s, i).present
    requires KERNEL_FRAMES <= t < POOL && t !in frames && t != d && t !in TableFrames(made)
    requires d !in frames && TablesOf(was, s, frames)
    requires TurnTaken(now, next, d, i, TableAt(was, s, i), t)
    ensures Copied(was, next, s, d, i + 1, frames, made[i := t])
  {
    var p := TableAt(was, s, i);
    FreshNext(was, s, d, i, t, frames, made);
    TurnApart(was, s, d, i, t, frames, made);
    NamedNext(now, next, d, made, i, p, t);
    RestNext(was, now, next, frames, Touched(was, s, i), d, i, p, t);
    TablesNext(was, now, next, s, d, made, i, t);
  }

  /** What the next turn finds in the words. */
  lemma TurnReady(c: map<int, int>, was: seq<Entry>, now: seq<Entry>, s: int, d: int, i: nat, frames: set<int>,
                  made: map<int, int>)
    requires Copied(was, now, s, d, i, frames, made) && TablesOf(was, s, frames) && s in frames && i < USER_PDES
    ensures At(now, s, i) == At(was, s, i)
    ensures At(was, s, i).present ==>
              && TableAt(was, s, i) in frames && KERNEL_FRAMES <= TableAt(was, s, i) < POOL
              && CountsAfter(c, now, TableAt(was, s, i), PTES) == CountsAfter(c, was, TableAt(was, s, i), PTES)
              && (Addable(c, was, TableAt(was, s, i)) ==> Addable(c, now, TableAt(was, s, i)))
  {
    TouchedAre(was, s, i);
    var p := TableAt(was, s, i);
    if At(was, s, i).present {
      assert forall j :: 0 <= j < PTES ==> At(now, p, j) == At(was, p, j);
      SameTable(c, was, now, p);
    }
  }

  /** A turn that skips an entry clears one that is clear. */
  lemma SkipChangesNothing(now: seq<Entry>, next: seq<Entry>, d: int, i: int, made: map<int, int>)
    requires Named(now, d, made) && 0 <= i < USER_PDES && i !in made
    requires forall f, j :: At(next, f, j) == if f == d && j == i then NO_ENTRY else At(now, f, j)
    ensures forall f, j :: At(next, f, j) == At(now, f, j)
  {
    assert At(now, d, i) == NO_ENTRY;
  }

  lemma CopiedSkip(was: seq<Entry>, now: seq<Entry>, next: seq<Entry>, s: int, d: int, i: nat,
                   frames: set<int>, made: map<int, int>)
    requires Copied(was, now, s, d, i, frames, made) && !At(was, s, i).present
    requires forall f, j :: At(next, f, j) == At(now, f, j)
    ensures Copied(was, next, s, d, i + 1, frames, made)
  {
  }

  lemma OneMoreTable(made: map<int, int>, i: int, t: int)
    requires i !in made
    ensures TableFrames(made[i := t]) == TableFrames(made) + {t}
    ensures |made[i := t]| == |made| + 1
  {
    var now := made[i := t];
    assert forall k :: k in made ==> k in now && now[k] == made[k];
    assert now[i] == t;
  }

  // ----- the loop -----

  /** Where the loop has got to: the words, the frames in use, the counts and the child's tables. */
  datatype Progress = Progress(words: seq<Entry>, used: set<int>, counts: map<int, int>, tabs: map<int, int>)

  /** One turn, for entry `i` of the parent's directory `s` and the child's `d`. */
  ghost predicate Turn(x: Progress, y: Progress, s: int, d: int, i: int) {
    if At(x.words, s, i).present then
      && i in y.tabs && y.tabs == x.tabs[i := y.tabs[i]]
      && 0 <= y.tabs[i] < POOL && y.tabs[i] !in x.used && y.used == x.used + {y.tabs[i]}
      && TurnTaken(x.words, y.words, d, i, TableAt(x.words, s, i), y.tabs[i])
      && y.counts == CountsAfter(x.counts, x.words, TableAt(x.words, s, i), PTES)
    else
      && y.tabs == x.tabs && y.used == x.used && y.counts == x.counts
      && forall f, j :: At(y.words, f, j) == if f == d && j == i then NO_ENTRY else At(x.words, f, j)
  }

  /** What a turn needs. */
  ghost predicate Ready(x: Progress, s: int, d: int, i: int) {
    At(x.words, s, i).present ==>
      && TableAt(x.words, s, i) in x.used && TableAt(x.words, s, i) != d
      && 0 <= TableAt(x.words, s, i) < POOL && |x.used| < POOL
      && Addable(x.counts, x.words, TableAt(x.words, s, i))
  }

  ghost predicate Distinct(tabs: map<int, int>) {
    forall i, j :: i in tabs && j in tabs && i != j ==> tabs[i] != tabs[j]
  }

  /** The frames in use after some turns: those from before, the directory and the tables. */
  ghost predicate FramesTaken(x: Progress, d: int, frames: set<int>) {
    && x.used == frames + {d} + TableFrames(x.tabs)
    && |x.used| == |frames| + 1 + |x.tabs|
    && Distinct(x.tabs)
  }

  ghost predicate Reached(was: seq<Entry>, c: map<int, int>, x: Progress, s: int, d: int, n: nat, frames: set<int>) {
    && Copied(was, x.words, s, d, n, frames, x.tabs)
    && FramesTaken(x, d, frames)
    && x.counts == DirCounts(c, was, s, n)
  }

  /** Before the loop: the frame of the child's directory has been allocated, cleared. */
  ghost predicate Start(was: seq<Entry>, c: map<int, int>, x: Progress, s: int, d: int, frames: set<int>) {
    && s in frames && d !in frames && {0, 1, 2} <= frames && 0 <= d < POOL
    && TablesOf(was, s, frames) && Shareable(c, was, s)
    && |frames| + 1 + |TabsOf(was, s)| <= POOL
    && x.used == frames + {d} && x.counts == c && x.tabs == map[]
    && forall f, j :: At(x.words, f, j) == if f == d then NO_ENTRY else At(was, f, j)
  }

  lemma DistinctGrows(tabs: map<int, int>, i: int, t: int)
    requires Distinct(tabs) && i !in tabs && t !in TableFrames(tabs)
    ensures Distinct(tabs[i := t])
  {
  }

  lemma OneMoreFrame(used: set<int>, frames: set<int>, tabs: map<int, int>, i: int, t: int)
    requires used == frames + TableFrames(tabs) && i !in tabs && t !in used
    ensures used + {t} == frames + TableFrames(tabs[i := t])
    ensures |used + {t}| == |used| + 1 && |tabs[i := t]| == |tabs| + 1
  {
    OneMoreTable(tabs, i, t);
  }

  lemma FramesNext(x: Progress, y: Progress, d: int, frames: set<int>, i: int, t: int)
    requires FramesTaken(x, d, frames) && i !in x.tabs
    requires y.tabs == x.tabs[i := t] && t !in x.used && y.used == x.used + {t}
    ensures FramesTaken(y, d, frames)
  {
    DistinctGrows(x.tabs, i, t);
    OneMoreFrame(x.used, frames + {d}, x.tabs, i, t);
  }

  lemma TookTable(was: seq<Entry>, c: map<int, int>, x: Progress, y: Progress, s: int, d: int, i: nat, t: int,
                  frames: set<int>)
    requires Reached(was, c, x, s, d, i, frames) && i < USER_PDES && At(was, s, i).present
    requires s in frames && d !in frames && {0, 1, 2} <= frames && TablesOf(was, s, frames)
    requires y.tabs == x.tabs[i := t] && 0 <= t < POOL && t !in x.used && y.used == x.used + {t}
    requires TurnTaken(x.words, y.words, d, i, TableAt(was, s, i), t)
    requires y.counts == CountsAfter(x.counts, was, TableAt(was, s, i), PTES)
    ensures Reached(was, c, y, s, d, i + 1, frames)
  {
    assert d in x.used && frames <= x.used && TableFrames(x.tabs) <= x.used;
    assert t !in {0, 1, 2};
    CopiedNext(was, x.words, y.words, s, d, i, t, frames, x.tabs);
    FramesNext(x, y, d, frames, i, t);
  }

  lemma SkippedTable(was: seq<Entry>, c: map<int, int>, x: Progress, y: Progress, s: int, d: int, i: nat,
                     frames: set<int>)
    requires Reached(was, c, x, s, d, i, frames) && i < USER_PDES && !At(was, s, i).present
    requires y.tabs == x.tabs && y.used == x.used && y.counts == x.counts
    requires forall f, j :: At(y.words, f, j) == if f == d && j == i then NO_ENTRY else At(x.words, f, j)
    ensures Reached(was, c, y, s, d, i + 1, frames)
  {
    SkipChangesNothing(x.words, y.words, d, i, x.tabs);
    CopiedSkip(was, x.words, y.words, s, d, i, frames, x.tabs);
  }

  lemma ReachedNext(was: seq<Entry>, c: map<int, int>, x: Progress, y: Progress, s: int, d: int, i: nat,
                    frames: set<int>)
    requires Reached(was, c, x, s, d, i, frames) && Turn(x, y, s, d, i) && i < USER_PDES
    requires s in frames && d !in frames && {0, 1, 2} <= frames && TablesOf(was, s, frames)
    ensures Reached(was, c, y, s, d, i + 1, frames)
  {
    TurnReady(x.counts, was, x.words, s, d, i, frames, x.tabs);
    if At(x.words, s, i).present {
      TookTable(was, c, x, y, s, d, i, y.tabs[i], frames);
    } else {
      SkippedTable(was, c, x, y, s, d, i, frames);
    }
  }

  lemma ReachedReady(was: seq<Entry>, c: map<int, int>, x: Progress, s: int, d: int, i: nat, frames: set<int>)
    requires Reached(was, c, x, s, d, i, frames) && i < USER_PDES
    requires s in frames && d !in frames && TablesOf(was, s, frames) && Shareable(c, was, s)
    requires |frames| + 1 + |TabsOf(was, s)| <= POOL
    ensures Ready(x, s, d, i)
  {
    TurnReady(x.counts, was, x.words, s, d, i, frames, x.tabs);
    if At(was, s, i).present {
      assert TableAt(was, s, i) in frames;
      RoomForOne(was, x, s, d, i, frames);
    }
  }

  lemma RoomForOne(was: seq<Entry>, x: Progress, s: int, d: int, i: nat, frames: set<int>)
    requires FreshTables(was, s, d, i, frames, x.tabs) && i < USER_PDES && At(was, s, i).present
    requires |x.used| == |frames| + 1 + |x.tabs| && |frames| + 1 + |TabsOf(was, s)| <= POOL
    ensures |x.used| < POOL
  {
    FewerKeys(x.tabs, TabsOf(was, s), i);
  }

  lemma CopiedAtStart(was: seq<Entry>, now: seq<Entry>, s: int, d: int, frames: set<int>)
    requires d !in frames && forall f, j :: At(now, f, j) == if f == d then NO_ENTRY else At(was, f, j)
    ensures Copied(was, now, s, d, 0, frames, map[])
  {
  }

  lemma ReachedAtStart(was: seq<Entry>, c: map<int, int>, x: Progress, s: int, d: int, frames: set<int>)
    requires Start(was, c, x, s, d, frames)
    ensures Reached(was, c, x, s, d, 0, frames)
  {
    assert |frames + {d}| == |frames| + 1;
    assert TableFrames(map[]) == {};
    CopiedAtStart(was, x.words, s, d, frames);
  }

  /** Wherever the loop gets to, it has done what `Reached` says and can go on. */
  lemma {:induction false} TurnsReach(was: seq<Entry>, trace: seq<Progress>, s: int, d: int, n: nat, frames: set<int>)
    requires n < |trace| && n <= USER_PDES && Start(was, trace[0].counts, trace[0], s, d, frames)
    requires forall k :: 0 <= k < n ==> Turn(trace[k], trace[k + 1], s, d, k)
    ensures Reached(was, trace[0].counts, trace[n], s, d, n, frames)
    ensures n < USER_PDES ==> Ready(trace[n], s, d, n)
  {
    if n == 0 {
      ReachedAtStart(was, trace[0].counts, trace[0], s, d, frames);
    } else {
      TurnsReach(was, trace, s, d, n - 1, frames);
      assert Turn(trace[n - 1], trace[n - 1 + 1], s, d, n - 1);
      ReachedNext(was, trace[0].counts, trace[n - 1], trace[n], s, d, n - 1, frames);
    }
    if n < USER_PDES {
      ReachedReady(was, trace[0].counts, trace[n], s, d, n, frames);
    }
  }

  lemma TurnsReady(was: seq<Entry>, trace: seq<Progress>, s: int, d: int, n: nat, frames: set<int>)
    requires n < |trace| && n < USER_PDES && Start(was, trace[0].counts, trace[0], s, d, frames)
    requires forall k :: 0 <= k < n ==> Turn(trace[k], trace[k + 1], s, d, k)
    ensures Ready(trace[n], s, d, n)
  {
    TurnsReach(was, trace, s, d, n, frames);
  }

  // ----- the address spaces -----

  /** The loop is done and the kernel's half of the directory is copied too. */
  ghost predicate Duplicated(was: seq<Entry>, now: seq<Entry>, s: int, d: int, frames: set<int>, made: map<int, int>) {
    && Copied(was, now, s, d, USER_PDES, frames, made)
    && (forall i :: USER_PDES <= i < PTES ==> At(now, d, i) == At(was, s, i))
  }

  lemma ParentDirectory(was: seq<Entry>, now: seq<Entry>, s: int, frames: set<int>)
    requires RestSame(was, now, frames, Touched(was, s, USER_PDES)) && TablesOf(was, s, frames) && s in frames
    ensures forall i :: 0 <= i < PTES ==> At(now, s, i) == At(was, s, i)
  {
    TouchedAre(was, s, USER_PDES);
  }

  lemma KernelHalfCopied(was: seq<Entry>, mid: seq<Entry>, now: seq<Entry>, s: int, d: int, frames: set<int>,
                         made: map<int, int>)
    requires Copied(was, mid, s, d, USER_PDES, frames, made) && TablesOf(was, s, frames)
    requires s in frames && d !in frames
    requires forall f, k :: At(now, f, k) == At(mid, if f == d && USER_PDES <= k then s else f, k)
    ensures Duplicated(was, now, s, d, frames, made)
  {
    ParentDirectory(was, mid, s, frames);
    assert forall i :: USER_PDES <= i < PTES ==> At(now, d, i) == At(was, s, i);
    assert Named(now, d, made);
    forall i | i in made ensures made[i] != d && TableAt(was, s, i) != d {}
    assert BothReadOnly(was, now, s, made);
  }

  /** The parent's entries are now read-only. */
  lemma ParentSpace(was: seq<Entry>, now: seq<Entry>, s: int, d: int, frames: set<int>, made: map<int, int>)
    requires Duplicated(was, now, s, d, frames, made) && s in frames && TablesOf(was, s, frames)
    ensures TabsOf(now, s) == TabsOf(was, s)
    ensures SpaceOf(now, s) == ReadOnly(SpaceOf(was, s))
  {
    ParentDirectory(was, now, s, frames);
    forall v | 0 <= v < USER_PDES * PTES ensures PteAt(now, s, v) == Ro(PteAt(was, s, v)) {
      if At(was, s, v / PTES).present {
        assert v / PTES in made;
      }
    }
  }

  /** The child maps what the parent does. */
  lemma ChildSpace(was: seq<Entry>, now: seq<Entry>, s: int, d: int, frames: set<int>, made: map<int, int>)
    requires Duplicated(was, now, s, d, frames, made)
    ensures TabsOf(now, d) == made
    ensures SpaceOf(now, d) == ReadOnly(SpaceOf(was, s))
  {
    forall i | i in made ensures FrameIndex(FrameAddr(made[i])) == made[i] {
      FrameIndexInverts(made[i]);
    }
    forall v | 0 <= v < USER_PDES * PTES ensures PteAt(now, d, v) == Ro(PteAt(was, s, v)) {
      if At(was, s, v / PTES).present {
        assert v / PTES in TabsOf(was, s) && v / PTES in made;
      } else {
        assert v / PTES !in made;
      }
    }
  }

  /** The parent's tables, as the maps of module Cow name them. */
  lemma TablesApart(was: seq<Entry>, dirs: map<int, int>, p: int, frames: set<int>)
    requires p in dirs && Apart(AllTabs(was, dirs), dirs, frames)
    ensures TablesOf(was, dirs[p], frames)
    ensures forall f :: f in Touched(was, dirs[p], USER_PDES) ==>
              f in frames && KERNEL_FRAMES <= f &&
              forall r :: r in dirs ==> dirs[r] != f && (r != p ==> f !in TableFrames(TabsOf(was, dirs[r])))
  {
    var tabs := AllTabs(was, dirs);
    forall r | r in dirs ensures tabs[r] == TabsOf(was, dirs[r]) {}
    forall i | 0 <= i < USER_PDES && At(was, dirs[p], i).present
      ensures i in tabs[p] && tabs[p][i] == TableAt(was, dirs[p], i)
    {
    }
    forall i | 0 <= i < USER_PDES && At(was, dirs[p], i).present
      ensures TableAt(was, dirs[p], i) !in Touched(was, dirs[p], i)
    {
      TouchedAre(was, dirs[p], i);
    }
    TouchedAre(was, dirs[p], USER_PDES);
    forall f, r | f in Touched(was, dirs[p], USER_PDES) && r in dirs
      ensures dirs[r] != f && (r != p ==> f !in TableFrames(TabsOf(was, dirs[r])))
    {
      var i :| 0 <= i < USER_PDES && At(was, dirs[p], i).present && TableAt(was, dirs[p], i) == f;
      assert i in tabs[p] && tabs[p][i] == f;
    }
  }

  /** A space that is neither the parent's nor the child's. */
  lemma OtherSpace(was: seq<Entry>, now: seq<Entry>, d: int, frames: set<int>, touched: set<int>)
    requires RestSame(was, now, frames, touched) && d in frames && d !in touched
    requires forall i :: i in TabsOf(was, d) ==> TabsOf(was, d)[i] in frames
    requires TableFrames(TabsOf(was, d)) !! touched
    ensures TabsOf(now, d) == TabsOf(was, d) && SpaceOf(now, d) == SpaceOf(was, d)
  {
    SpaceUntouched(was, now, d);
  }

  /** All spaces after the fork. */
  lemma DuplicatedSpaces(was: seq<Entry>, now: seq<Entry>, dirs: map<int, int>, p: int, q: int, d: int,
                         frames: set<int>, made: map<int, int>)
    requires p in dirs && q !in dirs && Duplicated(was, now, dirs[p], d, frames, made)
    requires Apart(AllTabs(was, dirs), dirs, frames)
    ensures AllTabs(now, dirs[q := d]) == AllTabs(was, dirs)[q := made]
    ensures AllSpaces(now, dirs[q := d]) ==
            AllSpaces(was, dirs)[p := ReadOnly(SpaceOf(was, dirs[p]))][q := ReadOnly(SpaceOf(was, dirs[p]))]
  {
    var tabs := AllTabs(was, dirs);
    forall r | r in dirs ensures tabs[r] == TabsOf(was, dirs[r]) {}
    TablesApart(was, dirs, p, frames);
    ParentSpace(was, now, dirs[p], d, frames, made);
    ChildSpace(was, now, dirs[p], d, frames, made);
    forall r | r in dirs && r != p
      ensures TabsOf(now, dirs[r]) == TabsOf(was, dirs[r]) && SpaceOf(now, dirs[r]) == SpaceOf(was, dirs[r])
    {
      OtherSpace(was, now, dirs[r], frames, Touched(was, dirs[p], USER_PDES));
    }
    AgreeElsewhere(AllTabs(was, dirs), AllTabs(now, dirs[q := d]), q, made);
    AgreeElsewhere(AllSpaces(was, dirs)[p := ReadOnly(SpaceOf(was, dirs[p]))], AllSpaces(now, dirs[q := d]), q,
                   ReadOnly(SpaceOf(was, dirs[p])));
  }

  lemma DuplicatedWellFormed(was: seq<Entry>, now: seq<Entry>, dirs: map<int, int>, p: int, q: int, d: int,
                             frames: set<int>, made: map<int, int>)
    requires p in dirs && q !in dirs && Duplicated(was, now, dirs[p], d, frames, made)
    requires Apart(AllTabs(was, dirs), dirs, frames) && WellFormed(was, dirs)
    requires {0, 1, 2} <= frames && |now| == POOL * PTES
    ensures WellFormed(now, dirs[q := d])
  {
    TablesApart(was, dirs, p, frames);
    forall f, j | 0 <= f < KERNEL_FRAMES && 0 <= j < PTES ensures At(now, f, j) == At(was, f, j) {
      assert f in {0, 1, 2};
    }
    forall r, j | r in dirs && 0 <= j < PTES ensures At(now, dirs[r], j) == At(was, dirs[r], j) {}
    forall i | i in made ensures FrameIndex(FrameAddr(made[i])) == made[i] {
      FrameIndexInverts(made[i]);
    }
  }

  // ----- the fork -----

  lemma SpaceMappedOnce(words: seq<Entry>, d: int, space: Space)
    requires space == SpaceOf(words, d)
    requires forall v :: v in space ==> space[v].addr != 0
    requires forall v, w :: v in space && w in space && v != w ==> space[v].addr != space[w].addr
    ensures MappedOnce(words, d)
  {
    forall v | 0 <= v < USER_PDES * PTES && PteAt(words, d, v).present
      ensures v in space && space[v] == PteAt(words, d, v)
    {
    }
  }

  lemma InvMappedOnce(m: Mem, words: seq<Entry>, p: int)
    requires Sharing(m) && p in m.spaces && p in m.dirs && m.spaces[p] == SpaceOf(words, m.dirs[p])
    ensures MappedOnce(words, m.dirs[p])
  {
    SpaceMappedOnce(words, m.dirs[p], m.spaces[p]);
  }

  /** What the invariant says about the words of the forking process. */
  lemma InvOfWords(m: Mem, was: seq<Entry>, p: int)
    requires Inv(m) && p in m.dirs && m.tabs == AllTabs(was, m.dirs) && m.spaces == AllSpaces(was, m.dirs)
    ensures Apart(AllTabs(was, m.dirs), m.dirs, m.frames) && {0, 1, 2} <= m.frames
    ensures m.tabs[p] == TabsOf(was, m.dirs[p]) && m.spaces[p] == SpaceOf(was, m.dirs[p])
    ensures MappedOnce(was, m.dirs[p])
    ensures DirAddrs(was, m.dirs[p], USER_PDES) == Addrs(m.spaces[p])
  {
    RolesApart(m);
    InvMappedOnce(m, was, p);
    DirAddrsOfSpace(was, m.dirs[p]);
    assert 0 in m.frames && 1 in m.frames && 2 in m.frames;
  }

  /** The words of process `p` can be duplicated: its tables lie apart, no page is mapped
      twice, and there is room for as many frames and counts as that takes. */
  ghost predicate CanDuplicate(dirs: map<int, int>, frames: set<int>, c: map<int, int>, was: seq<Entry>, p: int) {
    && p in dirs && Apart(AllTabs(was, dirs), dirs, frames) && {0, 1, 2} <= frames && MappedOnce(was, dirs[p])
    && |frames| + 1 + |TabsOf(was, dirs[p])| <= POOL
    && |AddAll(c, DirAddrs(was, dirs[p], USER_PDES))| <= DEC_SLOTS
  }

  lemma ForkStarts(dirs: map<int, int>, frames: set<int>, c: map<int, int>, was: seq<Entry>, p: int)
    requires CanDuplicate(dirs, frames, c, was, p)
    ensures TablesOf(was, dirs[p], frames) && Shareable(c, was, dirs[p])
  {
    TablesApart(was, dirs, p, frames);
    MappedOnceShareable(c, was, dirs[p]);
  }

  /** The child's tables are new, and as many as the parent's. */
  lemma NewTables(was: seq<Entry>, s: int, d: int, frames: set<int>, tabs: map<int, int>)
    requires {0, 1, 2} <= frames && d !in frames && 0 <= d
    requires FreshTables(was, s, d, USER_PDES, frames, tabs)
    ensures KERNEL_FRAMES <= d && tabs.Keys == TabsOf(was, s).Keys
    ensures d !in TableFrames(tabs) && NewFrames(d, tabs) !! frames
    ensures forall i :: i in tabs ==> KERNEL_FRAMES <= tabs[i] < POOL
  {
    assert d !in {0, 1, 2};
  }

  /** The tables and spaces after the loop are those after a fork. */
  lemma ForkIs(m: Mem, p: int, q: int, d: int, t: map<int, int>, m': Mem)
    requires p in m.spaces && q !in m.spaces && 0 <= q < PROC_MAX && p in m.tabs
    requires t.Keys == m.tabs[p].Keys && Distinct(t) && d !in TableFrames(t) && KERNEL_FRAMES <= d < POOL
    requires NewFrames(d, t) !! m.frames && forall i :: i in t ==> KERNEL_FRAMES <= t[i] < POOL
    requires m' == Mem(m.dirs[q := d], m.tabs[q := t], m.frames + {d} + TableFrames(t),
                       m.spaces[p := ReadOnly(m.spaces[p])][q := ReadOnly(m.spaces[p])],
                       AddAll(m.copies, Addrs(m.spaces[p])), m.used, m.ram)
    ensures ForkRel(m, p, q, m')
  {
    assert m'.tabs[q] == t && m'.dirs[q] == d;
    assert m'.frames == m.frames + NewFrames(d, t);
  }

  /** ... and when it is done the fork has happened. */
  lemma ForkDone(m: Mem, was: seq<Entry>, now: seq<Entry>, x: Progress, p: int, q: int, d: int)
    requires p in m.dirs && m.dirs.Keys == m.spaces.Keys == m.tabs.Keys
    requires m.tabs == AllTabs(was, m.dirs) && m.spaces == AllSpaces(was, m.dirs)
    requires Apart(AllTabs(was, m.dirs), m.dirs, m.frames) && {0, 1, 2} <= m.frames && MappedOnce(was, m.dirs[p])
    requires q !in m.dirs && 0 <= q < PROC_MAX && 0 <= d < POOL && d !in m.frames
    requires Duplicated(was, now, m.dirs[p], d, m.frames, x.tabs) && FramesTaken(x, d, m.frames)
    requires x.counts == DirCounts(m.copies, was, m.dirs[p], USER_PDES)
    ensures ForkRel(m, p, q, Mem(m.dirs[q := d], AllTabs(now, m.dirs[q := d]), x.used, AllSpaces(now, m.dirs[q := d]),
                                 x.counts, m.used, m.ram))
  {
    DirCountsAll(m.copies, was, m.dirs[p], USER_PDES);
    DirAddrsOfSpace(was, m.dirs[p]);
    DuplicatedSpaces(was, now, m.dirs, p, q, d, m.frames, x.tabs);
    NewTables(was, m.dirs[p], d, m.frames, x.tabs);
    assert m.tabs[p] == TabsOf(was, m.dirs[p]) && m.spaces[p] == SpaceOf(was, m.dirs[p]);
    ForkIs(m, p, q, d, x.tabs,
           Mem(m.dirs[q := d], AllTabs(now, m.dirs[q := d]), x.used, AllSpaces(now, m.dirs[q := d]), x.counts, m.used,
               m.ram));
  }

  lemma ForkShape(dirs: map<int, int>, frames: set<int>, c: map<int, int>, was: seq<Entry>, now: seq<Entry>,
                  x: Progress, p: int, q: int, d: int)
    requires CanDuplicate(dirs, frames, c, was, p) && WellFormed(was, dirs) && |now| == POOL * PTES
    requires q !in dirs && 0 <= d < POOL && d !in frames
    requires Duplicated(was, now, dirs[p], d, frames, x.tabs) && FramesTaken(x, d, frames)
    ensures WellFormed(now, dirs[q := d])
    ensures Apart(AllTabs(now, dirs[q := d]), dirs[q := d], x.used)
  {
    DuplicatedSpaces(was, now, dirs, p, q, d, frames, x.tabs);
    DuplicatedWellFormed(was, now, dirs, p, q, d, frames, x.tabs);
    NewTables(was, dirs[p], d, frames, x.tabs);
    ApartWithChild(AllTabs(was, dirs), dirs, frames, q, d, x.tabs);
  }

  lemma ApartWithChild(tabs: map<int, map<int, int>>, dirs: map<int, int>, frames: set<int>, q: int, d: int,
                       t: map<int, int>)
    requires Apart(tabs, dirs, frames) && q !in dirs && KERNEL_FRAMES <= d < POOL
    requires d !in TableFrames(t) && NewFrames(d, t) !! frames && Distinct(t)
    requires forall i :: i in t ==> KERNEL_FRAMES <= t[i] < POOL
    ensures Apart(tabs[q := t], dirs[q := d], frames + {d} + TableFrames(t))
  {
    forall i | i in t ensures t[i] !in frames && t[i] != d {
      assert t[i] in NewFrames(d, t);
    }
  }

  /** What `sys_copy_pages` does to the words: a cleared directory `d`, one turn for every
      user entry, and the kernel's entries. */
  ghost predicate ChildBuilt(was: seq<Entry>, trace: seq<Progress>, now: seq<Entry>, frames: set<int>,
                             c: map<int, int>, s: int, d: int) {
    && |trace| == USER_PDES + 1 && 0 <= d < POOL && d !in frames
    && trace[0] == Progress(trace[0].words, frames + {d}, c, map[])
    && (forall f, j :: At(trace[0].words, f, j) == if f == d then NO_ENTRY else At(was, f, j))
    && (forall k :: 0 <= k < USER_PDES ==> Turn(trace[k], trace[k + 1], s, d, k))
    && (forall f, k :: At(now, f, k) == At(trace[USER_PDES].words, if f == d && USER_PDES <= k then s else f, k))
  }

  lemma ChildReached(dirs: map<int, int>, frames: set<int>, c: map<int, int>, was: seq<Entry>, trace: seq<Progress>,
                     now: seq<Entry>, p: int, d: int)
    requires CanDuplicate(dirs, frames, c, was, p)
    requires ChildBuilt(was, trace, now, frames, c, dirs[p], d)
    ensures Duplicated(was, now, dirs[p], d, frames, trace[USER_PDES].tabs)
    ensures FramesTaken(trace[USER_PDES], d, frames)
    ensures trace[USER_PDES].counts == DirCounts(c, was, dirs[p], USER_PDES)
  {
    ForkStarts(dirs, frames, c, was, p);
    TurnsReach(was, trace, dirs[p], d, USER_PDES, frames);
    KernelHalfCopied(was, trace[USER_PDES].words, now, dirs[p], d, frames, trace[USER_PDES].tabs);
  }

  /** Building the child's words forks the address space. */
  lemma ForkComposed(m: Mem, was: seq<Entry>, trace: seq<Progress>, now: seq<Entry>, p: int, q: int, d: int)
    requires m.dirs.Keys == m.spaces.Keys == m.tabs.Keys && q !in m.dirs && 0 <= q < PROC_MAX
    requires m.tabs == AllTabs(was, m.dirs) && m.spaces == AllSpaces(was, m.dirs)
    requires CanDuplicate(m.dirs, m.frames, m.copies, was, p) && WellFormed(was, m.dirs) && |now| == POOL * PTES
    requires ChildBuilt(was, trace, now, m.frames, m.copies, m.dirs[p], d)
    ensures ForkRel(m, p, q, Mem(m.dirs[q := d], AllTabs(now, m.dirs[q := d]), trace[USER_PDES].used,
                                 AllSpaces(now, m.dirs[q := d]), trace[USER_PDES].counts, m.used, m.ram))
    ensures WellFormed(now, m.dirs[q := d])
    ensures Apart(AllTabs(now, m.dirs[q := d]), m.dirs[q := d], trace[USER_PDES].used)
  {
    ChildReached(m.dirs, m.frames, m.copies, was, trace, now, p, d);
    ForkDone(m, was, now, trace[USER_PDES], p, q, d);
    ForkShape(m.dirs, m.frames, m.copies, was, now, trace[USER_PDES], p, q, d);
  }

  lemma InvCanDuplicate(m: Mem, was: seq<Entry>, p: int)
    requires Inv(m) && p in m.dirs && m.tabs == AllTabs(was, m.dirs) && m.spaces == AllSpaces(was, m.dirs)
    requires |m.frames| + 1 + |m.tabs[p]| <= POOL && |AddAll(m.copies, Addrs(m.spaces[p]))| <= DEC_SLOTS
    ensures CanDuplicate(m.dirs, m.frames, m.copies, was, p)
  {
    InvOfWords(m, was, p);
  }
}
