/**
 Runs of the file system: any sequence of open, close, write, read, fork and exit, by any of
 the processes, from a formatted disk.
 */
module FileRuns {
  import opened Limits
  import opened Words
  import opened FileBlocks
  import opened Volume
  import opened Ownership
  import opened Growth
  import opened FileNames
  import opened FileWrites
  import opened Directory
  import opened FileCreation
  import opened Formatting
  import opened OpenFiles
  import opened DescriptorCounts

  /** The file system, the open files, and the descriptors of every process. */
  datatype World = World(v: Vol, t: Table)

  datatype Step =
    | Open(p: int, name: seq<int>, create: bool, exist: bool, append: bool)
    | Close(p: int, f: int)
    | Write(p: int, f: int, data: seq<int>)
    | Read(p: int, f: int, size: nat)
    | Fork(p: int, q: int)
    | Exit(p: int)

  /** The open file a descriptor leads to, if any. */
  function OpenFile(t: Table, p: int, f: int): Desc
    requires Shape(t) && 0 <= p < PROC_MAX && 0 <= f < FDS
  {
    assert FdsOk(t.fds[p]);
    if t.fds[p][f] == NULL then Desc(NULL, 0, 0) else t.ds[t.fds[p][f]]
  }

  /** What the callers of each operation keep to. */
  ghost predicate Allowed(t: Table, step: Step)
    requires Shape(t)
  {
    && 0 <= step.p < PROC_MAX
    && match step
       case Open(p, name, create, _, _) =>
         NULL in t.fds[p] && (exists k :: FirstFree(t.ds, k)) && (create ==> ValidName(name))
       case Write(p, f, data) => 0 <= f < FDS && OpenFile(t, p, f).pos + |data| < WORD_LIMIT
       case Close(_, f) => 0 <= f < FDS
       case Read(_, f, _) => 0 <= f < FDS
       case Fork(p, q) => 0 <= q < PROC_MAX && q != p
       case Exit(_) => true
  }

  ghost predicate Opens(w: World, step: Step, i: int, fp: int, w': World)
    requires step.Open? && HasDirectory(w.v)
  {
    && Resolved(w.v, step.name, step.create, step.exist, i, w'.v)
    && if i == NULL then w'.t == w.t
       else && 0 <= i < |w'.v.inodes|
            && OpenRel(w.t, step.p, i, if step.append then w'.v.inodes[i].size else 0, fp, w'.t)
  }

  ghost predicate Writes(w: World, step: Step, w': World)
    requires step.Write? && Shape(w.t) && Allowed(w.t, step)
  {
    var d := OpenFile(w.t, step.p, step.f);
    && w'.t == w.t
    && if d.inode == NULL then w'.v == w.v
       else 0 <= d.pos && WriteEnds(w.v, d.inode, Span(d.pos, step.data), w'.v)
  }

  ghost predicate Next(w: World, step: Step, w': World) {
    && HasDirectory(w.v) && Shape(w.t) && Allowed(w.t, step)
    && match step
       case Open(_, _, _, _, _) => exists i, fp :: Opens(w, step, i, fp, w')
       case Write(_, _, _) => Writes(w, step, w')
       case Close(p, f) => assert FdsOk(w.t.fds[p]); w' == w.(t := AfterClose(w.t, p, f))
       case Read(_, _, _) => w' == w
       case Fork(p, q) => w' == w.(t := AfterFork(w.t, p, q))
       case Exit(p) => w' == w.(t := AfterCloses(w.t, p, 0))
  }

  /** The state after a format and the load that follows it: nothing is open. */
  ghost predicate Fresh(w: World) {
    && FreshDisk(w.v)
    && w.t == Table(seq(DESCS, _ => Desc(NULL, 0, 0)), seq(PROC_MAX, _ => seq(FDS, _ => NULL)))
  }

  ghost predicate FreshDisk(v: Vol) {
    exists was :: Formatted(was, v.disk) && Sectors(v.disk) && v.meta == Layout(|v.disk|)
      && 0 < v.meta.inodeMapStart < |v.disk| && 0 <= v.meta.tableStart && v.meta.tableStart + TABLE_SECTORS <= |v.disk|
      && v == Loaded(v.disk, v.meta)
  }

  ghost predicate Run(ws: seq<World>, steps: seq<Step>) {
    && |ws| == |steps| + 1 && Fresh(ws[0])
    && forall k {:trigger steps[k]} :: 0 <= k < |steps| ==> Next(ws[k], steps[k], ws[k + 1])
  }

  /** Sectors and names are in order, and every cursor lies within its file. */
  ghost predicate Orderly(w: World) {
    Inv(w.v) && HasSuper(w.v) && Shape(w.t) && CursorsOk(w.v, w.t.ds)
  }

  /** A write has the sectors it needs. */
  ghost predicate Supplied(w: World, step: Step)
    requires step.Write? && Shape(w.t) && Allowed(w.t, step)
  {
    var d := OpenFile(w.t, step.p, step.f);
    d.inode != NULL && 0 <= d.pos ==> Covered(w.v, d.inode, Span(d.pos, step.data).Last())
  }

  /** An open creates no second entry for a name. */
  ghost predicate NoClash(w: World, step: Step) {
    step.Open? && step.create && Clashes(w.v, step.name) ==> Full(w.v)
  }

  ghost predicate Harmless(w: World, step: Step)
    requires Shape(w.t) && Allowed(w.t, step)
  {
    NoClash(w, step) && (step.Write? ==> Supplied(w, step))
  }

  // ----- one step -----

  lemma {:induction false} ClosesKeepCursors(v: Vol, t: Table, p: int, f: nat)
    requires Shape(t) && 0 <= p < PROC_MAX && f <= FDS && CursorsOk(v, t.ds)
    ensures CursorsOk(v, AfterCloses(t, p, f).ds)
    decreases FDS - f
  {
    assert FdsOk(t.fds[p]);
    if f < FDS {
      CloseKeepsCursors(v, t, p, f);
      ClosesKeepCursors(v, AfterClose(t, p, f), p, f + 1);
    }
  }

  lemma CloseKeepsCursors(v: Vol, t: Table, p: int, f: nat)
    requires Shape(t) && 0 <= p < PROC_MAX && f < FDS && CursorsOk(v, t.ds)
    ensures FdsOk(t.fds[p]) && Shape(AfterClose(t, p, f)) && CursorsOk(v, AfterClose(t, p, f).ds)
  {
    assert FdsOk(t.fds[p]);
    var u := AfterClose(t, p, f);
    forall k | 0 <= k < DESCS ensures CursorOk(v, u.ds[k]) {
      assert CursorOk(v, t.ds[k]);
    }
  }

  lemma OpenKeepsCursors(v: Vol, t: Table, p: int, i: int, pos: int, fp: int, t': Table)
    requires OpenRel(t, p, i, pos, fp, t') && CursorsOk(v, t.ds) && Live(v, i) && i != 0 && 0 <= pos <= v.inodes[i].size
    ensures Shape(t') && CursorsOk(v, t'.ds)
  {
    var k :| 0 <= k < |t.ds| && FirstFree(t.ds, k) && t'.fds[p] == t.fds[p][fp := k]
      && t'.ds == t.ds[k := Opened(t.ds[k], i, pos)];
    assert FdsOk(t.fds[p]);
    forall j | 0 <= j < DESCS ensures CursorOk(v, t'.ds[j]) {
      assert CursorOk(v, t.ds[j]);
    }
  }

  /** Looking a name up, or creating it. */
  lemma ResolvedKeeps(v: Vol, name: seq<int>, create: bool, exist: bool, i: int, y: Vol, ds: seq<Desc>)
    requires Inv(v) && Resolved(v, name, create, exist, i, y) && CursorsOk(v, ds)
    ensures Sound(y) && CursorsOk(y, ds) && y.meta == v.meta && |y.disk| == |v.disk| && y.disk[0] == v.disk[0]
    ensures Inv(y) <==> (create && Clashes(v, name) ==> Full(v))
    ensures y != v ==> Synced(y)
    ensures i != NULL ==> Live(y, i) && i != 0
    ensures forall j :: Live(v, j) && j != 0 ==> Live(y, j) && FileBytes(y, j) == FileBytes(v, j)
  {
    CreateFailsExactly(v, y);
    if Lookup(v, name) != NONE {
      LookupIsMap(v, name, Lookup(v, name));
    } else if create && i != NULL {
      CreateKeepsFiles(v, name, i, y);
      CreateKeepsCursors(v, name, i, y, ds);
      CreateKeepsSuper(v, name, i, y);
    }
  }

  /** What an open does to the file system. */
  lemma OpenStep(w: World, step: Step, w': World)
    requires Orderly(w) && step.Open? && Next(w, step, w')
    ensures Sound(w'.v) && Shape(w'.t) && CursorsOk(w'.v, w'.t.ds) && HasSuper(w'.v)
    ensures |w'.v.disk| == |w.v.disk| && w'.v.meta == w.v.meta
    ensures Inv(w'.v) <==> NoClash(w, step)
    ensures w'.v != w.v ==> Synced(w'.v)
    ensures forall j :: Live(w.v, j) && j != 0 ==> Live(w'.v, j) && FileBytes(w'.v, j) == FileBytes(w.v, j)
  {
    var i, fp :| Opens(w, step, i, fp, w');
    ResolvedKeeps(w.v, step.name, step.create, step.exist, i, w'.v, w.t.ds);
    if i != NULL {
      OpenKeepsCursors(w'.v, w.t, step.p, i, if step.append then w'.v.inodes[i].size else 0, fp, w'.t);
    }
  }

  lemma CreateKeepsSuper(v: Vol, name: seq<int>, j: int, y: Vol)
    requires Inv(v) && CreateOk(v, name, j, y)
    ensures y.meta == v.meta && |y.disk| == |v.disk| && y.disk[0] == v.disk[0]
  {
    DirectoryBlocks(v);
    var n, x :| Created(v, name, n, j, x) && SyncRel(x, y);
    SyncSyncs(x, y);
  }

  /** What a write does to it. */
  lemma WriteStep(w: World, step: Step, w': World)
    requires Orderly(w) && step.Write? && Next(w, step, w')
    ensures Shape(w'.t) && CursorsOk(w'.v, w'.t.ds)
    ensures Inv(w'.v) <==> Supplied(w, step)
    ensures Inv(w'.v) ==> HasSuper(w'.v) && |w'.v.disk| == |w.v.disk| && w'.v.meta == w.v.meta
    ensures Inv(w'.v) ==> forall j :: Live(w.v, j) && j != 0 && j != OpenFile(w.t, step.p, step.f).inode ==>
              Live(w'.v, j) && FileBytes(w'.v, j) == FileBytes(w.v, j)
  {
    var d := OpenFile(w.t, step.p, step.f);
    assert FdsOk(w.t.fds[step.p]);
    if d.inode != NULL {
      assert CursorOk(w.v, w.t.ds[w.t.fds[step.p][step.f]]);
      var s := Span(d.pos, step.data);
      WriteKeepsCursors(w.v, d.inode, s, w'.v, w.t.ds);
      if Covered(w.v, d.inode, s.Last()) {
        WriteKeepsNames(w.v, d.inode, s, w'.v);
        forall j | Live(w.v, j) && j != 0 && j != d.inode ensures FileBytes(w'.v, j) == FileBytes(w.v, j) {
          assert w'.v.inodes[j] == w.v.inodes[j];
        }
      }
    }
  }

  /** A step keeps everything in order exactly if it is harmless: a write that needs more
      sectors than are free, or a second entry for a name, are the only ways to lose it. */
  lemma StepKeepsOrderExactly(w: World, step: Step, w': World)
    requires Orderly(w) && Next(w, step, w')
    ensures Orderly(w') <==> Harmless(w, step)
  {
    match step
    case Open(_, _, _, _, _) => OpenStep(w, step, w');
    case Write(_, _, _) => WriteStep(w, step, w');
    case Close(p, f) => CloseKeepsCursors(w.v, w.t, p, f);
    case Read(_, _, _) =>
    case Fork(p, q) => assert FdsOk(w.t.fds[p]);
    case Exit(p) => ClosesKeepCursors(w.v, w.t, p, 0);
  }

  // ----- runs -----

  lemma FreshOrderly(w: World)
    requires Fresh(w)
    ensures Orderly(w) && forall name :: Lookup(w.v, name) == NONE
  {
    var was :| Formatted(was, w.v.disk);
    FormatStarts(was, w.v.disk);
  }

  /** A step can be taken, and does no harm. */
  ghost predicate GoesWell(ws: seq<World>, steps: seq<Step>, k: int) {
    0 <= k < |steps| && |ws| == |steps| + 1 && Next(ws[k], steps[k], ws[k + 1]) && Harmless(ws[k], steps[k])
  }

  /** In every state of every run of harmless steps each data sector in use belongs to exactly
      one block of one file or of the directory, the directory names every file once, and
      every cursor lies within its file. */
  lemma {:induction false} RunKeepsOrder(ws: seq<World>, steps: seq<Step>, n: nat)
    requires Run(ws, steps) && n <= |steps| && forall k :: 0 <= k < n ==> GoesWell(ws, steps, k)
    ensures Orderly(ws[n])
  {
    if n == 0 {
      FreshOrderly(ws[0]);
    } else {
      RunKeepsOrder(ws, steps, n - 1);
      assert GoesWell(ws, steps, n - 1);
      StepKeepsOrderExactly(ws[n - 1], steps[n - 1], ws[n]);
    }
  }

  /** ... and only of those. */
  lemma RunOrderlyExactly(ws: seq<World>, steps: seq<Step>)
    requires Run(ws, steps)
    ensures (forall n :: 0 <= n < |ws| ==> Orderly(ws[n])) <==>
            (forall k :: 0 <= k < |steps| ==> GoesWell(ws, steps, k))
  {
    if forall k :: 0 <= k < |steps| ==> GoesWell(ws, steps, k) {
      forall n | 0 <= n < |ws| ensures Orderly(ws[n]) { RunKeepsOrder(ws, steps, n); }
    }
    if forall n :: 0 <= n < |ws| ==> Orderly(ws[n]) {
      forall k | 0 <= k < |steps| ensures GoesWell(ws, steps, k) {
        assert Next(ws[k], steps[k], ws[k + 1]) && Orderly(ws[k]) && Orderly(ws[k + 1]);
        StepKeepsOrderExactly(ws[k], steps[k], ws[k + 1]);
      }
    }
  }

  /** On a disk with a sector for every block there can be, sectors never run out: whatever is
      written, everything is in order as long as no name gets a second entry. */
  lemma {:induction false} LargeDiskKeepsOrder(ws: seq<World>, steps: seq<Step>, n: nat)
    requires Run(ws, steps) && n <= |steps| && Roomy(ws[0].v)
    requires forall k :: 0 <= k < n ==> NoClash(ws[k], steps[k])
    ensures Orderly(ws[n]) && Roomy(ws[n].v)
  {
    if n == 0 {
      FreshOrderly(ws[0]);
    } else {
      var w, step := ws[n - 1], steps[n - 1];
      LargeDiskKeepsOrder(ws, steps, n - 1);
      assert NoClash(w, step) && Next(w, step, ws[n - 1 + 1]);
      LargeDiskHarmless(w, step);
      StepKeepsOrderExactly(w, step, ws[n]);
      StepKeepsSize(w, step, ws[n]);
    }
  }

  lemma LargeDiskHarmless(w: World, step: Step)
    requires Orderly(w) && Allowed(w.t, step) && Roomy(w.v) && NoClash(w, step)
    ensures Harmless(w, step)
  {
    if step.Write? {
      var d := OpenFile(w.t, step.p, step.f);
      assert FdsOk(w.t.fds[step.p]);
      if d.inode != NULL {
        assert CursorOk(w.v, w.t.ds[w.t.fds[step.p][step.f]]);
        RoomyCovers(w.v, d.inode, Span(d.pos, step.data).Last());
      }
    }
  }

  lemma StepKeepsSize(w: World, step: Step, w': World)
    requires Orderly(w) && Next(w, step, w') && Orderly(w')
    ensures w'.v.meta == w.v.meta && |w'.v.disk| == |w.v.disk|
  {
    match step
    case Open(_, _, _, _, _) => OpenStep(w, step, w');
    case Write(_, _, _) => WriteStep(w, step, w');
    case Close(_, _) =>
    case Read(_, _, _) =>
    case Fork(_, _) =>
    case Exit(_) =>
  }

  /** Two blocks in use are the same sector only if they are the same block of the same file. */
  lemma SectorsOwnedOnce(ws: seq<World>, steps: seq<Step>, n: nat, i: int, b: int, j: int, c: int)
    requires Run(ws, steps) && n <= |steps| && forall k :: 0 <= k < n ==> GoesWell(ws, steps, k)
    requires HasBlock(ws[n].v, i, b) && HasBlock(ws[n].v, j, c)
    ensures Ptr(ws[n].v, i, b) == Ptr(ws[n].v, j, c) ==> i == j && b == c
    ensures InUse(ws[n].v, Ptr(ws[n].v, i, b))
  {
    RunKeepsOrder(ws, steps, n);
  }

  /** The step ends with `sync_inode`: a write that returns its size, or a create. */
  ghost predicate Succeeds(w: World, step: Step, w': World)
    requires Shape(w.t) && Allowed(w.t, step)
  {
    match step
    case Open(_, _, _, _, _) => w'.v != w.v
    case Write(p, f, data) =>
      var d := OpenFile(w.t, p, f);
      d.inode != NULL && 0 <= d.pos && Span(d.pos, data).Last() < DIRECT
    case _ => false
  }

  /** A restart after a step that succeeded finds what was in memory. */
  lemma RestartAfterSuccess(ws: seq<World>, steps: seq<Step>, k: nat)
    requires Run(ws, steps) && k < |steps| && forall j :: 0 <= j <= k ==> GoesWell(ws, steps, j)
    requires GoesWell(ws, steps, k) && Succeeds(ws[k], steps[k], ws[k + 1])
    ensures var v := ws[k + 1].v;
            && Sectors(v.disk) && |v.disk| > 0 && |v.disk[0]| == SECTOR && MagicOf(v.disk[0]) == MAGIC
            && 0 <= v.meta.inodeMapStart < |v.disk|
            && 0 <= v.meta.tableStart && v.meta.tableStart + TABLE_SECTORS <= |v.disk|
            && MetaOf(v.disk[0]) == v.meta && Loaded(v.disk, MetaOf(v.disk[0])) == v
  {
    RunKeepsOrder(ws, steps, k);
    RunKeepsOrder(ws, steps, k + 1);
    SuccessSyncs(ws[k], steps[k], ws[k + 1]);
    RestartRestores(ws[k + 1].v);
  }

  lemma SuccessSyncs(w: World, step: Step, w': World)
    requires Orderly(w) && Next(w, step, w') && Succeeds(w, step, w')
    ensures Synced(w'.v)
  {
    if step.Open? {
      OpenStep(w, step, w');
    } else {
      var d := OpenFile(w.t, step.p, step.f);
      SyncSyncs(StoredFile(Grow(w.v, d.inode, Span(d.pos, step.data).Last()), d.inode, Span(d.pos, step.data)), w'.v);
    }
  }

  // ----- what a file keeps -----

  ghost predicate SameFile(w: World, w': World, i: int) {
    && i != 0 && Orderly(w) && Orderly(w') && Live(w.v, i) && Live(w'.v, i)
    && FileBytes(w'.v, i) == FileBytes(w.v, i)
  }

  lemma SameFileThrough(w: World, x: World, y: World, i: int)
    requires SameFile(w, x, i) && SameFile(x, y, i)
    ensures SameFile(w, y, i)
  {
  }

  /** The step is a write to file `i`. */
  ghost predicate WritesFile(w: World, step: Step, i: int) {
    step.Write? && Shape(w.t) && Allowed(w.t, step) && OpenFile(w.t, step.p, step.f).inode == i
  }

  lemma StepKeepsBytes(w: World, step: Step, w': World, i: int)
    requires Orderly(w) && Orderly(w') && Next(w, step, w') && Live(w.v, i) && i != 0 && !WritesFile(w, step, i)
    ensures SameFile(w, w', i)
  {
    match step
    case Open(_, _, _, _, _) => OpenStep(w, step, w');
    case Write(_, _, _) => WriteStep(w, step, w');
    case Close(_, _) =>
    case Read(_, _, _) =>
    case Fork(_, _) =>
    case Exit(_) =>
  }

  /** A file keeps its bytes through every step that does not write it, whoever takes it. */
  lemma {:induction false} OthersKeepBytes(ws: seq<World>, steps: seq<Step>, i: int, k: nat, n: nat)
    requires Run(ws, steps) && k <= n <= |steps| && i != 0 && Live(ws[k].v, i)
    requires forall m :: 0 <= m < n ==> GoesWell(ws, steps, m)
    requires forall m :: k <= m < n ==> !WritesFile(ws[m], steps[m], i)
    ensures SameFile(ws[k], ws[n], i)
  {
    RunKeepsOrder(ws, steps, n);
    if k < n {
      OthersKeepBytes(ws, steps, i, k, n - 1);
      assert GoesWell(ws, steps, n - 1) && !WritesFile(ws[n - 1], steps[n - 1], i);
      StepKeepsBytes(ws[n - 1], steps[n - 1], ws[n - 1 + 1], i);
      SameFileThrough(ws[k], ws[n - 1], ws[n], i);
    }
  }
}
