/**
 What `sys_do_write` does to the file system: to the file it writes, and to everything else.
 */
module FileWrites {
  import opened Words
  import opened FileBlocks
  import opened SectorMap
  import opened Volume
  import opened Ownership
  import opened Growth

  /** The bytes of file `i`. */
  function FileBytes(v: Vol, i: int): (s: seq<int>)
    requires Sound(v) && Live(v, i) && i != 0
    ensures |s| == v.inodes[i].size
  {
    LiveOnDisk(v, i);
    Contents(v.disk, v.meta.dataStart, v.inodes[i])
  }

  // ----- the steps of a write -----

  /** The blocks are stored and the size is set. */
  ghost predicate Stored(u: Vol, x: Vol, i: int, w: Span) {
    && 0 <= i < |u.inodes| && x == u.(disk := x.disk, inodes := u.inodes[i := Sized(u.inodes[i], w)])
    && WrittenTo(u.disk, x.disk, u.meta.dataStart, u.inodes[i], w, w.Last() + 1)
  }

  /** A write that returns its size: the file grows as far as it must, the blocks are stored,
      and the tables are synced. */
  ghost predicate WriteOk(v: Vol, i: int, w: Span, y: Vol) {
    exists u, x :: WriteSteps(v, u, x, y, i, w)
  }

  ghost predicate WriteSteps(v: Vol, u: Vol, x: Vol, y: Vol, i: int, w: Span) {
    && Grown(v, u, i) && u.inodes[i].count == Max(v.inodes[i].count, w.Last() + 1)
    && Stored(u, x, i, w) && SyncRel(x, y)
  }

  /** A write that returns -1: the file has all the blocks an inode can have, and that is not enough. */
  ghost predicate WriteFails(v: Vol, i: int, w: Span, y: Vol) {
    Grown(v, y, i) && y.inodes[i].count == DIRECT <= w.Last()
  }

  /** The blocks are stored, wherever they lie, and the size is set. */
  function StoredFile(u: Vol, i: int, w: Span): Vol
    requires Formed(u) && 0 <= i < INODES && w.Last() < DIRECT
  {
    assert IsInode(u.inodes[i]);
    u.(disk := StoredBlocks(u.disk, u.meta.dataStart, u.inodes[i], w, w.Last() + 1),
       inodes := u.inodes[i := Sized(u.inodes[i], w)])
  }

  /** `sys_do_write`, whether or not the disk has the sectors the file needs. */
  ghost predicate WriteEnds(v: Vol, i: int, w: Span, y: Vol) {
    && Formed(v) && 0 <= i < INODES && 0 <= v.inodes[i].count <= DIRECT
    && var u := Grow(v, i, w.Last());
       if w.Last() < DIRECT then SyncRel(StoredFile(u, i, w), y) else y == u
  }

  /** The position is in a file. */
  ghost predicate InFile(v: Vol, i: int, w: Span) {
    Sound(v) && Live(v, i) && i != 0 && w.pos <= v.inodes[i].size
  }

  // ----- what they keep -----

  /** A change of data sectors, outside the map and the tables. */
  ghost predicate OnlyData(u: Vol, x: Vol) {
    && |x.disk| == |u.disk| && Sectors(x.disk) && x.meta == u.meta && x.marks == u.marks
    && forall s {:trigger x.disk[s]} :: 0 <= s < |u.disk| && s < u.meta.dataStart ==> x.disk[s] == u.disk[s]
  }

  lemma SameMap(u: Vol, x: Vol)
    requires Formed(u) && |x.disk| == |u.disk| && Sectors(x.disk) && x.meta == u.meta
    requires forall s {:trigger x.disk[s]} :: u.meta.mapStart <= s < u.meta.inodeMapStart ==> x.disk[s] == u.disk[s]
    ensures IsMap(x.disk, x.meta.mapStart, x.meta.inodeMapStart)
    ensures forall t :: InUse(x, t) <==> InUse(u, t)
  {
    LayoutOrdered(|u.disk|);
    forall t ensures InUse(x, t) <==> InUse(u, t) {
      if 0 <= t < SECTOR * (u.meta.inodeMapStart - u.meta.mapStart) {
        var s := u.meta.mapStart + t / SECTOR;
        assert x.disk[s] == u.disk[s];
      }
    }
  }

  /** The same blocks, in an order of things where the same sectors are in use. */
  lemma SameBlocksSound(u: Vol, x: Vol)
    requires Sound(u) && Formed(x) && Files(x) && x.meta == u.meta && |x.disk| == |u.disk| && x.marks == u.marks
    requires forall t :: InUse(x, t) <==> InUse(u, t)
    requires forall i {:trigger x.inodes[i]} :: 0 <= i < INODES ==>
               && x.inodes[i].count == u.inodes[i].count && x.inodes[i].ptrs == u.inodes[i].ptrs
               && (i == 0 ==> x.inodes[i] == u.inodes[i])
    ensures Sound(x)
  {
    forall i, b | HasBlock(x, i, b) ensures HasBlock(u, i, b) && Ptr(x, i, b) == Ptr(u, i, b) {}
    forall t | InUse(x, t) ensures Owns(x, t) {
      var i, b :| HasBlock(u, i, b) && Ptr(u, i, b) == t;
      assert HasBlock(x, i, b) && Ptr(x, i, b) == t;
    }
  }

  /** The stores of a write lie in the data region. */
  lemma StoredOnlyData(u: Vol, x: Vol, i: int, w: Span)
    requires Sound(u) && Live(u, i) && i != 0 && Stored(u, x, i, w) && w.pos <= u.inodes[i].size
    ensures OnlyData(u, x) && SizeFits(u.inodes[i]) && SizeFits(x.inodes[i])
  {
    LiveOnDisk(u, i);
    WrittenOnDisk(u.disk, x.disk, u.meta.dataStart, u.inodes[i], w);
    forall b | 0 <= b < u.inodes[i].count ensures Addr(u.meta.dataStart, u.inodes[i].ptrs, b) >= u.meta.dataStart {
      assert HasBlock(u, i, b) && 0 <= Ptr(u, i, b);
    }
  }

  lemma StoredSound(u: Vol, x: Vol, i: int, w: Span)
    requires Sound(u) && Live(u, i) && i != 0 && Stored(u, x, i, w) && w.pos <= u.inodes[i].size
    ensures Sound(x)
  {
    StoredOnlyData(u, x, i, w);
    LayoutOrdered(|u.disk|);
    SameMap(u, x);
    assert w.Last() < u.inodes[i].count <= DIRECT;
    assert IsInode(u.inodes[i]) && IsInode(x.inodes[i]);
    assert Formed(x);
    forall j | Live(x, j) && j != 0 ensures Live(u, j) {}
    SameBlocksSound(u, x);
  }

  lemma SyncSound(x: Vol, y: Vol)
    requires Sound(x) && SyncRel(x, y)
    ensures Sound(y) && Synced(y)
  {
    LayoutOrdered(|x.disk|);
    SyncSyncs(x, y);
    SameMap(x, y);
    forall j | Live(y, j) && j != 0 ensures Live(x, j) {}
    SameBlocksSound(x, y);
  }

  /** A file whose blocks are untouched keeps its bytes. */
  lemma BytesKept(u: Vol, x: Vol, j: int)
    requires Sound(u) && Sound(x) && Live(u, j) && Live(x, j) && j != 0
    requires x.meta == u.meta && |x.disk| == |u.disk| && Longer(u.inodes[j], x.inodes[j])
    requires forall s :: 0 <= s < |u.disk| && IsBlock(u.meta.dataStart, u.inodes[j], s) ==> x.disk[s] == u.disk[s]
    ensures FileBytes(x, j) == FileBytes(u, j)
  {
    LiveOnDisk(u, j);
    LiveOnDisk(x, j);
    forall k | 0 <= k < u.inodes[j].size
      ensures ByteAt(x.disk, x.meta.dataStart, x.inodes[j], k) == ByteAt(u.disk, u.meta.dataStart, u.inodes[j], k)
    {
      assert k / SECTOR < u.inodes[j].count;
      assert IsBlock(u.meta.dataStart, u.inodes[j], Addr(u.meta.dataStart, u.inodes[j].ptrs, k / SECTOR));
    }
  }

  /** The block of one inode is not a block of another, nor of the directory or the tables. */
  lemma BlocksApart(u: Vol, i: int, j: int, s: int)
    requires Sound(u) && Live(u, i) && Live(u, j) && i != j && IsBlock(u.meta.dataStart, u.inodes[j], s)
    ensures !IsBlock(u.meta.dataStart, u.inodes[i], s) && s >= u.meta.dataStart
  {
    var c :| 0 <= c < u.inodes[j].count <= |u.inodes[j].ptrs| && Addr(u.meta.dataStart, u.inodes[j].ptrs, c) == s;
    assert HasBlock(u, j, c) && 0 <= Ptr(u, j, c);
    forall b | 0 <= b < u.inodes[i].count <= |u.inodes[i].ptrs|
      ensures Addr(u.meta.dataStart, u.inodes[i].ptrs, b) != s
    {
      assert HasBlock(u, i, b) && Ptr(u, i, b) != Ptr(u, j, c);
    }
  }

  /** What a change leaves as it is: the superblock, the directory's sectors, and every
      allocated inode but `i` with the bytes of its file. */
  ghost predicate LeavesOthers(v: Vol, y: Vol, i: int)
    requires Sound(v) && Sound(y)
  {
    && y.meta == v.meta && y.marks == v.marks && |y.disk| == |v.disk|
    && y.disk[0] == v.disk[0]
    && y.disk[v.meta.dataStart] == v.disk[v.meta.dataStart]
    && y.disk[v.meta.dataStart + 1] == v.disk[v.meta.dataStart + 1]
    && forall j {:trigger y.inodes[j]} :: Live(v, j) && j != i ==>
         y.inodes[j] == v.inodes[j] && (j != 0 ==> FileBytes(y, j) == FileBytes(v, j))
  }

  lemma LeavesTransitive(u: Vol, x: Vol, y: Vol, i: int)
    requires Sound(u) && Sound(x) && Sound(y) && LeavesOthers(u, x, i) && LeavesOthers(x, y, i)
    ensures LeavesOthers(u, y, i)
  {
    forall j | Live(u, j) && j != i
      ensures y.inodes[j] == u.inodes[j] && (j != 0 ==> FileBytes(y, j) == FileBytes(u, j))
    {
      assert x.inodes[j] == u.inodes[j] && Live(x, j);
    }
  }

  lemma DirectoryBlocks(u: Vol)
    requires Sound(u)
    ensures u.meta.dataStart + 2 <= |u.disk|
    ensures u.meta.dataStart > u.meta.tableStart > u.meta.inodeMapStart > u.meta.mapStart > 0
    ensures IsBlock(u.meta.dataStart, u.inodes[0], u.meta.dataStart)
    ensures IsBlock(u.meta.dataStart, u.inodes[0], u.meta.dataStart + 1)
  {
    LayoutOrdered(|u.disk|);
    assert Addr(u.meta.dataStart, u.inodes[0].ptrs, 0) == u.meta.dataStart;
    assert Addr(u.meta.dataStart, u.inodes[0].ptrs, 1) == u.meta.dataStart + 1;
  }

  lemma StoredLeaves(u: Vol, x: Vol, i: int, w: Span)
    requires Sound(u) && Sound(x) && Live(u, i) && i != 0 && Stored(u, x, i, w) && w.pos <= u.inodes[i].size
    ensures LeavesOthers(u, x, i)
  {
    StoredOnlyData(u, x, i, w);
    DirectoryBlocks(u);
    BlocksApart(u, i, 0, u.meta.dataStart);
    BlocksApart(u, i, 0, u.meta.dataStart + 1);
    forall j | Live(u, j) && j != i && j != 0 ensures FileBytes(x, j) == FileBytes(u, j) {
      forall s | 0 <= s < |u.disk| && IsBlock(u.meta.dataStart, u.inodes[j], s) ensures x.disk[s] == u.disk[s] {
        BlocksApart(u, i, j, s);
      }
      assert IsInode(u.inodes[j]);
      BytesKept(u, x, j);
    }
  }

  /** A change outside the data region, and outside sector 0. */
  lemma TablesLeave(u: Vol, x: Vol, i: int)
    requires Sound(u) && Sound(x) && x.meta == u.meta && x.marks == u.marks && |x.disk| == |u.disk|
    requires forall s {:trigger x.disk[s]} :: 0 <= s < |u.disk| && !(u.meta.mapStart <= s < u.meta.dataStart) ==>
               x.disk[s] == u.disk[s]
    requires forall j {:trigger x.inodes[j]} :: 0 <= j < INODES && j != i ==> x.inodes[j] == u.inodes[j]
    ensures LeavesOthers(u, x, i)
  {
    DirectoryBlocks(u);
    forall j | Live(u, j) && j != i && j != 0 ensures FileBytes(x, j) == FileBytes(u, j) {
      forall s | 0 <= s < |u.disk| && IsBlock(u.meta.dataStart, u.inodes[j], s) ensures x.disk[s] == u.disk[s] {
        BlocksApart(u, 0, j, s);
      }
      assert IsInode(u.inodes[j]);
      BytesKept(u, x, j);
    }
  }

  /** Blocks of file `i` lie in the data region too. */
  lemma TablesKeepBytes(u: Vol, x: Vol, i: int)
    requires Sound(u) && Sound(x) && x.meta == u.meta && |x.disk| == |u.disk| && Live(u, i) && Live(x, i) && i != 0
    requires forall s {:trigger x.disk[s]} :: 0 <= s < |u.disk| && !(u.meta.mapStart <= s < u.meta.dataStart) ==>
               x.disk[s] == u.disk[s]
    requires Longer(u.inodes[i], x.inodes[i])
    ensures FileBytes(x, i) == FileBytes(u, i)
  {
    forall s | 0 <= s < |u.disk| && IsBlock(u.meta.dataStart, u.inodes[i], s) ensures x.disk[s] == u.disk[s] {
      BlocksApart(u, 0, i, s);
    }
    BytesKept(u, x, i);
  }

  // ----- the main results -----

  /** A successful write: everything stays in order and in sync, other files and the directory
      keep every byte, and the file written gets the new bytes spliced in iff the write is exact. */
  lemma WriteIsSafe(v: Vol, i: int, w: Span, y: Vol)
    requires Sound(v) && Live(v, i) && i != 0 && w.pos <= v.inodes[i].size && WriteOk(v, i, w, y)
    ensures Sound(y) && Synced(y) && LeavesOthers(v, y, i) && Live(y, i)
    ensures y.inodes[i].size == Max(v.inodes[i].size, w.pos + |w.bytes|)
    ensures FileBytes(y, i) == Spliced(FileBytes(v, i), w.pos, w.bytes) <==> Exact(w)
  {
    var u, x :| WriteSteps(v, u, x, y, i, w);
    GrownLeaves(v, u, i);
    StoredSound(u, x, i, w);
    StoredLeaves(u, x, i, w);
    StoredBytes(u, x, i, w);
    SyncLeaves(x, y, i);
    LeavesTransitive(v, u, x, i);
    LeavesTransitive(v, x, y, i);
  }

  lemma GrownLeaves(v: Vol, u: Vol, i: int)
    requires Sound(v) && Grown(v, u, i) && Live(v, i) && i != 0
    ensures Sound(u) && LeavesOthers(v, u, i) && Live(u, i) && FileBytes(u, i) == FileBytes(v, i)
    ensures u.inodes[i].size == v.inodes[i].size
  {
    GrownSound(v, u, i);
    DirectoryBlocks(v);
    TablesLeave(v, u, i);
    TablesKeepBytes(v, u, i);
  }

  lemma StoredBytes(u: Vol, x: Vol, i: int, w: Span)
    requires Sound(u) && Sound(x) && Live(u, i) && i != 0 && Stored(u, x, i, w) && w.pos <= u.inodes[i].size
    ensures Live(x, i) && x.inodes[i].size == Max(u.inodes[i].size, w.pos + |w.bytes|)
    ensures FileBytes(x, i) == Spliced(FileBytes(u, i), w.pos, w.bytes) <==> Exact(w)
  {
    LiveOnDisk(u, i);
    LiveOnDisk(x, i);
    WriteExactly(u.disk, x.disk, u.meta.dataStart, u.inodes[i], w);
  }

  lemma SyncLeaves(x: Vol, y: Vol, i: int)
    requires Sound(x) && SyncRel(x, y) && Live(x, i) && i != 0
    ensures Sound(y) && Synced(y) && LeavesOthers(x, y, i) && Live(y, i) && FileBytes(y, i) == FileBytes(x, i)
    ensures y.inodes == x.inodes
  {
    SyncSound(x, y);
    SyncSyncs(x, y);
    DirectoryBlocks(x);
    TablesLeave(x, y, i);
    assert IsInode(x.inodes[i]);
    TablesKeepBytes(x, y, i);
  }

  /** A write that fails leaves every file, the one it was for too, with the bytes it had. */
  lemma FailedWriteKeepsBytes(v: Vol, i: int, w: Span, y: Vol)
    requires Sound(v) && Live(v, i) && i != 0 && WriteFails(v, i, w, y)
    ensures Sound(y) && LeavesOthers(v, y, i) && Live(y, i)
    ensures y.inodes[i].size == v.inodes[i].size && FileBytes(y, i) == FileBytes(v, i)
  {
    GrownLeaves(v, y, i);
  }

  // ----- with and without enough sectors -----

  /** With them a write is one of the two above. */
  lemma EndsWell(v: Vol, i: int, w: Span, y: Vol)
    requires InFile(v, i, w) && WriteEnds(v, i, w, y) && Covered(v, i, w.Last())
    ensures if w.Last() < DIRECT then WriteOk(v, i, w, y) else WriteFails(v, i, w, y)
  {
    var u := Grow(v, i, w.Last());
    GrownNot(v, i);
    GrowGrown(v, v, i, w.Last());
    GrowCounts(v, i, w.Last());
    if w.Last() < DIRECT {
      GrownSound(v, u, i);
      StoredOnDisk(u, i, w);
      assert WriteSteps(v, u, StoredFile(u, i, w), y, i, w);
    }
  }

  lemma StoredOnDisk(u: Vol, i: int, w: Span)
    requires Sound(u) && Live(u, i) && i != 0 && w.Last() < u.inodes[i].count
    ensures w.Last() < DIRECT && Stored(u, StoredFile(u, i, w), i, w)
  {
    LiveOnDisk(u, i);
    StoredWritten(u.disk, u.meta.dataStart, u.inodes[i], w, w.Last() + 1);
  }

  /** The block stores never reach the sector map, so the sync finds tables it can write. */
  lemma StoresFormed(v: Vol, i: int, w: Span)
    requires InFile(v, i, w) && w.Last() < DIRECT
    ensures Formed(StoredFile(Grow(v, i, w.Last()), i, w))
  {
    var u := Grow(v, i, w.Last());
    GrowCounts(v, i, w.Last());
    if Covered(v, i, w.Last()) {
      GrownNot(v, i);
      GrowGrown(v, v, i, w.Last());
      GrownSound(v, u, i);
      StoredOnDisk(u, i, w);
      StoredSound(u, StoredFile(u, i, w), i, w);
    } else {
      BlocksHigh(v, i, w.Last());
      StoredHigh(u, i, w);
    }
  }

  /** On a disk so small that sectors can run out, the blocks lie where they should, past the
      end of the disk, or, for the pointer -1, just in front of the data. */
  lemma BlocksHigh(v: Vol, i: int, last: nat)
    requires Sound(v) && Live(v, i) && i != 0 && !Covered(v, i, last)
    ensures var u := Grow(v, i, last);
            forall b :: 0 <= b < u.inodes[i].count <= |u.inodes[i].ptrs| ==>
              Addr(v.meta.dataStart, u.inodes[i].ptrs, b) >= v.meta.dataStart - 1
  {
    if Roomy(v) { RoomyCovers(v, i, last); }
    forall b | 0 <= b < v.inodes[i].count ensures FromMap(v, v.inodes[i].ptrs[b]) {
      assert IsInode(v.inodes[i]) && HasBlock(v, i, b) && InUse(v, Ptr(v, i, b));
    }
    GrowFromMap(v, i, last);
    var ino := Grow(v, i, last).inodes[i];
    forall b | 0 <= b < ino.count ensures Addr(v.meta.dataStart, ino.ptrs, b) >= v.meta.dataStart - 1 {
      AddrHigh(v, ino.ptrs, b);
    }
  }

  lemma AddrHigh(v: Vol, ptrs: seq<int>, b: int)
    requires Formed(v) && !Roomy(v) && 0 <= b < |ptrs| && FromMap(v, ptrs[b])
    ensures Addr(v.meta.dataStart, ptrs, b) >= v.meta.dataStart - 1
  {
    LayoutOrdered(|v.disk|);
    MinusOneWraps(v.meta.dataStart);
  }

  lemma MinusOneWraps(data: int)
    requires 0 < data < LBA_LIMIT
    ensures (data + NO_SECTOR) % LBA_LIMIT == data - 1
  {
    assert data + NO_SECTOR == data - 1 + 16 * LBA_LIMIT;
  }

  lemma StoredHigh(u: Vol, i: int, w: Span)
    requires Formed(u) && 0 <= i < INODES && w.Last() < u.inodes[i].count <= DIRECT
    requires forall b :: 0 <= b < u.inodes[i].count <= |u.inodes[i].ptrs| ==>
               Addr(u.meta.dataStart, u.inodes[i].ptrs, b) >= u.meta.dataStart - 1
    ensures Formed(StoredFile(u, i, w))
  {
    LayoutOrdered(|u.disk|);
    var x := StoredFile(u, i, w);
    assert IsInode(u.inodes[i]) && IsInode(x.inodes[i]);
    forall s | u.meta.mapStart <= s < u.meta.inodeMapStart ensures x.disk[s] == u.disk[s] {
      StoredElsewhere(u.disk, u.meta.dataStart, u.inodes[i], w, w.Last() + 1, s);
    }
    SameMap(u, x);
  }

  /** Exactly then every block is still a sector of the disk, and everything in order: a block
      without a sector gets a pointer past the end of the disk, or -1. */
  lemma OrderedExactlyIfCovered(v: Vol, i: int, w: Span, y: Vol)
    requires InFile(v, i, w) && WriteEnds(v, i, w, y)
    ensures Owned(y) <==> Covered(v, i, w.Last())
    ensures Sound(y) <==> Covered(v, i, w.Last())
  {
    if Covered(v, i, w.Last()) {
      EndsWell(v, i, w, y);
      if w.Last() < DIRECT { WriteIsSafe(v, i, w, y); } else { FailedWriteKeepsBytes(v, i, w, y); }
    } else {
      GrowCounts(v, i, w.Last());
      var b := GrowRunsOut(v, i, w.Last());
      assert HasBlock(y, i, b) && OffDisk(y, Ptr(y, i, b));
    }
  }
}
