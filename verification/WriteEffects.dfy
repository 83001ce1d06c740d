/**
 What a write does, number by number: which blocks the file gets, how long it is, and where each
 of its bytes comes from.
 */
module WriteEffects {
  import opened FileBlocks
  import opened Volume
  import opened Ownership
  import opened Growth
  import opened FileWrites
  import opened OpenFiles
  import opened FileRuns

  // ----- new blocks -----

  /** The blocks from `n` on come in rising order, each the lowest sector then free. */
  ghost predicate LowestTaken(v: Vol, u: Vol, i: int, n: int) {
    && 0 <= i < |u.inodes| && 0 <= n <= u.inodes[i].count <= |u.inodes[i].ptrs|
    && (forall b :: n <= b < u.inodes[i].count ==> 0 <= u.inodes[i].ptrs[b] && !InUse(v, u.inodes[i].ptrs[b]))
    && (forall b, t :: n <= b < u.inodes[i].count && 0 <= t <= u.inodes[i].ptrs[b] ==> InUse(u, t))
    && (forall b, c :: n <= b < c < u.inodes[i].count ==> u.inodes[i].ptrs[b] < u.inodes[i].ptrs[c])
    && (forall t :: InUse(v, t) ==> InUse(u, t))
  }

  lemma TurnTakesLowest(v: Vol, i: int)
    requires Formed(v) && 0 <= i < INODES && 0 <= v.inodes[i].count < DIRECT && FreeSectors(v) > 0
    ensures var x, r := Turn(v, i), NextFree(v, 0);
            && 0 <= r && !InUse(v, r) && x.inodes[i].count == v.inodes[i].count + 1
            && |x.inodes[i].ptrs| == DIRECT && x.inodes[i].ptrs[v.inodes[i].count] == r
            && forall t :: 0 <= t <= r || InUse(v, t) ==> InUse(x, t)
  {
    AllocOnDisk(v);
    NextIsAllocated(v);
    var x, r := Turn(v, i), NextFree(v, 0);
    MarkedFormed(v, x.disk, r);
    assert IsInode(v.inodes[i]);
    forall t | 0 <= t <= r || InUse(v, t) ensures InUse(x, t) {
      assert InUse(x, t) <==> InUse(v.(disk := x.disk), t);
    }
  }

  lemma {:induction false} GrowTakesLowest(v: Vol, i: int, last: nat)
    requires Formed(v) && 0 <= i < INODES && 0 <= v.inodes[i].count <= DIRECT && Covered(v, i, last)
    ensures LowestTaken(v, Grow(v, i, last), i, v.inodes[i].count)
    decreases DIRECT - v.inodes[i].count
  {
    assert IsInode(v.inodes[i]);
    if !(last < v.inodes[i].count || v.inodes[i].count == DIRECT) {
      var x := Turn(v, i);
      TurnTakesLowest(v, i);
      FreeAfter(v, i);
      GrowTakesLowest(x, i, last);
      GrowCounts(x, i, last);
      OneMoreTaken(v, x, Grow(x, i, last), i);
    }
  }

  lemma OneMoreTaken(v: Vol, x: Vol, u: Vol, i: int)
    requires 0 <= i < |v.inodes| && 0 <= i < |x.inodes| && x.inodes[i].count == v.inodes[i].count + 1 > 0
    requires LowestTaken(x, u, i, x.inodes[i].count)
    requires u.inodes[i].ptrs[v.inodes[i].count] == NextFree(v, 0) >= 0 && !InUse(v, NextFree(v, 0))
    requires forall t :: 0 <= t <= NextFree(v, 0) || InUse(v, t) ==> InUse(x, t)
    ensures LowestTaken(v, u, i, v.inodes[i].count)
  {
  }

  /** The inode has the blocks up to `last`, 29 at most, and keeps those it had. */
  ghost predicate BlocksUpTo(was: Inode, now: Inode, last: nat) {
    && |was.ptrs| == |now.ptrs| == 29 && 0 <= was.count <= 29 && now.kind == was.kind
    && now.count == (if last < was.count then was.count else if last < 29 then last + 1 else 29)
    && forall b :: 0 <= b < was.count ==> now.ptrs[b] == was.ptrs[b]
  }

  /** No inode but one has changed, nor the superblock and the inode map. */
  ghost predicate OneInode(v: Vol, y: Vol, i: int) {
    && |y.inodes| == |v.inodes| == 64 && y.meta == v.meta && y.marks == v.marks && |y.disk| == |v.disk|
    && forall j :: 0 <= j < 64 && j != i ==> y.inodes[j] == v.inodes[j]
  }

  lemma GrowTakes(v: Vol, i: int, last: nat)
    requires Formed(v) && 0 <= i < INODES && 0 <= v.inodes[i].count <= DIRECT && Covered(v, i, last)
    ensures var u := Grow(v, i, last);
            && OneInode(v, u, i) && BlocksUpTo(v.inodes[i], u.inodes[i], last)
            && LowestTaken(v, u, i, v.inodes[i].count)
  {
    assert IsInode(v.inodes[i]);
    GrowCounts(v, i, last);
    GrowTakesLowest(v, i, last);
  }

  /** The file gets the blocks up to the one of the position after the last byte: the lowest free
      sectors, in order. */
  lemma BlocksTaken(v: Vol, i: int, w: Span, y: Vol)
    requires InFile(v, i, w) && WriteEnds(v, i, w, y) && Covered(v, i, w.Last())
    ensures OneInode(v, y, i) && BlocksUpTo(v.inodes[i], y.inodes[i], (w.pos + |w.bytes|) / 512)
    ensures LowestTaken(v, y, i, v.inodes[i].count)
  {
    GrowTakes(v, i, w.Last());
    if w.Last() < DIRECT {
      EndsWell(v, i, w, y);
      var u := Grow(v, i, w.Last());
      GrownNot(v, i);
      GrowGrown(v, v, i, w.Last());
      GrownSound(v, u, i);
      StoredMarks(v, u, i, v.inodes[i].count, w, y);
    }
  }

  lemma StoredMarks(v: Vol, u: Vol, i: int, n: int, w: Span, y: Vol)
    requires Sound(u) && Live(u, i) && i != 0 && w.pos <= u.inodes[i].size && w.Last() < u.inodes[i].count <= DIRECT
    requires SyncRel(StoredFile(u, i, w), y) && LowestTaken(v, u, i, n)
    ensures LowestTaken(v, y, i, n)
  {
    var x := StoredFile(u, i, w);
    StoredOnDisk(u, i, w);
    StoredOnlyData(u, x, i, w);
    SameMap(u, x);
    SyncKeepsMarks(x, y);
  }

  lemma SyncKeepsMarks(x: Vol, y: Vol)
    requires SyncRel(x, y)
    ensures forall t :: InUse(y, t) <==> InUse(x, t)
  {
    SyncSyncs(x, y);
    LayoutOrdered(|x.disk|);
    SameMap(x, y);
  }

  // ----- bytes -----

  /** Byte `k` of a file once `data` has been written at `pos`: one of the data, which in the last
      of several blocks is one of its first, or the one that was there. */
  ghost predicate ByteFrom(was: seq<int>, now: seq<int>, pos: nat, data: seq<int>, k: int) {
    var last, end := (pos + |data|) / 512, pos + |data|;
    && |now| == (if |was| < end then end else |was|)
    && (pos <= k < end && (k / 512 < last || pos / 512 == last) ==> now[k] == data[k - pos])
    && (pos <= k < end && pos / 512 < last == k / 512 ==> now[k] == data[k % 512])
    && (0 <= k < |was| && !(pos <= k < end) ==> now[k] == was[k])
  }

  lemma ByteSource(v: Vol, i: int, w: Span, y: Vol, k: int)
    requires InFile(v, i, w) && WriteOk(v, i, w, y) && 0 <= k < Max(v.inodes[i].size, w.pos + |w.bytes|)
    ensures Sound(y) && Live(y, i) && y.inodes[i].size == Max(v.inodes[i].size, w.pos + |w.bytes|)
    ensures FileBytes(y, i)[k] ==
            if w.pos <= k < w.pos + |w.bytes| then w.bytes[Source(w, k)] else FileBytes(v, i)[k]
  {
    WriteIsSafe(v, i, w, y);
    var u, x :| WriteSteps(v, u, x, y, i, w);
    GrownLeaves(v, u, i);
    StoredSource(u, x, i, w, k);
    SyncLeaves(x, y, i);
  }

  lemma StoredSource(u: Vol, x: Vol, i: int, w: Span, k: int)
    requires InFile(u, i, w) && Stored(u, x, i, w) && 0 <= k < Max(u.inodes[i].size, w.pos + |w.bytes|)
    ensures Sound(x) && Live(x, i) && x.inodes[i].size == Max(u.inodes[i].size, w.pos + |w.bytes|)
    ensures FileBytes(x, i)[k] ==
            if w.pos <= k < w.pos + |w.bytes| then w.bytes[Source(w, k)] else FileBytes(u, i)[k]
  {
    StoredSound(u, x, i, w);
    LiveOnDisk(u, i);
    LiveOnDisk(x, i);
    ContentsAfter(u.disk, x.disk, u.meta.dataStart, u.inodes[i], w, k);
  }

  lemma SourceOf(was: seq<int>, now: seq<int>, w: Span, k: int)
    requires |now| == Max(|was|, w.pos + |w.bytes|) && w.pos <= |was|
    requires 0 <= k < |now| ==>
               now[k] == if w.pos <= k < w.pos + |w.bytes| then w.bytes[Source(w, k)] else was[k]
    ensures ByteFrom(was, now, w.pos, w.bytes, k)
  {
  }

  lemma BytesAfter(v: Vol, i: int, w: Span, y: Vol, k: int)
    requires InFile(v, i, w) && WriteOk(v, i, w, y)
    ensures Sound(y) && Live(y, i) && ByteFrom(FileBytes(v, i), FileBytes(y, i), w.pos, w.bytes, k)
  {
    WriteIsSafe(v, i, w, y);
    if 0 <= k < y.inodes[i].size { ByteSource(v, i, w, y, k); }
    SourceOf(FileBytes(v, i), FileBytes(y, i), w, k);
  }

  /** With enough sectors, past block 28 a write changes no size and no byte. */
  lemma BytesWritten(v: Vol, i: int, w: Span, y: Vol, k: int)
    requires InFile(v, i, w) && WriteEnds(v, i, w, y) && Covered(v, i, w.Last())
    ensures Sound(y) && Live(y, i)
    ensures ByteFrom(FileBytes(v, i), FileBytes(y, i), w.pos, if w.Last() < 29 then w.bytes else [], k)
  {
    EndsWell(v, i, w, y);
    if w.Last() < DIRECT { BytesAfter(v, i, w, y, k); } else { FailedWriteKeepsBytes(v, i, w, y); }
  }

  lemma AtCursor(w: World, step: Step, w': World)
    requires Orderly(w) && step.Write? && Next(w, step, w') && OpenFile(w.t, step.p, step.f).inode != NULL
    ensures w'.t == w.t
    ensures var d := OpenFile(w.t, step.p, step.f);
            && 0 <= d.pos && InFile(w.v, d.inode, Span(d.pos, step.data))
            && WriteEnds(w.v, d.inode, Span(d.pos, step.data), w'.v)
  {
    assert FdsOk(w.t.fds[step.p]);
    assert CursorOk(w.v, w.t.ds[w.t.fds[step.p][step.f]]);
  }

  /** A write through a descriptor goes to the file it leads to, at the cursor, and to no other. */
  lemma WriteEffect(w: World, step: Step, w': World, i: int, pos: nat, k: int)
    requires Orderly(w) && step.Write? && Next(w, step, w') && Supplied(w, step)
    requires OpenFile(w.t, step.p, step.f).inode == i != -1 && OpenFile(w.t, step.p, step.f).pos == pos
    ensures w'.t == w.t && OneInode(w.v, w'.v, i) && 0 <= i < 64
    ensures BlocksUpTo(w.v.inodes[i], w'.v.inodes[i], (pos + |step.data|) / 512)
    ensures LowestTaken(w.v, w'.v, i, w.v.inodes[i].count)
    ensures i != 0 && Live(w.v, i) && Live(w'.v, i) && Sound(w'.v)
    ensures ByteFrom(FileBytes(w.v, i), FileBytes(w'.v, i), pos,
                     if (pos + |step.data|) / 512 < 29 then step.data else [], k)
    ensures forall j :: Live(w.v, j) && j != i && j != 0 ==> Live(w'.v, j) && FileBytes(w'.v, j) == FileBytes(w.v, j)
  {
    AtCursor(w, step, w');
    var s := Span(pos, step.data);
    BlocksTaken(w.v, i, s, w'.v);
    BytesWritten(w.v, i, s, w'.v, k);
    WriteStep(w, step, w');
  }
}
