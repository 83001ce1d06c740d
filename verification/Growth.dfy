/**
 How a file grows: the sectors `alloc_sector` hands out, on the disk or past its end, and when
 there are enough of them.
 */
module Growth {
  import opened MapLemmas
  import opened Words
  import opened FileBlocks
  import opened SectorMap
  import opened Volume
  import opened Ownership

  const NO_SECTOR := 0xffff_ffff  // -1, stored as a pointer

  /** The sector map has a bit for every sector of the disk, more than there are data sectors. */
  function MapBits(v: Vol): int {
    SECTOR * (v.meta.inodeMapStart - v.meta.mapStart)
  }

  /** The lowest bit from `t` on that is not set, or -1. */
  function NextFree(v: Vol, t: nat): (r: int)
    ensures r == -1 || (t <= r < MapBits(v) && !InUse(v, r))
    ensures forall s :: t <= s < (if r == -1 then MapBits(v) else r) ==> InUse(v, s)
    decreases MapBits(v) - t
  {
    if t >= MapBits(v) then -1 else if InUse(v, t) then NextFree(v, t + 1) else t
  }

  /** The disk after `alloc_sector`. */
  function AfterAlloc(v: Vol): (disk: seq<Sector>)
    requires Formed(v)
    ensures |disk| == |v.disk|
  {
    var r := NextFree(v, 0);
    if r == -1 then v.disk else Mark(v.disk, v.meta.mapStart, v.meta.inodeMapStart, r)
  }

  /** The pointer it is stored as. */
  function NewPtr(v: Vol): (r: int)
    requires Formed(v)
    ensures IsWord(r)
  {
    LayoutOrdered(|v.disk|);
    if NextFree(v, 0) == -1 then NO_SECTOR else NextFree(v, 0)
  }

  lemma AllocatedIsNext(v: Vol, disk: seq<Sector>, r: int)
    requires Formed(v) && Allocated(v.disk, disk, v.meta.mapStart, v.meta.inodeMapStart, r)
    ensures r == NextFree(v, 0) && disk == AfterAlloc(v)
  {
    var next := NextFree(v, 0);
    if r == -1 {
      assert next == -1 || InUse(v, next);
    } else {
      assert !InUse(v, r);
      assert next != -1 && !(next < r && InUse(v, next));
    }
  }

  lemma NextIsAllocated(v: Vol)
    requires Formed(v)
    ensures Allocated(v.disk, AfterAlloc(v), v.meta.mapStart, v.meta.inodeMapStart, NextFree(v, 0))
  {
    forall s | 0 <= s < (if NextFree(v, 0) == -1 then MapBits(v) else NextFree(v, 0))
      ensures Marked(v.disk, v.meta.mapStart, v.meta.inodeMapStart, s)
    {
      assert InUse(v, s);
    }
  }

  lemma AllocFormed(v: Vol)
    requires Formed(v)
    ensures Formed(v.(disk := AfterAlloc(v)))
  {
    NextIsAllocated(v);
    if NextFree(v, 0) != -1 { MarkedFormed(v, AfterAlloc(v), NextFree(v, 0)); }
  }

  /** One turn of the growth loop of `sys_do_write`. */
  function Turn(v: Vol, i: int): (u: Vol)
    requires Formed(v) && 0 <= i < INODES && 0 <= v.inodes[i].count < DIRECT
    ensures Formed(u)
  {
    AllocFormed(v);
    AppendFormed(v.(disk := AfterAlloc(v)), i, NewPtr(v));
    WithInode(v.(disk := AfterAlloc(v)), i, Append(v.inodes[i], NewPtr(v)))
  }

  /** The loop: blocks are added until block `last` is there, or the inode is full. */
  function Grow(v: Vol, i: int, last: nat): (u: Vol)
    requires Formed(v) && 0 <= i < INODES && 0 <= v.inodes[i].count <= DIRECT
    ensures Formed(u)
    decreases DIRECT - v.inodes[i].count
  {
    if last < v.inodes[i].count || v.inodes[i].count == DIRECT then v else Grow(Turn(v, i), i, last)
  }

  /** How many sectors the loop asks for. */
  function Need(v: Vol, i: int, last: nat): int
    requires 0 <= i < |v.inodes|
  {
    Max(0, Min(DIRECT, last + 1) - v.inodes[i].count)
  }

  /** Whatever the sectors are, only the map and the new pointers of the inode change. */
  lemma {:induction false} GrowCounts(v: Vol, i: int, last: nat)
    requires Formed(v) && 0 <= i < INODES && 0 <= v.inodes[i].count <= DIRECT
    ensures var u := Grow(v, i, last);
            && u.meta == v.meta && u.marks == v.marks && |u.disk| == |v.disk| && u.inodes == v.inodes[i := u.inodes[i]]
            && Longer(v.inodes[i], u.inodes[i]) && u.inodes[i].count == v.inodes[i].count + Need(v, i, last)
    decreases DIRECT - v.inodes[i].count
  {
    assert IsInode(v.inodes[i]);
    if !(last < v.inodes[i].count || v.inodes[i].count == DIRECT) {
      GrowCounts(Turn(v, i), i, last);
    }
  }

  // ----- free sectors -----

  ghost function FreeSet(v: Vol): set<int> {
    set t | 0 <= t < |v.disk| - v.meta.dataStart && !InUse(v, t)
  }

  /** How many data sectors of the disk are free. */
  ghost function FreeSectors(v: Vol): int {
    |FreeSet(v)|
  }

  /** There are as many as the growth asks for. */
  ghost predicate Covered(v: Vol, i: int, last: nat) {
    0 <= i < |v.inodes| && FreeSectors(v) >= Need(v, i, last)
  }

  lemma AllocOnDisk(v: Vol)
    requires Formed(v)
    ensures FreeSectors(v) > 0 <==> 0 <= NextFree(v, 0) < |v.disk| - v.meta.dataStart
  {
    LayoutOrdered(|v.disk|);
    var r := NextFree(v, 0);
    if FreeSectors(v) > 0 {
      var t := AnyMember(FreeSet(v));
      assert !InUse(v, t);
    } else if r in FreeSet(v) {
      assert false;
    }
  }

  lemma FreeAfter(v: Vol, i: int)
    requires Formed(v) && 0 <= i < INODES && 0 <= v.inodes[i].count < DIRECT && FreeSectors(v) > 0
    ensures FreeSectors(Turn(v, i)) == FreeSectors(v) - 1
  {
    AllocOnDisk(v);
    NextIsAllocated(v);
    var r, w := NextFree(v, 0), Turn(v, i);
    MarkedFormed(v, w.disk, r);
    forall t ensures InUse(w, t) <==> t == r || InUse(v, t) {
      assert InUse(w, t) <==> InUse(v.(disk := w.disk), t);
    }
    assert r in FreeSet(v);
    assert FreeSet(w) == FreeSet(v) - {r};
  }

  /** With enough of them, the blocks a file gets were free sectors of the disk. */
  lemma {:induction false} GrowGrown(v: Vol, u: Vol, i: int, last: nat)
    requires Grown(v, u, i) && Covered(u, i, last)
    ensures Grown(v, Grow(u, i, last), i)
    decreases DIRECT - u.inodes[i].count
  {
    if !(last < u.inodes[i].count || u.inodes[i].count == DIRECT) {
      AllocOnDisk(u);
      NextIsAllocated(u);
      GrownOne(v, u, i, NextFree(u, 0), AfterAlloc(u));
      FreeAfter(u, i);
      GrowGrown(v, Turn(u, i), i, last);
    }
  }

  /** A pointer that leads off the disk. */
  predicate OffDisk(v: Vol, r: int) {
    v.meta.dataStart + r >= |v.disk|
  }

  /** Without, one of them is past the end of the disk. */
  lemma {:induction false} GrowRunsOut(v: Vol, i: int, last: nat) returns (b: int)
    requires Formed(v) && 0 <= i < INODES && 0 <= v.inodes[i].count <= DIRECT && !Covered(v, i, last)
    ensures v.inodes[i].count <= b < Grow(v, i, last).inodes[i].count <= |Grow(v, i, last).inodes[i].ptrs|
    ensures 0 <= b && OffDisk(v, Grow(v, i, last).inodes[i].ptrs[b])
    decreases DIRECT - v.inodes[i].count
  {
    LayoutOrdered(|v.disk|);
    GrowCounts(v, i, last);
    var u := Turn(v, i);
    GrowCounts(u, i, last);
    if FreeSectors(v) == 0 {
      AllocOnDisk(v);
      b := v.inodes[i].count;
      assert u.inodes[i].ptrs[b] == NewPtr(v);
    } else {
      FreeAfter(v, i);
      b := GrowRunsOut(u, i, last);
    }
  }

  /** A bit of the map, or -1. */
  predicate FromMap(v: Vol, r: int) {
    0 <= r < MapBits(v) || r == NO_SECTOR
  }

  lemma {:induction false} GrowFromMap(v: Vol, i: int, last: nat)
    requires Formed(v) && 0 <= i < INODES && 0 <= v.inodes[i].count <= DIRECT
    requires forall b :: 0 <= b < v.inodes[i].count ==> FromMap(v, v.inodes[i].ptrs[b])
    ensures var ino := Grow(v, i, last).inodes[i];
            0 <= ino.count <= DIRECT == |ino.ptrs| && forall b :: 0 <= b < ino.count ==> FromMap(v, ino.ptrs[b])
    decreases DIRECT - v.inodes[i].count
  {
    assert IsInode(v.inodes[i]);
    if !(last < v.inodes[i].count || v.inodes[i].count == DIRECT) {
      GrowFromMap(Turn(v, i), i, last);
    }
  }

  // ----- a disk that is large enough -----

  /** A disk with a data sector for every block that 63 files and the directory can have. */
  ghost predicate Roomy(v: Vol) {
    |v.disk| - v.meta.dataStart >= 2 + DIRECT * (INODES - 1)
  }

  function PtrSet(ptrs: seq<int>, n: int): (s: set<int>)
    requires 0 <= n <= |ptrs|
    ensures |s| <= n && forall b :: 0 <= b < n ==> ptrs[b] in s
  {
    if n == 0 then {} else PtrSet(ptrs, n - 1) + {ptrs[n - 1]}
  }

  /** The sectors of the blocks of one inode. */
  ghost function BlocksOf(v: Vol, j: int): (s: set<int>)
    requires Sound(v)
    ensures forall b :: HasBlock(v, j, b) ==> Ptr(v, j, b) in s
    ensures Live(v, j) ==> |s| <= v.inodes[j].count
    ensures !Live(v, j) ==> s == {}
  {
    if Live(v, j) then assert IsInode(v.inodes[j]) && Live(v, 0); PtrSet(v.inodes[j].ptrs, v.inodes[j].count) else {}
  }

  /** ... and of the first `n` inodes: no more than 2 for the directory, its own count for file
      `i`, and 29 for every other file. */
  ghost function BlocksBelow(v: Vol, i: int, n: nat): (s: set<int>)
    requires Sound(v) && Live(v, i) && i != 0 && n <= INODES
    ensures forall j, b :: j < n && HasBlock(v, j, b) ==> Ptr(v, j, b) in s
    ensures |s| <= if n == 0 then 0
                   else if n <= i then 2 + DIRECT * (n - 1)
                   else 2 + v.inodes[i].count + DIRECT * (n - 2)
  {
    if n == 0 then {} else assert Live(v, 0); BlocksBelow(v, i, n - 1) + BlocksOf(v, n - 1)
  }

  function Range(n: nat): (s: set<int>)
    ensures |s| == n && forall t :: t in s <==> 0 <= t < n
  {
    if n == 0 then {} else Range(n - 1) + {n - 1}
  }

  lemma UsedBelow(v: Vol, i: int, t: int)
    requires Sound(v) && Live(v, i) && i != 0
    ensures InUse(v, t) ==> t in BlocksBelow(v, i, INODES)
  {
    if InUse(v, t) {
      assert Owns(v, t);
      var j, b :| HasBlock(v, j, b) && Ptr(v, j, b) == t;
      assert j < INODES;
    }
  }

  /** On such a disk every file can always grow to all the blocks an inode has. */
  lemma RoomyCovers(v: Vol, i: int, last: nat)
    requires Sound(v) && Live(v, i) && i != 0 && Roomy(v)
    ensures FreeSectors(v) >= DIRECT - v.inodes[i].count && Covered(v, i, last)
  {
    var all, used := Range(|v.disk| - v.meta.dataStart), BlocksBelow(v, i, INODES);
    forall t | t in all - used ensures t in FreeSet(v) {
      UsedBelow(v, i, t);
    }
    CardinalityMonotone(all - used, FreeSet(v));
    CardinalityMonotone(all * used, used);
    assert all == (all - used) + (all * used);
  }
}
