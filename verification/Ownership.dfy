/**
 Who owns which data sector: the blocks of the allocated inodes are distinct sectors marked in
 the sector map, and no others are marked.
 */
module Ownership {
  import opened Words
  import opened FileBlocks
  import opened SectorMap
  import opened Volume

  /** Inode `i` is allocated. */
  predicate Live(v: Vol, i: int) {
    0 <= i < INODES == |v.inodes| && |v.marks| == MAP_BYTES && BitAt(v.marks, i)
  }

  predicate HasBlock(v: Vol, i: int, b: int) {
    Live(v, i) && 0 <= b < v.inodes[i].count <= |v.inodes[i].ptrs|
  }

  function Ptr(v: Vol, i: int, b: int): int
    requires HasBlock(v, i, b)
  {
    v.inodes[i].ptrs[b]
  }

  predicate InUse(v: Vol, t: int) {
    Marked(v.disk, v.meta.mapStart, v.meta.inodeMapStart, t)
  }

  /** Every block of an allocated inode is a data sector of the disk, marked as in use. */
  ghost predicate Owned(v: Vol) {
    forall i, b :: HasBlock(v, i, b) ==>
      0 <= Ptr(v, i, b) && v.meta.dataStart + Ptr(v, i, b) < |v.disk| && InUse(v, Ptr(v, i, b))
  }

  /** No two blocks are the same sector. */
  ghost predicate Apart(v: Vol) {
    forall i, b, j, c :: HasBlock(v, i, b) && HasBlock(v, j, c) && (i != j || b != c) ==> Ptr(v, i, b) != Ptr(v, j, c)
  }

  ghost predicate Owns(v: Vol, t: int) {
    exists i, b :: HasBlock(v, i, b) && Ptr(v, i, b) == t
  }

  /** Every sector in use is a block. */
  ghost predicate Accounted(v: Vol) {
    forall t :: InUse(v, t) ==> Owns(v, t)
  }

  /** Inode 0 is the directory, in the first two data sectors. */
  ghost predicate Root(v: Vol) {
    && Live(v, 0) && v.inodes[0].kind == KIND_DIR && v.inodes[0].size == 2 * SECTOR && v.inodes[0].count == 2
    && |v.inodes[0].ptrs| == DIRECT && v.inodes[0].ptrs[0] == 0 && v.inodes[0].ptrs[1] == 1
  }

  /** The other allocated inodes are files whose size fits their blocks. */
  ghost predicate Files(v: Vol) {
    forall i {:trigger Live(v, i)} :: Live(v, i) && i != 0 ==>
      && v.inodes[i].kind == KIND_FILE && SizeFits(v.inodes[i]) && 0 <= v.inodes[i].count <= DIRECT
      && (v.inodes[i].count == 0 ==> |v.inodes[i].ptrs| > 0 && v.inodes[i].ptrs[0] == 0)
  }

  ghost predicate Sound(v: Vol) {
    Formed(v) && Owned(v) && Apart(v) && Accounted(v) && Root(v) && Files(v)
  }

  lemma LiveOnDisk(v: Vol, i: int)
    requires Sound(v) && Live(v, i)
    ensures Sectors(v.disk) && OnDisk(v.disk, v.meta.dataStart, v.inodes[i])
  {
    LayoutOrdered(|v.disk|);
    var ino, data := v.inodes[i], v.meta.dataStart;
    assert IsInode(ino);
    assert Live(v, 0);
    forall b | 0 <= b < ino.count ensures 0 <= Addr(data, ino.ptrs, b) < |v.disk| {
      assert HasBlock(v, i, b) && Ptr(v, i, b) == ino.ptrs[b];
    }
    forall b, c | 0 <= b < c < ino.count ensures Addr(data, ino.ptrs, b) != Addr(data, ino.ptrs, c) {
      assert HasBlock(v, i, b) && HasBlock(v, i, c) && Ptr(v, i, b) != Ptr(v, i, c);
    }
  }

  // ----- growing a file -----

  /** Inode `i` has got more blocks, after those it had. */
  ghost predicate Longer(x: Inode, y: Inode) {
    && |x.ptrs| == |y.ptrs| == DIRECT && y.kind == x.kind && y.size == x.size && 0 <= x.count <= y.count <= DIRECT
    && (y.count == x.count ==> y == x)
    && forall b :: 0 <= b < x.count ==> y.ptrs[b] == x.ptrs[b]
  }

  /** The new blocks were free, and are distinct. */
  ghost predicate NewWereFree(v: Vol, u: Vol, x: Inode, y: Inode)
    requires Longer(x, y)
  {
    && (forall b {:trigger y.ptrs[b]} :: x.count <= b < y.count ==>
          0 <= y.ptrs[b] && u.meta.dataStart + y.ptrs[b] < |u.disk| && !InUse(v, y.ptrs[b]) && InUse(u, y.ptrs[b]))
    && (forall b, c :: x.count <= b < c < y.count ==> y.ptrs[b] != y.ptrs[c])
  }

  /** A sector is in use iff it was, or is one of the new blocks. */
  ghost predicate MarksGrow(v: Vol, u: Vol, i: int) {
    forall t {:trigger InUse(u, t)} :: InUse(u, t) <==> InUse(v, t) || NewBlockOf(v, u, i, t)
  }

  /** Only the sector map has changed on the disk. */
  ghost predicate OnlyMap(v: Vol, u: Vol) {
    |u.disk| == |v.disk|
    && forall s {:trigger u.disk[s]} :: 0 <= s < |u.disk| && !(u.meta.mapStart <= s < u.meta.inodeMapStart) ==>
         u.disk[s] == v.disk[s]
  }

  /** Inode `i` has got blocks that were free; nothing else has changed but the sector map. */
  ghost predicate Grown(v: Vol, u: Vol, i: int) {
    && Formed(v) && 0 <= i < INODES && Formed(u) && u.meta == v.meta && u.marks == v.marks
    && u.inodes == v.inodes[i := u.inodes[i]]
    && Longer(v.inodes[i], u.inodes[i]) && NewWereFree(v, u, v.inodes[i], u.inodes[i])
    && MarksGrow(v, u, i) && OnlyMap(v, u)
  }

  ghost predicate NewBlockOf(v: Vol, u: Vol, i: int, t: int) {
    && 0 <= i < |v.inodes| == |u.inodes|
    && exists b :: v.inodes[i].count <= b < u.inodes[i].count <= |u.inodes[i].ptrs| && 0 <= b &&
            u.inodes[i].ptrs[b] == t
  }

  lemma GrownNot(v: Vol, i: int)
    requires Formed(v) && 0 <= i < INODES && 0 <= v.inodes[i].count <= DIRECT
    ensures Grown(v, v, i)
  {
  }

  /** `inode->direct_pointers[inode->block_count++] = r`. */
  function Append(ino: Inode, r: int): Inode
    requires 0 <= ino.count < |ino.ptrs|
  {
    ino.(count := ino.count + 1, ptrs := ino.ptrs[ino.count := r])
  }

  function WithInode(v: Vol, i: int, ino: Inode): Vol
    requires 0 <= i < |v.inodes|
  {
    v.(inodes := v.inodes[i := ino])
  }

  lemma MarkedFormed(u: Vol, disk: seq<Sector>, r: int)
    requires Formed(u) && Allocated(u.disk, disk, u.meta.mapStart, u.meta.inodeMapStart, r) && r >= 0
    ensures Formed(u.(disk := disk))
    ensures forall t :: InUse(u.(disk := disk), t) <==> t == r || InUse(u, t)
    ensures forall s :: 0 <= s < |u.disk| && !(u.meta.mapStart <= s < u.meta.inodeMapStart) ==> disk[s] == u.disk[s]
  {
    MarkMarks(u.disk, u.meta.mapStart, u.meta.inodeMapStart, r);
    var u' := u.(disk := disk);
    forall t ensures InUse(u', t) <==> t == r || InUse(u, t) {
      assert Marked(disk, u.meta.mapStart, u.meta.inodeMapStart, t) <==>
             t == r || Marked(u.disk, u.meta.mapStart, u.meta.inodeMapStart, t);
    }
  }

  lemma LongerByOne(x: Inode, y: Inode, r: int)
    requires Longer(x, y) && y.count < DIRECT
    ensures Longer(x, Append(y, r))
  {
  }

  lemma FreeByOne(v: Vol, u: Vol, w: Vol, x: Inode, y: Inode, r: int)
    requires Longer(x, y) && NewWereFree(v, u, x, y) && y.count < DIRECT
    requires u.meta == w.meta && |u.disk| == |w.disk| && 0 <= r && u.meta.dataStart + r < |u.disk|
    requires !InUse(v, r) && !InUse(u, r) && InUse(w, r) && forall t :: InUse(u, t) ==> InUse(w, t)
    ensures Longer(x, Append(y, r)) && NewWereFree(v, w, x, Append(y, r))
  {
    LongerByOne(x, y, r);
  }

  lemma MarksByOne(v: Vol, u: Vol, w: Vol, i: int, r: int)
    requires MarksGrow(v, u, i) && 0 <= i < |v.inodes| == |u.inodes| == |w.inodes|
    requires Longer(v.inodes[i], u.inodes[i]) && u.inodes[i].count < DIRECT && w.inodes[i] == Append(u.inodes[i], r)
    requires forall t :: InUse(w, t) <==> t == r || InUse(u, t)
    ensures MarksGrow(v, w, i)
  {
    assert w.inodes[i].ptrs[u.inodes[i].count] == r;
    forall t ensures NewBlockOf(v, w, i, t) <==> t == r || NewBlockOf(v, u, i, t) {
      if NewBlockOf(v, u, i, t) {
        var b :| v.inodes[i].count <= b < u.inodes[i].count && 0 <= b && u.inodes[i].ptrs[b] == t;
        assert w.inodes[i].ptrs[b] == t;
      }
    }
  }

  /** One turn of the growth loop. */
  lemma GrownOne(v: Vol, u: Vol, i: int, r: int, disk: seq<Sector>)
    requires Grown(v, u, i) && u.inodes[i].count < DIRECT
    requires Allocated(u.disk, disk, u.meta.mapStart, u.meta.inodeMapStart, r)
    requires 0 <= r && u.meta.dataStart + r < |u.disk|
    ensures Grown(v, WithInode(u.(disk := disk), i, Append(u.inodes[i], r)), i)
  {
    MarkedFormed(u, disk, r);
    var ino := Append(u.inodes[i], r);
    var w := WithInode(u.(disk := disk), i, ino);
    AppendFormed(u.(disk := disk), i, r);
    forall t ensures InUse(w, t) <==> t == r || InUse(u, t) {
      assert InUse(w, t) <==> InUse(u.(disk := disk), t);
    }
    MarksByOne(v, u, w, i, r);
    assert !InUse(u, r);
    FreeByOne(v, u, w, v.inodes[i], u.inodes[i], r);
  }

  lemma AppendFormed(u: Vol, i: int, r: int)
    requires Formed(u) && 0 <= i < INODES && 0 <= u.inodes[i].count < DIRECT && IsWord(r)
    ensures Formed(WithInode(u, i, Append(u.inodes[i], r)))
  {
    assert IsInode(u.inodes[i]) && IsInode(Append(u.inodes[i], r));
  }

  // ----- growth keeps everything in order -----

  lemma GrownBlock(v: Vol, u: Vol, i: int, j: int, b: int)
    requires Grown(v, u, i) && HasBlock(u, j, b)
    ensures Live(v, j)
    ensures HasBlock(v, j, b) <==> j != i || b < v.inodes[i].count
    ensures HasBlock(v, j, b) ==> Ptr(u, j, b) == Ptr(v, j, b)
    ensures !HasBlock(v, j, b) ==> !InUse(v, Ptr(u, j, b))
  {
    assert IsInode(v.inodes[j]) && IsInode(u.inodes[j]);
  }

  lemma GrownOwned(v: Vol, u: Vol, i: int)
    requires Grown(v, u, i) && Owned(v)
    ensures Owned(u)
  {
    forall j, b | HasBlock(u, j, b)
      ensures 0 <= Ptr(u, j, b) && u.meta.dataStart + Ptr(u, j, b) < |u.disk| && InUse(u, Ptr(u, j, b))
    {
      GrownBlock(v, u, i, j, b);
    }
  }

  lemma GrownApart(v: Vol, u: Vol, i: int)
    requires Grown(v, u, i) && Owned(v) && Apart(v)
    ensures Apart(u)
  {
    forall j, b, k, c | HasBlock(u, j, b) && HasBlock(u, k, c) && (j != k || b != c)
      ensures Ptr(u, j, b) != Ptr(u, k, c)
    {
      GrownBlock(v, u, i, j, b);
      GrownBlock(v, u, i, k, c);
    }
  }

  lemma GrownAccounted(v: Vol, u: Vol, i: int)
    requires Grown(v, u, i) && Accounted(v) && Live(v, i)
    ensures Accounted(u)
  {
    forall t | InUse(u, t) ensures Owns(u, t) {
      if InUse(v, t) {
        var j, b :| HasBlock(v, j, b) && Ptr(v, j, b) == t;
        assert HasBlock(u, j, b) && Ptr(u, j, b) == t;
      } else {
        var b :| v.inodes[i].count <= b < u.inodes[i].count && 0 <= b && u.inodes[i].ptrs[b] == t;
        assert HasBlock(u, i, b) && Ptr(u, i, b) == t;
      }
    }
  }

  lemma GrownFiles(v: Vol, u: Vol, i: int)
    requires Grown(v, u, i) && Files(v) && Root(v) && i != 0
    ensures Files(u) && Root(u)
  {
    forall j | Live(u, j) && j != 0
      ensures u.inodes[j].kind == KIND_FILE && SizeFits(u.inodes[j]) && 0 <= u.inodes[j].count <= DIRECT
      ensures u.inodes[j].count == 0 ==> |u.inodes[j].ptrs| > 0 && u.inodes[j].ptrs[0] == 0
    {
      assert Live(v, j);
    }
  }

  lemma GrownSound(v: Vol, u: Vol, i: int)
    requires Grown(v, u, i) && Sound(v) && Live(v, i) && i != 0
    ensures Sound(u)
  {
    GrownOwned(v, u, i);
    GrownApart(v, u, i);
    GrownAccounted(v, u, i);
    GrownFiles(v, u, i);
  }
}
