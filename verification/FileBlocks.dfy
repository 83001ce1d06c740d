/**
 Files as blocks: what the sectors of an inode say its bytes are, and what the three parts
 of a write, first block, middle blocks and last block, do to them (fs/fs.c).
 */
module FileBlocks {
  import opened Words
  import opened CStrings

  const SECTOR := 512
  const DIRECT := 29  // direct_pointers

  type Sector = seq<int>

  /** An inode: block `b` of the file is data sector `ptrs[b]`, for `b` below `count`. */
  datatype Inode = Inode(kind: int, size: int, count: int, ptrs: seq<int>)

  ghost predicate Sectors(disk: seq<Sector>) {
    forall s :: 0 <= s < |disk| ==> |disk[s]| == SECTOR
  }

  /** The sector of block `b`, with `data` the first data sector: of the sum of two words the
      drive gets 28 bits. */
  function Addr(data: int, ptrs: seq<int>, b: int): int
    requires 0 <= b < |ptrs|
  {
    var a := data + ptrs[b];
    if a < LBA_LIMIT then a else a % LBA_LIMIT
  }

  /** The blocks of the file are distinct sectors of the disk. */
  ghost predicate OnDisk(disk: seq<Sector>, data: int, ino: Inode) {
    && |ino.ptrs| == DIRECT && 0 <= ino.count <= DIRECT
    && (forall b :: 0 <= b < ino.count ==> 0 <= Addr(data, ino.ptrs, b) < |disk|)
    && (forall b, c :: 0 <= b < c < ino.count ==> Addr(data, ino.ptrs, b) != Addr(data, ino.ptrs, c))
  }

  function ByteAt(disk: seq<Sector>, data: int, ino: Inode, k: int): int
    requires OnDisk(disk, data, ino) && Sectors(disk) && 0 <= k < SECTOR * ino.count
  {
    disk[Addr(data, ino.ptrs, k / SECTOR)][k % SECTOR]
  }

  /** The size of a file fits its blocks, with room for one byte more. */
  predicate SizeFits(ino: Inode) {
    0 <= ino.size && (ino.size == 0 || ino.size / SECTOR < ino.count)
  }

  /** The bytes of a file. */
  function Contents(disk: seq<Sector>, data: int, ino: Inode): (s: seq<int>)
    requires OnDisk(disk, data, ino) && Sectors(disk) && SizeFits(ino)
    ensures |s| == ino.size
    ensures forall k :: 0 <= k < |s| ==> s[k] == ByteAt(disk, data, ino, k)
  {
    seq(ino.size, (k: nat) requires k < ino.size => ByteAt(disk, data, ino, k))
  }

  function Min(a: int, b: int): int { if a < b then a else b }

  function Max(a: int, b: int): int { if a > b then a else b }

  // ----- writing -----

  /** A write of bytes at position `pos` of a file, taken apart as the code does. */
  datatype Span = Span(pos: nat, bytes: seq<int>) {
    function First(): nat { pos / SECTOR }
    function Last(): nat { (pos + |bytes|) / SECTOR }
    function Pre(): nat { pos % SECTOR }
    function Head(): nat { Min(|bytes|, SECTOR - Pre()) }  // bytes that go to the first block
    function Tail(): nat { (|bytes| + Pre()) % SECTOR }    // bytes that go to the last, if it is another
  }

  /** What the code leaves in block `b`: the last block gets the first bytes of the data, not
      the last ones. */
  function NewBlock(was: Sector, w: Span, b: int): Sector
    requires |was| == SECTOR && w.First() <= b <= w.Last()
  {
    if b == w.First() then Put(was, w.Pre(), w.bytes[..w.Head()])
    else if b < w.Last() then w.bytes[w.Head() + SECTOR * (b - w.First() - 1)..w.Head() + SECTOR * (b - w.First())]
    else Put(was, 0, w.bytes[..w.Tail()])
  }

  /** The disk once the blocks from the first up to `n` have been written. */
  ghost predicate WrittenTo(was: seq<Sector>, now: seq<Sector>, data: int, ino: Inode, w: Span, n: int) {
    && |now| == |was| && Sectors(was) && OnDisk(was, data, ino) && w.First() <= n <= w.Last() + 1 <= ino.count
    && (forall b {:trigger Addr(data, ino.ptrs, b)} :: 0 <= b < ino.count ==>
          now[Addr(data, ino.ptrs, b)] ==
          if w.First() <= b < n then NewBlock(was[Addr(data, ino.ptrs, b)], w, b) else was[Addr(data, ino.ptrs, b)])
    && (forall s {:trigger now[s]} :: 0 <= s < |was| && !IsBlock(data, ino, s) ==> now[s] == was[s])
  }

  /** The store of block `b`; one past the end of the disk changes nothing. */
  function StoreAt(disk: seq<Sector>, a: int, w: Span, b: int): (r: seq<Sector>)
    requires Sectors(disk) && w.First() <= b <= w.Last()
    ensures |r| == |disk| && Sectors(r)
  {
    if 0 <= a < |disk| then disk[a := NewBlock(disk[a], w, b)] else disk
  }

  /** The disk once the blocks from the first up to `n` have been stored, wherever they lie. */
  function StoredBlocks(disk: seq<Sector>, data: int, ino: Inode, w: Span, n: int): (r: seq<Sector>)
    requires Sectors(disk) && |ino.ptrs| == DIRECT && w.First() <= n <= w.Last() + 1 <= DIRECT
    ensures |r| == |disk| && Sectors(r)
  {
    if n == w.First() then disk
    else StoreAt(StoredBlocks(disk, data, ino, w, n - 1), Addr(data, ino.ptrs, n - 1), w, n - 1)
  }

  /** Writing the next block. */
  lemma OneMoreBlock(was: seq<Sector>, now: seq<Sector>, next: seq<Sector>, data: int, ino: Inode, w: Span, n: int)
    requires WrittenTo(was, now, data, ino, w, n) && n <= w.Last()
    requires next == now[Addr(data, ino.ptrs, n) := NewBlock(was[Addr(data, ino.ptrs, n)], w, n)]
    ensures WrittenTo(was, next, data, ino, w, n + 1)
  {
  }

  /** When the blocks are distinct sectors of the disk each gets its own bytes. */
  lemma {:induction false} StoredWritten(disk: seq<Sector>, data: int, ino: Inode, w: Span, n: int)
    requires Sectors(disk) && OnDisk(disk, data, ino) && w.First() <= n <= w.Last() + 1 <= ino.count
    ensures WrittenTo(disk, StoredBlocks(disk, data, ino, w, n), data, ino, w, n)
    decreases n
  {
    if n > w.First() {
      var now := StoredBlocks(disk, data, ino, w, n - 1);
      StoredWritten(disk, data, ino, w, n - 1);
      OneMoreBlock(disk, now, StoredBlocks(disk, data, ino, w, n), data, ino, w, n - 1);
    }
  }

  /** Sectors that are no block of the write stay as they are. */
  lemma {:induction false} StoredElsewhere(disk: seq<Sector>, data: int, ino: Inode, w: Span, n: int, s: int)
    requires Sectors(disk) && |ino.ptrs| == DIRECT && w.First() <= n <= w.Last() + 1 <= DIRECT && 0 <= s < |disk|
    requires forall b :: w.First() <= b < n ==> Addr(data, ino.ptrs, b) != s
    ensures StoredBlocks(disk, data, ino, w, n)[s] == disk[s]
    decreases n
  {
    if n > w.First() { StoredElsewhere(disk, data, ino, w, n - 1, s); }
  }

  ghost predicate IsBlock(data: int, ino: Inode, s: int) {
    exists b :: 0 <= b < ino.count <= |ino.ptrs| && Addr(data, ino.ptrs, b) == s
  }

  /** Where a byte the code writes comes from. */
  function Source(w: Span, k: int): int
    requires w.pos <= k < w.pos + |w.bytes|
  {
    if w.First() < w.Last() && k / SECTOR == w.Last() then k % SECTOR else k - w.pos
  }

  lemma NewBlockSize(was: Sector, w: Span, b: int)
    requires |was| == SECTOR && w.First() <= b <= w.Last()
    ensures |NewBlock(was, w, b)| == SECTOR
  {
  }

  /** Byte `i` of a block the write touches. */
  lemma NewBlockByte(was: Sector, w: Span, b: int, i: int)
    requires |was| == SECTOR && w.First() <= b <= w.Last() && 0 <= i < SECTOR
    ensures |NewBlock(was, w, b)| == SECTOR
    ensures var k := SECTOR * b + i;
            NewBlock(was, w, b)[i] == if w.pos <= k < w.pos + |w.bytes| then w.bytes[Source(w, k)] else was[i]
  {
  }

  /** After the write each byte of its range is the one the code takes for it, and every other
      byte of the file's blocks is as before. */
  lemma WrittenByte(was: seq<Sector>, now: seq<Sector>, data: int, ino: Inode, w: Span, k: int)
    requires WrittenTo(was, now, data, ino, w, w.Last() + 1) && 0 <= k < SECTOR * ino.count
    ensures Sectors(now) && OnDisk(now, data, ino)
    ensures ByteAt(now, data, ino, k) ==
            if w.pos <= k < w.pos + |w.bytes| then w.bytes[Source(w, k)] else ByteAt(was, data, ino, k)
  {
    forall s | 0 <= s < |now| ensures |now[s]| == SECTOR {
      if IsBlock(data, ino, s) {
        var b :| 0 <= b < ino.count && Addr(data, ino.ptrs, b) == s;
        if w.First() <= b <= w.Last() { NewBlockSize(was[s], w, b); }
      }
    }
    var b := k / SECTOR;
    if w.First() <= b <= w.Last() {
      NewBlockByte(was[Addr(data, ino.ptrs, b)], w, b, k % SECTOR);
    }
  }

  /** Bytes written into a sequence at `pos`, which may grow. */
  function Spliced(s: seq<int>, pos: nat, bytes: seq<int>): seq<int>
    requires pos <= |s|
  {
    s[..pos] + bytes + if pos + |bytes| <= |s| then s[pos + |bytes|..] else []
  }

  /** When the code's choice of bytes for the last block is the right one. */
  predicate Exact(w: Span) {
    w.First() == w.Last() || w.Tail() == 0 || w.bytes[..w.Tail()] == w.bytes[|w.bytes| - w.Tail()..]
  }

  /** The inode after the write. */
  function Sized(ino: Inode, w: Span): Inode {
    ino.(size := Max(ino.size, w.pos + |w.bytes|))
  }

  lemma SizedFits(ino: Inode, w: Span)
    requires SizeFits(ino) && w.Last() < ino.count && w.pos <= ino.size
    ensures SizeFits(Sized(ino, w))
  {
  }

  /** The tail of the last block lies at the end of the bytes written. */
  lemma TailPosition(w: Span, i: nat)
    requires w.First() < w.Last() && i < w.Tail()
    ensures var k := SECTOR * w.Last() + i;
            && w.pos <= k < w.pos + |w.bytes| && Source(w, k) == i && k - w.pos == |w.bytes| - w.Tail() + i
  {
  }

  /** A byte that is not in that tail comes from its own place. */
  lemma OwnPlace(w: Span, k: int)
    requires w.pos <= k < w.pos + |w.bytes|
    ensures Source(w, k) == k - w.pos
            || (w.First() < w.Last() && k == SECTOR * w.Last() + Source(w, k) && 0 <= Source(w, k) < w.Tail())
  {
  }

  lemma ExactSource(w: Span, k: int)
    requires Exact(w) && w.pos <= k < w.pos + |w.bytes|
    ensures w.bytes[Source(w, k)] == w.bytes[k - w.pos]
  {
    OwnPlace(w, k);
    if Source(w, k) != k - w.pos {
      var i := Source(w, k);
      TailPosition(w, i);
      assert w.bytes[..w.Tail()][i] == w.bytes[|w.bytes| - w.Tail()..][i];
    }
  }

  lemma WrittenOnDisk(was: seq<Sector>, now: seq<Sector>, data: int, ino: Inode, w: Span)
    requires WrittenTo(was, now, data, ino, w, w.Last() + 1) && SizeFits(ino) && w.pos <= ino.size
    ensures Sectors(now) && OnDisk(now, data, Sized(ino, w)) && SizeFits(Sized(ino, w))
  {
    SizedFits(ino, w);
    WrittenByte(was, now, data, ino, w, SECTOR * w.First());
  }

  /** Byte `k` of the file after the write. */
  lemma ContentsAfter(was: seq<Sector>, now: seq<Sector>, data: int, ino: Inode, w: Span, k: int)
    requires WrittenTo(was, now, data, ino, w, w.Last() + 1) && SizeFits(ino) && w.pos <= ino.size
    requires 0 <= k < Max(ino.size, w.pos + |w.bytes|)
    ensures Sectors(now) && OnDisk(now, data, Sized(ino, w)) && SizeFits(Sized(ino, w))
    ensures Contents(now, data, Sized(ino, w))[k] ==
            if w.pos <= k < w.pos + |w.bytes| then w.bytes[Source(w, k)] else Contents(was, data, ino)[k]
  {
    WrittenOnDisk(was, now, data, ino, w);
    WrittenByte(was, now, data, ino, w, k);
  }

  lemma ExactlySpliced(before: seq<int>, after: seq<int>, w: Span)
    requires w.pos <= |before| && |after| == Max(|before|, w.pos + |w.bytes|)
    requires forall k :: 0 <= k < |after| ==>
               after[k] == if w.pos <= k < w.pos + |w.bytes| then w.bytes[Source(w, k)] else before[k]
    ensures after == Spliced(before, w.pos, w.bytes) <==> Exact(w)
  {
    var want := Spliced(before, w.pos, w.bytes);
    if Exact(w) {
      forall k | 0 <= k < |want| ensures after[k] == want[k] {
        if w.pos <= k < w.pos + |w.bytes| { ExactSource(w, k); }
      }
      assert after == want;
    } else if after == want {
      var head, tail := w.bytes[..w.Tail()], w.bytes[|w.bytes| - w.Tail()..];
      forall i | 0 <= i < w.Tail() ensures head[i] == tail[i] {
        TailPosition(w, i);
        assert after[SECTOR * w.Last() + i] == want[SECTOR * w.Last() + i];
      }
      assert false;
    }
  }

  /** The main property of a write: the file becomes its old bytes with the new ones spliced in
      exactly if the write stays in one block, ends on a block boundary, or happens to end as
      it begins. */
  lemma WriteExactly(was: seq<Sector>, now: seq<Sector>, data: int, ino: Inode, w: Span)
    requires WrittenTo(was, now, data, ino, w, w.Last() + 1) && SizeFits(ino) && w.pos <= ino.size
    ensures Sectors(now) && OnDisk(now, data, Sized(ino, w)) && SizeFits(Sized(ino, w))
    ensures Contents(now, data, Sized(ino, w)) == Spliced(Contents(was, data, ino), w.pos, w.bytes) <==> Exact(w)
  {
    WrittenOnDisk(was, now, data, ino, w);
    var before, after := Contents(was, data, ino), Contents(now, data, Sized(ino, w));
    forall k | 0 <= k < |after|
      ensures after[k] == if w.pos <= k < w.pos + |w.bytes| then w.bytes[Source(w, k)] else before[k]
    {
      ContentsAfter(was, now, data, ino, w, k);
    }
    ExactlySpliced(before, after, w);
  }

  /** 600 bytes for the start of a file, the first 512 of them 0 and the rest 1. */
  function TwoBlocks(): Span {
    Span(0, seq(600, (i: nat) => i / SECTOR))
  }

  /** They are not what the file holds afterwards: its byte 512 is a 0. */
  lemma TwoBlocksGoWrong(was: seq<Sector>, now: seq<Sector>, data: int, ino: Inode)
    requires WrittenTo(was, now, data, ino, TwoBlocks(), TwoBlocks().Last() + 1) && SizeFits(ino)
    ensures !Exact(TwoBlocks())
    ensures Sectors(now) && OnDisk(now, data, Sized(ino, TwoBlocks())) && SizeFits(Sized(ino, TwoBlocks()))
    ensures Contents(now, data, Sized(ino, TwoBlocks()))[SECTOR] == 0 != TwoBlocks().bytes[SECTOR]
  {
    var w := TwoBlocks();
    ContentsAfter(was, now, data, ino, w, SECTOR);
    assert w.bytes[..w.Tail()][0] == 0 && w.bytes[|w.bytes| - w.Tail()..][0] == 1;
  }
}
