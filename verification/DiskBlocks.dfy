/**
 The disk, the sector buffer of fs/fs.c, and the block loops of `sys_do_write` and
 `sys_do_read`.
 */
module DiskBlocks {
  import opened CStrings
  import opened FileBlocks

  /** The bytes of a file between two positions. */
  ghost predicate Slice(disk: seq<Sector>, data: int, ino: Inode, pos: int, s: seq<int>)
    requires OnDisk(disk, data, ino) && Sectors(disk)
  {
    && 0 <= pos && (|s| == 0 || pos + |s| <= SECTOR * ino.count)
    && forall k {:trigger s[k]} :: 0 <= k < |s| ==> s[k] == ByteAt(disk, data, ino, pos + k)
  }

  /** The bytes of a file up to the end of block `b`, followed by some of the next block. */
  lemma SliceGrows(disk: seq<Sector>, data: int, ino: Inode, pos: int, s: seq<int>, b: int, n: nat)
    requires OnDisk(disk, data, ino) && Sectors(disk) && Slice(disk, data, ino, pos, s)
    requires pos + |s| == SECTOR * b && 0 <= b < ino.count && n <= SECTOR
    ensures Slice(disk, data, ino, pos, s + disk[Addr(data, ino.ptrs, b)][..n])
  {
    var t := s + disk[Addr(data, ino.ptrs, b)][..n];
    forall k | 0 <= k < |t| ensures t[k] == ByteAt(disk, data, ino, pos + k) {
      if k >= |s| {
        assert (pos + k) / SECTOR == b && (pos + k) % SECTOR == k - |s|;
      }
    }
  }

  lemma SliceStarts(disk: seq<Sector>, data: int, ino: Inode, pos: nat, n: nat)
    requires OnDisk(disk, data, ino) && Sectors(disk) && pos % SECTOR + n <= SECTOR && pos / SECTOR < ino.count
    ensures Slice(disk, data, ino, pos, disk[Addr(data, ino.ptrs, pos / SECTOR)][pos % SECTOR..pos % SECTOR + n])
  {
    var t := disk[Addr(data, ino.ptrs, pos / SECTOR)][pos % SECTOR..pos % SECTOR + n];
    forall k | 0 <= k < |t| ensures t[k] == ByteAt(disk, data, ino, pos + k) {
      assert (pos + k) / SECTOR == pos / SECTOR && (pos + k) % SECTOR == pos % SECTOR + k;
    }
  }

  lemma MiddleBytes(w: Span, b: int, p: int)
    requires w.First() < b < w.Last() && p == w.Head() + SECTOR * (b - w.First() - 1)
    ensures 0 <= p && p + SECTOR <= |w.bytes| && p + SECTOR == w.Head() + SECTOR * (b - w.First())
  {
  }

  /** The numbers an address is made of are not negative. */
  ghost predicate NoneNegative(data: int, ino: Inode) {
    0 <= data && |ino.ptrs| == DIRECT && forall b :: 0 <= b < DIRECT ==> 0 <= ino.ptrs[b]
  }

  class Disk {
    const store: array<Sector>
    ghost var sectors: seq<Sector>
    var buffer: Sector  // FS_BUFFER

    ghost predicate Valid()
      reads this, store
    {
      && store.Length == |sectors| && Sectors(sectors) && |buffer| == SECTOR
      && forall s {:trigger store[s]} :: 0 <= s < store.Length ==> store[s] == sectors[s]
    }

    constructor (contents: seq<Sector>)
      requires Sectors(contents)
      ensures Valid() && fresh(store) && sectors == contents
    {
      store := new Sector[|contents|](i requires 0 <= i < |contents| => contents[i]);
      sectors := contents;
      buffer := seq(SECTOR, _ => 0);
    }

    /** `read_sector`; past the end of the disk there is no telling what the buffer gets. */
    method ReadSector(lba: int)
      requires Valid() && 0 <= lba
      modifies `buffer
      ensures Valid() && (lba < |sectors| ==> buffer == sectors[lba])
    {
      if lba < store.Length {
        buffer := store[lba];
      } else {
        var noise: Sector := *;
        if |noise| == SECTOR { buffer := noise; }
      }
    }

    /** `write_sector`; past the end of the disk it stores nothing. */
    method WriteSector(lba: int, s: Sector)
      requires Valid() && 0 <= lba && |s| == SECTOR
      modifies `sectors, store
      ensures Valid() && sectors == if lba < |old(sectors)| then old(sectors)[lba := s] else old(sectors)
    {
      if lba < store.Length {
        store[lba] := s;
        sectors := sectors[lba := s];
      }
    }

    /** Reads a block, puts bytes into it, and writes it back. */
    method PatchBlock(lba: int, at: nat, bytes: seq<int>)
      requires Valid() && 0 <= lba && at + |bytes| <= SECTOR
      modifies `sectors, `buffer, store
      ensures Valid() && |sectors| == |old(sectors)|
      ensures sectors == if lba < |old(sectors)| then old(sectors)[lba := Put(old(sectors)[lba], at, bytes)]
              else old(sectors)
    {
      ReadSector(lba);
      buffer := Put(buffer, at, bytes);
      WriteSector(lba, buffer);
    }

    method FirstBlock(data: int, ino: Inode, w: Span)
      requires Valid() && NoneNegative(data, ino) && w.Last() < DIRECT
      modifies `sectors, `buffer, store
      ensures Valid() && sectors == StoredBlocks(old(sectors), data, ino, w, w.First() + 1)
    {
      PatchBlock(Addr(data, ino.ptrs, w.First()), w.Pre(), w.bytes[..w.Head()]);
    }

    /** The last block, if it is another one: its bytes are taken from the start of the data. */
    method LastBlock(data: int, ino: Inode, w: Span, ghost was: seq<Sector>)
      requires Valid() && NoneNegative(data, ino) && w.First() < w.Last() < DIRECT && Sectors(was)
      requires sectors == StoredBlocks(was, data, ino, w, w.Last())
      modifies `sectors, `buffer, store
      ensures Valid() && sectors == StoredBlocks(was, data, ino, w, w.Last() + 1)
    {
      PatchBlock(Addr(data, ino.ptrs, w.Last()), 0, w.bytes[..w.Tail()]);
    }

    /** The block stores of `sys_do_write`, wherever the blocks lie. */
    method WriteBlocks(data: int, ino: Inode, w: Span)
      requires Valid() && NoneNegative(data, ino) && w.Last() < DIRECT
      modifies `sectors, `buffer, store
      ensures Valid() && sectors == StoredBlocks(old(sectors), data, ino, w, w.Last() + 1)
    {
      ghost var was := sectors;
      FirstBlock(data, ino, w);
      if w.Last() - w.First() > 0 {
        MiddleBlocks(data, ino, w, was);
        LastBlock(data, ino, w, was);
      }
    }

    /** One of the blocks in between: it gets its bytes whole. */
    method MiddleBlock(data: int, ino: Inode, w: Span, ghost was: seq<Sector>, i: int, p: int)
      requires Valid() && NoneNegative(data, ino) && w.First() < i < w.Last() < DIRECT && Sectors(was)
      requires p == w.Head() + SECTOR * (i - w.First() - 1) && sectors == StoredBlocks(was, data, ino, w, i)
      modifies `sectors, store
      ensures Valid() && sectors == StoredBlocks(was, data, ino, w, i + 1)
    {
      MiddleBytes(w, i, p);
      WriteSector(Addr(data, ino.ptrs, i), w.bytes[p..p + SECTOR]);
    }

    method MiddleBlocks(data: int, ino: Inode, w: Span, ghost was: seq<Sector>)
      requires Valid() && NoneNegative(data, ino) && w.First() < w.Last() < DIRECT && Sectors(was)
      requires sectors == StoredBlocks(was, data, ino, w, w.First() + 1)
      modifies `sectors, store
      ensures Valid() && sectors == StoredBlocks(was, data, ino, w, w.Last())
    {
      var p := w.Head();
      for i := w.First() + 1 to w.Last()
        invariant Valid() && sectors == StoredBlocks(was, data, ino, w, i)
        invariant p == w.Head() + SECTOR * (i - w.First() - 1)
      {
        MiddleBlock(data, ino, w, was, i, p);
        p := p + SECTOR;
      }
    }

    /** The bytes a read takes from the first block it looks at. */
    method ReadFirst(data: int, ino: Inode, pos: nat, n: nat) returns (dest: seq<int>)
      requires Valid() && OnDisk(sectors, data, ino) && pos / SECTOR < DIRECT && pos % SECTOR + n <= SECTOR
      requires 0 <= Addr(data, ino.ptrs, pos / SECTOR) < |sectors| && (n == 0 || pos / SECTOR < ino.count)
      modifies `buffer
      ensures Valid() && |dest| == n && Slice(sectors, data, ino, pos, dest)
    {
      ReadSector(Addr(data, ino.ptrs, pos / SECTOR));
      dest := buffer[pos % SECTOR..pos % SECTOR + n];
      if n > 0 { SliceStarts(sectors, data, ino, pos, n); }
    }

    /** ... and from each of the others. */
    method ReadMore(data: int, ino: Inode, pos: nat, dest: seq<int>, b: int, n: nat) returns (dest': seq<int>)
      requires Valid() && OnDisk(sectors, data, ino) && 0 <= b < ino.count && n <= SECTOR
      requires pos + |dest| == SECTOR * b && Slice(sectors, data, ino, pos, dest)
      modifies `buffer
      ensures Valid() && |dest'| == |dest| + n && Slice(sectors, data, ino, pos, dest')
    {
      ReadSector(Addr(data, ino.ptrs, b));
      SliceGrows(sectors, data, ino, pos, dest, b, n);
      dest' := dest + buffer[..n];
    }

    /** The block loads of `sys_do_read`: the bytes of the file from `pos` on. */
    method ReadBlocks(data: int, ino: Inode, pos: nat, size: nat) returns (dest: seq<int>)
      requires Valid() && OnDisk(sectors, data, ino) && SizeFits(ino) && pos + size <= ino.size
      requires pos / SECTOR < DIRECT && 0 <= Addr(data, ino.ptrs, pos / SECTOR) < |sectors|
      modifies `buffer
      ensures Valid() && |dest| == size && Slice(sectors, data, ino, pos, dest)
    {
      var blockStart, blockEnd, pre := pos / SECTOR, (pos + size) / SECTOR, pos % SECTOR;
      dest := ReadFirst(data, ino, pos, Min(size, SECTOR - pre));
      if blockEnd - blockStart > 0 {
        for i := blockStart + 1 to blockEnd
          invariant Valid() && pos + |dest| == SECTOR * i && Slice(sectors, data, ino, pos, dest)
        {
          dest := ReadMore(data, ino, pos, dest, i, SECTOR);
        }
        dest := ReadMore(data, ino, pos, dest, blockEnd, (size + pre) % SECTOR);
      }
    }
  }
}
