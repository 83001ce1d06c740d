/**
 The bytes on the disk: what a format stores and what it leaves alone, and where the inodes, the
 inode map and the directory entries of a running system lie, sector by sector and word by word.
 */
module DiskFormat {
  import opened Words
  import opened CStrings
  import opened FileBlocks
  import opened Volume
  import opened FileNames
  import opened Directory
  import opened Formatting

  /** The last sector of the map, counted from its first: the map has one for every 512 sectors. */
  function LastMap(n: int): int {
    (n - 1) / 512
  }

  // ----- format -----

  /** A format keeps the boot area, the inodes after the first four, and all data but the first
      two sectors. */
  lemma FormatLeaves(was: seq<Sector>, now: seq<Sector>)
    requires Formatted(was, now)
    ensures |now| == |was|
    ensures forall s :: 1 <= s < 32 ==> now[s] == was[s]
    ensures forall s :: 35 + LastMap(|was|) <= s < 50 + LastMap(|was|) ==> now[s] == was[s]
    ensures forall s :: 52 + LastMap(|was|) <= s < |was| ==> now[s] == was[s]
  {
    LayoutOrdered(|was|);
    forall s | 0 <= s < |was| ensures now[s] == FormattedSector(was, Layout(|was|), s) {}
  }

  /** The superblock: magic number, name, 64 inodes, the size of the disk, and where map, inode
      map, inode table and data begin. */
  lemma FormatSuper(was: seq<Sector>, now: seq<Sector>)
    requires Formatted(was, now)
    ensures |now| == |was| > 0 && |now[0]| == 512
    ensures WordAt(now[0], 0) == 0xBABA && WordAt(now[0], 4) == 0x616e_6142 && WordAt(now[0], 8) == 0x616e
    ensures WordAt(now[0], 12) == 64 && WordAt(now[0], 16) == |was| && WordAt(now[0], 20) == 32
    ensures WordAt(now[0], 24) == 33 + LastMap(|was|) && WordAt(now[0], 28) == 34 + LastMap(|was|)
    ensures WordAt(now[0], 32) == 50 + LastMap(|was|)
    ensures forall i :: 36 <= i < 512 ==> now[0][i] == 0
  {
    var m := Layout(|was|);
    assert now[0] == FormattedSector(was, m, 0) == SuperSector(m);
    SuperWords(m);
  }

  lemma SuperWords(m: Meta)
    requires IsMeta(m)
    ensures var s := SuperSector(m);
            && WordAt(s, 0) == 0xBABA && WordAt(s, 4) == 0x616e_6142 && WordAt(s, 8) == 0x616e && WordAt(s, 12) == 64
            && WordAt(s, 16) == m.sectors && WordAt(s, 20) == m.mapStart && WordAt(s, 24) == m.inodeMapStart
            && WordAt(s, 28) == m.tableStart && WordAt(s, 32) == m.dataStart
            && forall i :: 36 <= i < 512 ==> s[i] == 0
  {
    MetaWord(m, 0);
    MetaWord(m, 1);
    MetaWord(m, 2);
    MetaWord(m, 3);
    SuperRoundTrip(m);
    assert |Encoded(MetaWords(m))| == 36;
  }

  /** The maps: sectors 0 and 1 of the data are marked, and inode 0. */
  lemma FormatMaps(was: seq<Sector>, now: seq<Sector>)
    requires Formatted(was, now)
    ensures |now| == |was| > 34 + LastMap(|was|)
    ensures |now[32]| == 512 && now[32][0] == 3 && forall i :: 1 <= i < 512 ==> now[32][i] == 0
    ensures forall s :: 33 <= s <= 32 + LastMap(|was|) ==> |now[s]| == 512 && forall i :: 0 <= i < 512 ==>
              now[s][i] == 0
    ensures var s := 33 + LastMap(|was|); |now[s]| == 512 && now[s][0] == 1 && forall i :: 1 <= i < 512 ==>
              now[s][i] == 0
  {
    LayoutOrdered(|was|);
    var m := Layout(|was|);
    assert now[32] == FormattedSector(was, m, 32) == Zeros()[0 := 3];
    forall s | 33 <= s <= 32 + LastMap(|was|) ensures now[s] == Zeros() {
      assert now[s] == FormattedSector(was, m, s);
    }
    var s := 33 + LastMap(|was|);
    assert now[s] == FormattedSector(was, m, s) == Zeros()[0 := 1];
  }

  /** Inode 0 is a directory of 1024 bytes in two blocks, and both are filled with 0xff. */
  lemma FormatRoot(was: seq<Sector>, now: seq<Sector>)
    requires Formatted(was, now)
    ensures |now| == |was| >= 52 + LastMap(|was|)
    ensures var s := now[34 + LastMap(|was|)];
            && |s| == 512 && WordAt(s, 0) == 1 && WordAt(s, 4) == 1024 && WordAt(s, 8) == 2
            && WordAt(s, 12) == 0 && WordAt(s, 16) == 1
    ensures forall s :: 50 + LastMap(|was|) <= s < 52 + LastMap(|was|) ==>
              |now[s]| == 512 && forall i :: 0 <= i < 512 ==> now[s][i] == 0xff
  {
    LayoutOrdered(|was|);
    var m := Layout(|was|);
    assert now[m.tableStart] == FormattedSector(was, m, m.tableStart) == Put(Zeros(), 0, InodeBytes(RootInode()));
    RootWords();
    forall s | 50 + LastMap(|was|) <= s < 52 + LastMap(|was|) ensures now[s] == seq(SECTOR, _ => 0xff) {
      assert now[s] == FormattedSector(was, m, s);
    }
  }

  lemma RootWords()
    ensures var s := Put(Zeros(), 0, InodeBytes(RootInode()));
            && WordAt(s, 0) == 1 && WordAt(s, 4) == 1024 && WordAt(s, 8) == 2 && WordAt(s, 12) == 0 &&
                 WordAt(s, 16) == 1
  {
    var ino := RootInode();
    var s := Put(Zeros(), 0, InodeBytes(ino));
    PutAtStart(Zeros(), InodeBytes(ino));
    InodeWordsAt(ino, s, 0);
    assert WordAt(s, 0 + 12 + 4 * 0) == ino.ptrs[0] && WordAt(s, 0 + 12 + 4 * 1) == ino.ptrs[1];
  }

  // ----- inodes -----

  /** An inode is 32 words: type, size, block count and 29 pointers. */
  lemma InodeWordsAt(ino: Inode, s: Sector, at: nat)
    requires IsInode(ino) && at + 128 <= |s| && s[at..at + 128] == InodeBytes(ino)
    ensures WordAt(s, at) == ino.kind && WordAt(s, at + 4) == ino.size && WordAt(s, at + 8) == ino.count
    ensures |ino.ptrs| == 29 && forall b :: 0 <= b < 29 ==> WordAt(s, at + 12 + 4 * b) == ino.ptrs[b]
  {
    InodeRoundTrip(ino, s, at);
    forall b | 0 <= b < 29 ensures WordAt(s, at + 12 + 4 * b) == ino.ptrs[b] {
      assert InodeFrom(s, at).ptrs[b] == ino.ptrs[b];
    }
  }

  /** Once synced, inode `i` lies in the `i / 4`-th sector of the table, `i % 4` places from its
      start, and the map of the inodes in the first 8 bytes of its sector. */
  lemma InodePlace(v: Vol, i: int)
    requires Synced(v) && 0 <= i < 64
    ensures 0 <= v.meta.tableStart && v.meta.tableStart + 16 == v.meta.dataStart <= |v.disk|
    ensures var s, at, ino := v.disk[v.meta.tableStart + i / 4], 128 * (i % 4), v.inodes[i];
            && |s| == 512 && WordAt(s, at) == ino.kind && WordAt(s, at + 4) == ino.size &&
                 WordAt(s, at + 8) == ino.count
            && |ino.ptrs| == 29 && forall b :: 0 <= b < 29 ==> WordAt(s, at + 12 + 4 * b) == ino.ptrs[b]
    ensures 0 <= v.meta.inodeMapStart < |v.disk| && |v.disk[v.meta.inodeMapStart]| == 512
    ensures |v.marks| == 8 && forall k :: 0 <= k < 8 ==> v.disk[v.meta.inodeMapStart][k] == v.marks[k]
  {
    LayoutOrdered(|v.disk|);
    InodeLoaded(v, i);
    MapLoaded(v);
    var ino := LoadedInode(v.disk, v.meta, i);
    forall b | 0 <= b < 29
      ensures WordAt(v.disk[v.meta.tableStart + i / 4], 128 * (i % 4) + 12 + 4 * b) == v.inodes[i].ptrs[b]
    {
      assert ino.ptrs[b] == v.inodes[i].ptrs[b];
    }
    forall k | 0 <= k < 8 ensures v.disk[v.meta.inodeMapStart][k] == v.marks[k] {
      assert v.disk[v.meta.inodeMapStart][..MAP_BYTES][k] == v.marks[k];
    }
  }

  // ----- directory entries -----

  /** An entry is 16 bytes, 32 of them in a sector: the inode index, the base and the extension. */
  lemma EntryPlace(v: Vol, n: int)
    requires HasDirectory(v) && 0 <= n < 64
    ensures 0 <= v.meta.dataStart + n / 32 < |v.disk| && |v.disk[v.meta.dataStart + n / 32]| == 512
    ensures var s, at, e := v.disk[v.meta.dataStart + n / 32], 16 * (n % 32), EntryAt(v, n);
            && |e| == 16 && (forall i :: 0 <= i < 16 ==> e[i] == s[at + i])
            && Idx(e) == WordAt(s, at) && (Used(e) <==> WordAt(s, at) != 0xffff_ffff)
            && NameOf(e) == Text(s[at + 4..at + 12]) + if s[at + 12] != 0 then [46] + Text(s[at + 12..at + 16]) else []
  {
    var s, at, e := v.disk[v.meta.dataStart + n / 32], 16 * (n % 32), EntryAt(v, n);
    assert e == s[at..at + 16];
    assert e[4..12] == s[at + 4..at + 12] && e[12..] == s[at + 12..at + 16];
  }
}
