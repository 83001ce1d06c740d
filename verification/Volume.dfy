/**
 The file system of fs/fs.c as a value: where format puts things, what the tables in memory
 say, what `sync_inode` writes and what `init_fs` loads.
 */
module Volume {
  import opened Words
  import opened CStrings
  import opened FileBlocks
  import opened SectorMap

  const INODES := 64
  const MAP_BYTES := 8      // inode_map
  const INODE_BYTES := 128
  const PER_SECTOR := 4     // inodes in a sector
  const TABLE_SECTORS := 16
  const KIND_DIR := 1
  const KIND_FILE := 2
  const MAGIC := 0xBABA

  /** The superblock, but for its constants. */
  datatype Meta = Meta(sectors: int, mapStart: int, inodeMapStart: int, tableStart: int, dataStart: int)

  /** Where `sys_format` puts the regions of a disk of `n` sectors. */
  function Layout(n: int): Meta {
    var inodeMapStart := 32 + (n - 1) / SECTOR + 1;
    var tableStart := inodeMapStart + (INODES - 1) / SECTOR + 1;
    Meta(n, 32, inodeMapStart, tableStart, tableStart + (INODES - 1) / PER_SECTOR + 1)
  }

  /** The regions follow one another without overlap, the table has room for every inode, and
      the map a bit for every sector there is. */
  lemma LayoutOrdered(n: int)
    requires n > 0
    ensures var m := Layout(n);
            && 0 < m.mapStart < m.inodeMapStart < m.tableStart < m.dataStart
            && m.inodeMapStart + 1 == m.tableStart && m.tableStart + TABLE_SECTORS == m.dataStart
            && TABLE_SECTORS * PER_SECTOR == INODES
            && SECTOR * (m.inodeMapStart - m.mapStart) >= n
  {
  }

  /** The state of the file system: superblock, disk, and the tables in memory. */
  datatype Vol = Vol(meta: Meta, disk: seq<Sector>, inodes: seq<Inode>, marks: seq<int>)

  // ----- on the disk -----

  ghost predicate IsInode(ino: Inode) {
    && IsWord(ino.kind) && IsWord(ino.size) && IsWord(ino.count) && |ino.ptrs| == DIRECT
    && forall b :: 0 <= b < DIRECT ==> IsWord(ino.ptrs[b])
  }

  function InodeWords(ino: Inode): (ws: seq<int>)
    requires |ino.ptrs| == DIRECT
    ensures |ws| == 32
  {
    [ino.kind, ino.size, ino.count] + ino.ptrs
  }

  function InodeBytes(ino: Inode): (s: seq<int>)
    requires IsInode(ino)
    ensures |s| == INODE_BYTES
  {
    Encoded(InodeWords(ino))
  }

  /** The bytes of a run of inodes. */
  function TableBytes(inodes: seq<Inode>): (s: seq<int>)
    requires forall i :: 0 <= i < |inodes| ==> IsInode(inodes[i])
    ensures |s| == INODE_BYTES * |inodes|
  {
    if |inodes| == 0 then [] else TableBytes(inodes[..|inodes| - 1]) + InodeBytes(inodes[|inodes| - 1])
  }

  /** Sector `k` of the inode table. */
  function TableSector(inodes: seq<Inode>, k: int): (s: Sector)
    requires |inodes| == INODES && 0 <= k < TABLE_SECTORS && forall i :: 0 <= i < INODES ==> IsInode(inodes[i])
    ensures |s| == SECTOR
  {
    TableBytes(inodes[PER_SECTOR * k..PER_SECTOR * k + PER_SECTOR])
  }

  function MapSector(marks: seq<int>): (s: Sector)
    requires |marks| == MAP_BYTES
    ensures |s| == SECTOR
  {
    marks + seq(SECTOR - MAP_BYTES, _ => 0)
  }

  function InodeFrom(s: Sector, at: int): Inode
    requires 0 <= at && at + INODE_BYTES <= |s|
  {
    Inode(WordAt(s, at), WordAt(s, at + 4), WordAt(s, at + 8),
          seq(DIRECT, (b: nat) requires b < DIRECT => WordAt(s, at + 12 + 4 * b)))
  }

  lemma InodeRoundTrip(ino: Inode, s: Sector, at: nat)
    requires IsInode(ino) && at + INODE_BYTES <= |s| && s[at..at + INODE_BYTES] == InodeBytes(ino)
    ensures InodeFrom(s, at) == ino
  {
    var ws := InodeWords(ino);
    DecodesTo(s, at, ws, 0);
    DecodesTo(s, at, ws, 1);
    DecodesTo(s, at, ws, 2);
    forall b: nat | b < DIRECT ensures WordAt(s, at + 12 + 4 * b) == ino.ptrs[b] {
      DecodesTo(s, at, ws, b + 3);
    }
    assert InodeFrom(s, at).ptrs == ino.ptrs;
  }

  /** The inodes of a sector lie side by side. */
  lemma {:induction false} TablePart(inodes: seq<Inode>, r: nat)
    requires r < |inodes| && forall i :: 0 <= i < |inodes| ==> IsInode(inodes[i])
    ensures TableBytes(inodes)[INODE_BYTES * r..INODE_BYTES * r + INODE_BYTES] == InodeBytes(inodes[r])
  {
    var n := |inodes| - 1;
    if r < n {
      TablePart(inodes[..n], r);
      assert TableBytes(inodes)[INODE_BYTES * r..INODE_BYTES * r + INODE_BYTES] ==
             TableBytes(inodes[..n])[INODE_BYTES * r..INODE_BYTES * r + INODE_BYTES];
    }
  }

  lemma TableRoundTrip(inodes: seq<Inode>, i: int)
    requires |inodes| == INODES && 0 <= i < INODES && forall j :: 0 <= j < INODES ==> IsInode(inodes[j])
    ensures InodeFrom(TableSector(inodes, i / PER_SECTOR), INODE_BYTES * (i % PER_SECTOR)) == inodes[i]
  {
    var k := i / PER_SECTOR;
    TablePart(inodes[PER_SECTOR * k..PER_SECTOR * k + PER_SECTOR], i % PER_SECTOR);
    assert inodes[PER_SECTOR * k..PER_SECTOR * k + PER_SECTOR][i % PER_SECTOR] == inodes[i];
    InodeRoundTrip(inodes[i], TableSector(inodes, i / PER_SECTOR), INODE_BYTES * (i % PER_SECTOR));
  }

  // ----- sync_inode and init_fs -----

  /** Superblock and tables are as format made them: `n` sectors, 64 inodes, 8 bytes of map. */
  ghost predicate Formed(v: Vol) {
    && v.meta == Layout(|v.disk|) && v.meta.dataStart + 2 <= |v.disk| < LBA_LIMIT
    && IsMap(v.disk, v.meta.mapStart, v.meta.inodeMapStart)
    && |v.inodes| == INODES && |v.marks| == MAP_BYTES && Bytes(v.marks)
    && forall i :: 0 <= i < INODES ==> IsInode(v.inodes[i])
  }

  /** The sector `sync_inode` writes at `s`, if it does. */
  function SyncedSector(v: Vol, s: int): Sector
    requires Formed(v) && 0 <= s < |v.disk|
  {
    if s == v.meta.inodeMapStart then MapSector(v.marks)
    else if v.meta.tableStart <= s < v.meta.dataStart then TableSector(v.inodes, s - v.meta.tableStart)
    else v.disk[s]
  }

  /** The disk holds what the tables in memory hold. */
  ghost predicate Synced(v: Vol) {
    Formed(v) && forall s {:trigger v.disk[s]} :: 0 <= s < |v.disk| ==> v.disk[s] == SyncedSector(v, s)
  }

  /** `sync_inode`. */
  ghost predicate SyncRel(v: Vol, v': Vol) {
    && Formed(v) && |v'.disk| == |v.disk| && v' == v.(disk := v'.disk)
    && forall s {:trigger v'.disk[s]} :: 0 <= s < |v.disk| ==> v'.disk[s] == SyncedSector(v, s)
  }

  /** The state it leaves. */
  function AfterSync(v: Vol): (y: Vol)
    requires Formed(v)
    ensures SyncRel(v, y)
  {
    v.(disk := seq(|v.disk|, (s: nat) requires s < |v.disk| => SyncedSector(v, s)))
  }

  /** The tables `init_fs` reads from the disk. */
  function LoadedInode(disk: seq<Sector>, meta: Meta, i: int): Inode
    requires Sectors(disk) && 0 <= i < INODES && 0 <= meta.tableStart && meta.tableStart + TABLE_SECTORS <= |disk|
  {
    InodeFrom(disk[meta.tableStart + i / PER_SECTOR], INODE_BYTES * (i % PER_SECTOR))
  }

  function Loaded(disk: seq<Sector>, meta: Meta): Vol
    requires Sectors(disk) && 0 <= meta.inodeMapStart < |disk|
    requires 0 <= meta.tableStart && meta.tableStart + TABLE_SECTORS <= |disk|
  {
    Vol(meta, disk, seq(INODES, (i: nat) requires i < INODES => LoadedInode(disk, meta, i)),
        disk[meta.inodeMapStart][..MAP_BYTES])
  }

  lemma InodeLoaded(v: Vol, i: int)
    requires Synced(v) && 0 <= i < INODES
    ensures v.meta.tableStart + TABLE_SECTORS <= |v.disk| && 0 <= v.meta.tableStart
    ensures LoadedInode(v.disk, v.meta, i) == v.inodes[i]
  {
    LayoutOrdered(|v.disk|);
    var s := v.meta.tableStart + i / PER_SECTOR;
    assert v.disk[s] == TableSector(v.inodes, i / PER_SECTOR);
    TableRoundTrip(v.inodes, i);
  }

  lemma MapLoaded(v: Vol)
    requires Synced(v)
    ensures 0 <= v.meta.inodeMapStart < |v.disk| && v.disk[v.meta.inodeMapStart][..MAP_BYTES] == v.marks
  {
    LayoutOrdered(|v.disk|);
    assert v.disk[v.meta.inodeMapStart] == MapSector(v.marks);
  }

  /** Remount: what a restart loads from a disk that was synced is what was in memory. */
  lemma RemountRoundTrip(v: Vol)
    requires Synced(v)
    ensures 0 <= v.meta.inodeMapStart < |v.disk|
    ensures 0 <= v.meta.tableStart && v.meta.tableStart + TABLE_SECTORS <= |v.disk|
    ensures Loaded(v.disk, v.meta) == v
  {
    MapLoaded(v);
    forall i | 0 <= i < INODES
      ensures 0 <= v.meta.tableStart && v.meta.tableStart + TABLE_SECTORS <= |v.disk|
      ensures LoadedInode(v.disk, v.meta, i) == v.inodes[i]
    {
      InodeLoaded(v, i);
    }
    InodeLoaded(v, 0);
    assert Loaded(v.disk, v.meta).inodes == v.inodes;
  }

  /** Syncing changes nothing but the inode map and the inode table. */
  lemma SyncSyncs(v: Vol, v': Vol)
    requires SyncRel(v, v')
    ensures Synced(v')
    ensures forall s :: 0 <= s < |v.disk| && !(v.meta.inodeMapStart <= s < v.meta.dataStart) ==> v'.disk[s] == v.disk[s]
  {
    LayoutOrdered(|v.disk|);
    assert Formed(v');
  }
}
