/**
 `sys_format` and the superblock: the state a fresh disk comes up in.
 */
module Formatting {
  import opened Words
  import opened CStrings
  import opened FileBlocks
  import opened SectorMap
  import opened Volume
  import opened Ownership
  import opened Directory

  const META_WORDS := 9

  /** The words of `superblock_t`; the name is "Banana". */
  function MetaWords(m: Meta): (ws: seq<int>)
    ensures |ws| == META_WORDS
  {
    [MAGIC, 0x616e_6142, 0x616e, INODES, m.sectors, m.mapStart, m.inodeMapStart, m.tableStart, m.dataStart]
  }

  ghost predicate IsMeta(m: Meta) {
    IsWord(m.sectors) && IsWord(m.mapStart) && IsWord(m.inodeMapStart) && IsWord(m.tableStart) && IsWord(m.dataStart)
  }

  function Zeros(): (s: Sector)
    ensures |s| == SECTOR
  {
    seq(SECTOR, _ => 0)
  }

  function SuperSector(m: Meta): (s: Sector)
    requires IsMeta(m)
    ensures |s| == SECTOR
  {
    Put(Zeros(), 0, Encoded(MetaWords(m)))
  }

  /** What `init_fs` finds in sector 0. */
  function MagicOf(s: Sector): int
    requires |s| == SECTOR
  {
    WordAt(s, 0)
  }

  function MetaOf(s: Sector): Meta
    requires |s| == SECTOR
  {
    Meta(WordAt(s, 16), WordAt(s, 20), WordAt(s, 24), WordAt(s, 28), WordAt(s, 32))
  }

  lemma PutAtStart(m: seq<int>, s: seq<int>)
    requires |s| <= |m|
    ensures Put(m, 0, s)[0..0 + |s|] == s
  {
  }

  lemma MetaWord(m: Meta, i: nat)
    requires IsMeta(m) && i < META_WORDS
    ensures WordAt(SuperSector(m), 4 * i) == MetaWords(m)[i]
  {
    var ws := MetaWords(m);
    PutAtStart(Zeros(), Encoded(ws));
    DecodesTo(SuperSector(m), 0, ws, i);
  }

  lemma SuperRoundTrip(m: Meta)
    requires IsMeta(m)
    ensures MagicOf(SuperSector(m)) == MAGIC && MetaOf(SuperSector(m)) == m
  {
    MetaWord(m, 0);
    MetaWord(m, 4);
    MetaWord(m, 5);
    MetaWord(m, 6);
    MetaWord(m, 7);
    MetaWord(m, 8);
  }

  // ----- sys_format -----

  function RootInode(): (ino: Inode)
    ensures IsInode(ino)
  {
    Inode(KIND_DIR, 2 * SECTOR, 2, [0, 1] + seq(DIRECT - 2, _ => 0))
  }

  /** The sector `sys_format` leaves at `s`. */
  function FormattedSector(was: seq<Sector>, m: Meta, s: int): Sector
    requires 0 <= s < |was| && IsMeta(m)
  {
    if s == 0 then SuperSector(m)
    else if s == m.mapStart then Zeros()[0 := 3]
    else if s == m.inodeMapStart then Zeros()[0 := 1]
    else if m.mapStart <= s < m.tableStart then Zeros()
    else if s == m.tableStart then Put(Zeros(), 0, InodeBytes(RootInode()))
    else if s == m.dataStart || s == m.dataStart + 1 then seq(SECTOR, _ => 0xff)
    else was[s]
  }

  ghost predicate AllBytes(disk: seq<Sector>) {
    Sectors(disk) && forall s :: 0 <= s < |disk| ==> Bytes(disk[s])
  }

  /** The disk `sys_format` leaves. */
  ghost predicate Formatted(was: seq<Sector>, now: seq<Sector>) {
    && AllBytes(was) && Layout(|was|).dataStart + 2 <= |was| < LBA_LIMIT && |now| == |was| && IsMeta(Layout(|was|))
    && forall s {:trigger now[s]} :: 0 <= s < |now| ==> now[s] == FormattedSector(was, Layout(|was|), s)
  }

  /** The superblock on the disk is the one in memory. */
  ghost predicate HasSuper(v: Vol) {
    IsMeta(v.meta) && |v.disk| > 0 && v.disk[0] == SuperSector(v.meta)
  }

  lemma LayoutIsMeta(n: int)
    requires 0 < n < WORD_LIMIT && Layout(n).dataStart + 2 <= n
    ensures IsMeta(Layout(n))
  {
    LayoutOrdered(n);
  }

  /** The bits of the small bytes format stores. */
  lemma SmallBytes(i: nat)
    requires i < 8
    ensures BitOf(0, i) == false && (BitOf(1, i) <==> i == 0) && (BitOf(3, i) <==> i < 2)
  {
    BitsOfValue(0);
    BitsOfValue(1);
    BitsOfValue(3);
  }

  lemma {:induction false} EncodedBytes(ws: seq<int>)
    requires forall i :: 0 <= i < |ws| ==> IsWord(ws[i])
    ensures Bytes(Encoded(ws))
  {
    if |ws| > 0 {
      EncodedBytes(ws[..|ws| - 1]);
    }
  }

  lemma FormattedSectors(was: seq<Sector>, now: seq<Sector>)
    requires Formatted(was, now)
    ensures AllBytes(now) && 0 < Layout(|now|).inodeMapStart < |now|
    ensures 0 <= Layout(|now|).tableStart && Layout(|now|).tableStart + TABLE_SECTORS <= |now|
  {
    LayoutOrdered(|was|);
    EncodedBytes(MetaWords(Layout(|was|)));
    EncodedBytes(InodeWords(RootInode()));
    forall s | 0 <= s < |now| ensures |now[s]| == SECTOR && Bytes(now[s]) {
      assert now[s] == FormattedSector(was, Layout(|was|), s);
    }
  }

  lemma WordOfBytes(s: Sector, p: int)
    requires Bytes(s) && 0 <= p && p + 4 <= |s|
    ensures IsWord(WordAt(s, p))
  {
  }

  lemma InodeOfBytes(s: Sector, at: int)
    requires Bytes(s) && 0 <= at && at + INODE_BYTES <= |s|
    ensures IsInode(InodeFrom(s, at))
  {
    forall p | 0 <= p && p + 4 <= |s| ensures IsWord(WordAt(s, p)) { WordOfBytes(s, p); }
  }

  lemma LoadedFormed(disk: seq<Sector>)
    requires AllBytes(disk) && 0 < |disk| < LBA_LIMIT && Layout(|disk|).dataStart + 2 <= |disk|
    requires 0 < Layout(|disk|).inodeMapStart < |disk| && 0 <= Layout(|disk|).tableStart
    requires Layout(|disk|).tableStart + TABLE_SECTORS <= |disk|
    ensures Formed(Loaded(disk, Layout(|disk|)))
  {
    LayoutOrdered(|disk|);
    var v := Loaded(disk, Layout(|disk|));
    forall i | 0 <= i < INODES ensures IsInode(v.inodes[i]) {
      InodeOfBytes(disk[v.meta.tableStart + i / PER_SECTOR], INODE_BYTES * (i % PER_SECTOR));
    }
  }

  /** On a formatted disk inode 0 is the only one taken ... */
  lemma FormattedLive(was: seq<Sector>, now: seq<Sector>, i: int)
    requires Formatted(was, now)
    ensures AllBytes(now) && 0 < Layout(|now|).inodeMapStart < |now| && 0 <= Layout(|now|).tableStart
    ensures Layout(|now|).tableStart + TABLE_SECTORS <= |now|
    ensures Live(Loaded(now, Layout(|now|)), i) <==> i == 0
  {
    FormattedSectors(was, now);
    LayoutOrdered(|was|);
    var m := Layout(|was|);
    assert now[m.inodeMapStart] == FormattedSector(was, m, m.inodeMapStart) == Zeros()[0 := 1];
    if 0 <= i < INODES { SmallBytes(i % 8); }
  }

  /** ... it is the directory ... */
  lemma FormattedRoot(was: seq<Sector>, now: seq<Sector>)
    requires Formatted(was, now)
    ensures AllBytes(now) && 0 < Layout(|now|).inodeMapStart < |now| && 0 <= Layout(|now|).tableStart
    ensures Layout(|now|).tableStart + TABLE_SECTORS <= |now|
    ensures Loaded(now, Layout(|now|)).inodes[0] == RootInode()
  {
    FormattedSectors(was, now);
    LayoutOrdered(|was|);
    var m := Layout(|was|);
    var s := now[m.tableStart];
    assert s == FormattedSector(was, m, m.tableStart) == Put(Zeros(), 0, InodeBytes(RootInode()));
    assert s[0..0 + INODE_BYTES] == InodeBytes(RootInode());
    InodeRoundTrip(RootInode(), s, 0);
  }

  /** ... data sectors 0 and 1 are the only ones in use ... */
  lemma FormattedMap(was: seq<Sector>, now: seq<Sector>, t: int)
    requires Formatted(was, now)
    ensures Marked(now, Layout(|now|).mapStart, Layout(|now|).inodeMapStart, t) <==> t == 0 || t == 1
  {
    FormattedSectors(was, now);
    LayoutOrdered(|was|);
    var m := Layout(|was|);
    if 0 <= t < SECTOR * (m.inodeMapStart - m.mapStart) {
      var s := m.mapStart + t / SECTOR;
      assert now[s] == FormattedSector(was, m, s);
      SmallBytes(t % SECTOR % 8);
    }
  }

  /** ... and no entry is. */
  lemma FormattedEntries(was: seq<Sector>, now: seq<Sector>, v: Vol, n: int)
    requires Formatted(was, now) && v.disk == now && v.meta == Layout(|now|) && 0 <= n < ENTRIES
    ensures HasDirectory(v) && !Used(EntryAt(v, n))
  {
    FormattedSectors(was, now);
    LayoutOrdered(|was|);
    var s := v.meta.dataStart + n / IN_SECTOR;
    assert now[s] == FormattedSector(was, v.meta, s) == seq(SECTOR, _ => 0xff);
    assert WordAt(EntryAt(v, n), 0) == 0xff + 0x100 * 0xff + 0x1_0000 * 0xff + 0x100_0000 * 0xff;
  }

  /** With the directory alone, in the two sectors in use, everything is in order. */
  lemma StartSound(v: Vol)
    requires Formed(v) && v.inodes[0] == RootInode()
    requires forall i :: Live(v, i) <==> i == 0
    requires forall t :: InUse(v, t) <==> t == 0 || t == 1
    ensures Sound(v)
  {
    forall i, b | HasBlock(v, i, b) ensures i == 0 && 0 <= b < 2 && Ptr(v, i, b) == b {}
    forall t | InUse(v, t) ensures Owns(v, t) {
      assert HasBlock(v, 0, t) && Ptr(v, 0, t) == t;
    }
  }

  lemma FormatSound(was: seq<Sector>, now: seq<Sector>)
    requires Formatted(was, now)
    ensures AllBytes(now) && 0 < Layout(|now|).inodeMapStart < |now| && 0 <= Layout(|now|).tableStart
    ensures Layout(|now|).tableStart + TABLE_SECTORS <= |now|
    ensures Sound(Loaded(now, Layout(|now|)))
  {
    FormattedSectors(was, now);
    LoadedFormed(now);
    FormattedRoot(was, now);
    var v := Loaded(now, Layout(|now|));
    forall i ensures Live(v, i) <==> i == 0 { FormattedLive(was, now, i); }
    forall t ensures InUse(v, t) <==> t == 0 || t == 1 { FormattedMap(was, now, t); }
    StartSound(v);
  }

  /** Formatting a disk of any size that holds the tables, and loading what it wrote, starts the
      file system off with everything in order and an empty directory. */
  lemma FormatStarts(was: seq<Sector>, now: seq<Sector>)
    requires Formatted(was, now)
    ensures AllBytes(now) && 0 < Layout(|now|).inodeMapStart < |now| && 0 <= Layout(|now|).tableStart
    ensures Layout(|now|).tableStart + TABLE_SECTORS <= |now|
    ensures var v := Loaded(now, Layout(|now|));
            Inv(v) && HasSuper(v) && forall name :: Lookup(v, name) == NONE
  {
    FormatSound(was, now);
    var v := Loaded(now, Layout(|now|));
    forall i ensures Live(v, i) <==> i == 0 { FormattedLive(was, now, i); }
    forall n | 0 <= n < ENTRIES ensures HasDirectory(v) && !Used(EntryAt(v, n)) { FormattedEntries(was, now, v, n); }
    LayoutOrdered(|was|);
    assert now[0] == FormattedSector(was, Layout(|was|), 0);
    forall name ensures Lookup(v, name) == NONE { LookupMisses(v, name, 0); }
  }

  /** A restart finds the superblock, and loads the tables that were last synced. */
  lemma RestartRestores(v: Vol)
    requires Synced(v) && HasSuper(v)
    ensures MagicOf(v.disk[0]) == MAGIC && MetaOf(v.disk[0]) == v.meta
    ensures 0 <= v.meta.inodeMapStart < |v.disk|
    ensures 0 <= v.meta.tableStart && v.meta.tableStart + TABLE_SECTORS <= |v.disk|
    ensures Loaded(v.disk, MetaOf(v.disk[0])) == v
  {
    SuperRoundTrip(v.meta);
    RemountRoundTrip(v);
  }
}
