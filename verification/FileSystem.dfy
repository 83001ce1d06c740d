/**
 fs/fs.c over the disk and the tables it updates.
 */
module FileSystem {
  import opened Words
  import opened CStrings
  import opened FileBlocks
  import opened DiskBlocks
  import opened SectorMap
  import opened Volume
  import opened Ownership
  import opened Growth
  import opened FileNames
  import opened FileWrites
  import opened Directory
  import opened FileCreation
  import opened Formatting

  lemma SliceOfSlice(b: seq<int>, at: nat, n: nat, i: nat, j: nat)
    requires at + n <= |b| && i <= j <= n
    ensures b[at..at + n][i..j] == b[at + i..at + j]
  {
    var x, y := b[at..at + n][i..j], b[at + i..at + j];
    forall k | 0 <= k < |x| ensures x[k] == y[k] {
      assert x[k] == b[at..at + n][i + k] == b[at + (i + k)];
    }
  }

  lemma EntryFields(s: Sector, k: int)
    requires |s| == SECTOR && 0 <= k < IN_SECTOR
    ensures var e, at := EntryOf(s, k), ENTRY_BYTES * k;
            && WordAt(s, at) == Idx(e) && s[at + EXT] == e[EXT]
            && s[at + BASE..at + EXT] == e[BASE..EXT] && s[at + EXT..at + ENTRY_BYTES] == e[EXT..]
  {
    var e, at := EntryOf(s, k), ENTRY_BYTES * k;
    SliceOfSlice(s, at, ENTRY_BYTES, BASE, EXT);
    SliceOfSlice(s, at, ENTRY_BYTES, EXT, ENTRY_BYTES);
    assert e[EXT..] == e[EXT..ENTRY_BYTES];
  }

  /** Reading a string from a field of a longer buffer stops at the end of the field. */
  lemma TextOfField(m: seq<int>, at: nat, end: nat)
    requires at <= end <= |m| && Terminated(m[at..end])
    ensures Terminated(m[at..]) && Text(m[at..]) == Text(m[at..end])
  {
    var t := Text(m[at..end]);
    assert m[at..end][..|t|] == m[at..][..|t|];
    assert m[at..][|t|] == m[at..end][|t|] == 0;
    TextOf(m[at..], t);
  }

  /** The first `n` sectors of the inode table have been written. */
  ghost predicate TableStored(was: seq<Sector>, now: seq<Sector>, inodes: seq<Inode>, start: int, n: int) {
    && |now| == |was| && |inodes| == INODES && 0 <= n <= TABLE_SECTORS
    && (forall i :: 0 <= i < INODES ==> IsInode(inodes[i]))
    && forall s {:trigger now[s]} :: 0 <= s < |now| ==>
         now[s] == if start <= s < start + n then TableSector(inodes, s - start) else was[s]
  }

  lemma OneMoreTableSector(was: seq<Sector>, now: seq<Sector>, next: seq<Sector>,
                           inodes: seq<Inode>, start: int, n: int)
    requires TableStored(was, now, inodes, start, n) && n < TABLE_SECTORS && 0 <= start
    requires start + TABLE_SECTORS <= |was|
    requires next == now[start + n := TableSector(inodes, n)]
    ensures TableStored(was, next, inodes, start, n + 1)
  {
  }

  /** The stores of `sync_inode`. */
  lemma SyncComposed(v: Vol, mid: seq<Sector>, now: seq<Sector>)
    requires Formed(v) && 0 <= v.meta.inodeMapStart < |v.disk| == |now| && v.meta.inodeMapStart < v.meta.tableStart
    requires v.meta.tableStart + TABLE_SECTORS == v.meta.dataStart
    requires mid == v.disk[v.meta.inodeMapStart := MapSector(v.marks)]
    requires TableStored(mid, now, v.inodes, v.meta.tableStart, TABLE_SECTORS)
    ensures SyncRel(v, v.(disk := now))
  {
  }

  /** The stores of `sys_format`, one after the other. */
  lemma FormatComposed(was: seq<Sector>, super: seq<Sector>, clear: seq<Sector>, now: seq<Sector>)
    requires AllBytes(was) && 0 < |was| < LBA_LIMIT && Layout(|was|).dataStart + 2 <= |was|
    requires IsMeta(Layout(|was|)) && super == was[0 := SuperSector(Layout(|was|))] && |clear| == |was|
    requires var m := Layout(|was|);
             && 0 < m.mapStart < m.inodeMapStart < m.tableStart < m.dataStart
             && (forall s {:trigger clear[s]} :: 0 <= s < |was| ==>
                   clear[s] == if m.mapStart <= s < m.tableStart then Zeros() else super[s])
             && now == clear[m.tableStart := Put(Zeros(), 0, InodeBytes(RootInode()))]
                            [m.inodeMapStart := Zeros()[0 := 1]]
                            [m.mapStart := Zeros()[0 := 3]][m.dataStart := seq(SECTOR, _ => 0xff)]
                            [m.dataStart + 1 := seq(SECTOR, _ => 0xff)]
    ensures Formatted(was, now)
  {
  }

  /** The disk has room for the tables `init_fs` loads. */
  ghost predicate HoldsTables(disk: seq<Sector>, meta: Meta) {
    && Sectors(disk) && 0 <= meta.inodeMapStart < |disk|
    && 0 <= meta.tableStart && meta.tableStart + TABLE_SECTORS == meta.dataStart <= |disk|
  }

  /** The superblock `init_fs` goes by: the one on the disk, or the one a format makes. */
  function Superblock(contents: seq<Sector>): Meta
    requires |contents| > 0 && |contents[0]| == SECTOR
  {
    if MagicOf(contents[0]) == MAGIC then MetaOf(contents[0]) else Layout(|contents|)
  }

  lemma TablesFit(n: int)
    requires 0 < n && Layout(n).dataStart + 2 <= n
    ensures 0 <= Layout(n).inodeMapStart < n && 0 <= Layout(n).tableStart
    ensures Layout(n).tableStart + TABLE_SECTORS == Layout(n).dataStart <= n
  {
    LayoutOrdered(n);
  }

  class FileSystem {
    const disk: Disk
    const inodeTable: array<Inode>
    const inodeMap: array<int>
    var meta: Meta
    ghost var inodes: seq<Inode>  // the contents of inodeTable
    ghost var marks: seq<int>     // the contents of inodeMap

    ghost function Repr(): set<object> {
      {this, disk, disk.store, inodeTable, inodeMap}
    }

    ghost predicate Valid()
      reads Repr()
    {
      && disk.Valid()
      && inodeTable.Length == |inodes| == INODES && inodeMap.Length == |marks| == MAP_BYTES
      && (forall i {:trigger inodeTable[i]} :: 0 <= i < INODES ==> inodeTable[i] == inodes[i])
      && (forall k {:trigger inodeMap[k]} :: 0 <= k < MAP_BYTES ==> inodeMap[k] == marks[k])
    }

    ghost function State(): Vol
      reads Repr()
    {
      Vol(meta, disk.sectors, inodes, marks)
    }

    // ----- init_fs -----

    /** `init_fs`, on a disk of these sectors: what it holds is loaded, after a format if the
        superblock is not there. */
    constructor (contents: seq<Sector>)
      requires AllBytes(contents) && 0 < |contents| < LBA_LIMIT
      requires if MagicOf(contents[0]) == MAGIC then HoldsTables(contents, MetaOf(contents[0]))
               else Layout(|contents|).dataStart + 2 <= |contents|
      ensures Valid() && fresh(Repr())
      ensures |disk.sectors| == |contents| && HoldsTables(disk.sectors, Superblock(contents))
      ensures if MagicOf(contents[0]) == MAGIC then disk.sectors == contents else Formatted(contents, disk.sectors)
      ensures State() == Loaded(disk.sectors, Superblock(contents))
    {
      var d := new Disk(contents);
      disk := d;
      inodeTable := new Inode[INODES](_ => Inode(0, 0, 0, seq(DIRECT, _ => 0)));
      inodeMap := new int[MAP_BYTES](_ => 0);
      inodes := seq(INODES, _ => Inode(0, 0, 0, seq(DIRECT, _ => 0)));
      marks := seq(MAP_BYTES, _ => 0);
      meta := Meta(0, 0, 0, 0, 0);
      new;
      disk.ReadSector(0);
      meta := MetaOf(disk.buffer);
      if MagicOf(disk.buffer) != MAGIC {
        TablesFit(|contents|);
        Format();
        FormattedSectors(contents, disk.sectors);
      }
      LoadTables();
    }

    /** `sys_format`; the size of the disk is what `get_sectors` reports. */
    method Format()
      requires Valid() && AllBytes(disk.sectors) && 0 < |disk.sectors| < LBA_LIMIT
      requires Layout(|disk.sectors|).dataStart + 2 <= |disk.sectors|
      modifies `meta, disk`sectors, disk`buffer, disk.store
      ensures Valid() && meta == Layout(|disk.sectors|) && Formatted(old(disk.sectors), disk.sectors)
    {
      ghost var was := disk.sectors;
      LayoutOrdered(|was|);
      LayoutIsMeta(|was|);
      meta := Layout(disk.store.Length);
      disk.WriteSector(0, Put(Zeros(), 0, Encoded(MetaWords(meta))));
      ghost var super := disk.sectors;
      ClearMaps();
      ghost var clear := disk.sectors;
      disk.WriteSector(meta.tableStart, Put(Zeros(), 0, InodeBytes(RootInode())));
      disk.WriteSector(meta.inodeMapStart, Zeros()[0 := 1]);
      disk.WriteSector(meta.mapStart, Zeros()[0 := 3]);
      disk.WriteSector(meta.dataStart, seq(SECTOR, _ => 0xff));
      disk.WriteSector(meta.dataStart + 1, seq(SECTOR, _ => 0xff));
      FormatComposed(was, super, clear, disk.sectors);
    }

    method ClearMaps()
      requires Valid() && 0 <= meta.mapStart <= meta.tableStart <= |disk.sectors|
      modifies disk`sectors, disk.store
      ensures Valid() && |disk.sectors| == |old(disk.sectors)|
      ensures forall s {:trigger disk.sectors[s]} :: 0 <= s < |disk.sectors| ==>
                disk.sectors[s] == if meta.mapStart <= s < meta.tableStart then Zeros() else old(disk.sectors)[s]
    {
      for i := meta.mapStart to meta.tableStart
        invariant Valid() && |disk.sectors| == |old(disk.sectors)|
        invariant forall s {:trigger disk.sectors[s]} :: 0 <= s < |disk.sectors| ==>
                    disk.sectors[s] == if meta.mapStart <= s < i then Zeros() else old(disk.sectors)[s]
      {
        disk.WriteSector(i, Zeros());
      }
    }

    /** The tables are read from where the superblock says they are. */
    method LoadTables()
      requires Valid() && HoldsTables(disk.sectors, meta)
      modifies `marks, inodeMap, disk`buffer, `inodes, inodeTable
      ensures Valid() && State() == Loaded(disk.sectors, meta)
    {
      LoadMap();
      LoadTable();
    }

    method LoadMap()
      requires Valid() && HoldsTables(disk.sectors, meta)
      modifies `marks, inodeMap, disk`buffer
      ensures Valid() && marks == disk.sectors[meta.inodeMapStart][..MAP_BYTES]
    {
      disk.ReadSector(meta.inodeMapStart);
      for k := 0 to MAP_BYTES
        invariant Valid() && disk.buffer == disk.sectors[meta.inodeMapStart]
        invariant forall j :: 0 <= j < k ==> marks[j] == disk.buffer[j]
      {
        inodeMap[k] := disk.buffer[k];
        marks := marks[k := disk.buffer[k]];
      }
    }

    method LoadTable()
      requires Valid() && HoldsTables(disk.sectors, meta)
      modifies `inodes, inodeTable
      ensures Valid() && inodes == Loaded(disk.sectors, meta).inodes
    {
      for block := meta.tableStart to meta.dataStart
        invariant Valid()
        invariant forall j {:trigger inodes[j]} :: 0 <= j < PER_SECTOR * (block - meta.tableStart) ==>
                    inodes[j] == LoadedInode(disk.sectors, meta, j)
      {
        var i := PER_SECTOR * (block - meta.tableStart);
        for r := 0 to PER_SECTOR
          invariant Valid()
          invariant forall j {:trigger inodes[j]} :: 0 <= j < i + r ==> inodes[j] == LoadedInode(disk.sectors, meta, j)
        {
          assert (i + r) / PER_SECTOR == block - meta.tableStart && (i + r) % PER_SECTOR == r;
          inodeTable[i + r] := InodeFrom(disk.store[block], INODE_BYTES * r);
          inodes := inodes[i + r := InodeFrom(disk.sectors[block], INODE_BYTES * r)];
        }
      }
    }

    method SetInode(i: int, ino: Inode)
      requires Valid() && 0 <= i < INODES
      modifies `inodes, inodeTable
      ensures Valid() && State() == old(State()).(inodes := old(inodes)[i := ino])
    {
      inodeTable[i] := ino;
      inodes := inodes[i := ino];
    }

    // ----- sync_inode -----

    method SyncMap()
      requires Valid() && 0 <= meta.inodeMapStart < |disk.sectors|
      modifies disk`sectors, disk`buffer, disk.store
      ensures Valid() && disk.sectors == old(disk.sectors)[meta.inodeMapStart := MapSector(marks)]
    {
      disk.buffer := Zeros();
      disk.buffer := Put(disk.buffer, 0, inodeMap[..]);
      assert inodeMap[..] == marks;
      assert disk.buffer == MapSector(marks);
      disk.WriteSector(meta.inodeMapStart, disk.buffer);
    }

    /** One turn of the loop of `sync_inode`, for sector `n` of the table. */
    method SyncSector(table: seq<Inode>, n: int, ghost was: seq<Sector>)
      requires disk.Valid() && 0 <= n < TABLE_SECTORS && 0 <= meta.tableStart
      requires TableStored(was, disk.sectors, table, meta.tableStart, n) && meta.tableStart + TABLE_SECTORS <= |was|
      modifies disk`sectors, disk.store
      ensures disk.Valid() && TableStored(was, disk.sectors, table, meta.tableStart, n + 1)
    {
      ghost var now := disk.sectors;
      disk.WriteSector(meta.tableStart + n, TableSector(table, n));
      OneMoreTableSector(was, now, disk.sectors, table, meta.tableStart, n);
    }

    method SyncTable()
      requires Valid() && 0 <= meta.tableStart && meta.tableStart + TABLE_SECTORS == meta.dataStart <= |disk.sectors|
      requires forall i :: 0 <= i < INODES ==> IsInode(inodes[i])
      modifies disk`sectors, disk.store
      ensures Valid() && TableStored(old(disk.sectors), disk.sectors, inodes, meta.tableStart, TABLE_SECTORS)
    {
      var table := inodeTable[..];
      assert table == inodes;
      ghost var was := disk.sectors;
      for block := meta.tableStart to meta.dataStart
        invariant disk.Valid()
        invariant TableStored(was, disk.sectors, table, meta.tableStart, block - meta.tableStart)
      {
        SyncSector(table, block - meta.tableStart, was);
      }
    }

    /** `sync_inode`. */
    method SyncInode()
      requires Valid() && Formed(State())
      modifies disk`sectors, disk`buffer, disk.store
      ensures Valid() && SyncRel(old(State()), State())
    {
      ghost var v := State();
      LayoutOrdered(|disk.sectors|);
      SyncMap();
      ghost var mid := disk.sectors;
      SyncTable();
      SyncComposed(v, mid, disk.sectors);
    }

    // ----- sys_do_write -----

    /** The growth loop of `sys_do_write`: false if an inode cannot have that many blocks. */
    method GrowFile(i: int, last: nat) returns (ok: bool)
      requires Valid() && Formed(State()) && 0 <= i < INODES && inodes[i].count <= DIRECT
      modifies `inodes, inodeTable, disk`sectors, disk`buffer, disk.store
      ensures Valid() && State() == Grow(old(State()), i, last)
      ensures ok <==> last < DIRECT
    {
      while last >= inodeTable[i].count
        invariant Valid() && Formed(State()) && inodes[i].count <= DIRECT
        invariant Grow(State(), i, last) == Grow(old(State()), i, last)
        decreases DIRECT - inodes[i].count
      {
        if inodeTable[i].count >= DIRECT { return false; }
        ghost var u := State();
        var r := AllocSector(disk, meta.mapStart, meta.inodeMapStart);
        AllocatedIsNext(u, disk.sectors, r);
        SetInode(i, Append(inodeTable[i], if r == -1 then NO_SECTOR else r));
      }
      return true;
    }

    /** `sys_do_write`, for the inode and the position of the descriptor, whether or not the disk
        has the sectors it needs. */
    method WriteFile(i: int, w: Span) returns (r: int)
      requires Valid() && InFile(State(), i, w)
      modifies `inodes, inodeTable, disk`sectors, disk`buffer, disk.store
      ensures Valid() && WriteEnds(old(State()), i, w, State())
      ensures r == if w.Last() < DIRECT then |w.bytes| else -1
    {
      ghost var v := State();
      var ok := GrowFile(i, w.Last());
      if !ok { return -1; }
      GrowCounts(v, i, w.Last());
      StoreFile(i, w);
      StoresFormed(v, i, w);
      SyncInode();
      return |w.bytes|;
    }

    /** The block stores and the new size. */
    method StoreFile(i: int, w: Span)
      requires Valid() && Formed(State()) && 0 <= i < INODES && w.Last() < DIRECT
      modifies `inodes, inodeTable, disk`sectors, disk`buffer, disk.store
      ensures Valid() && State() == StoredFile(old(State()), i, w)
    {
      LayoutOrdered(|disk.sectors|);
      assert IsInode(inodes[i]);
      disk.WriteBlocks(meta.dataStart, inodeTable[i], w);
      SetInode(i, Sized(inodeTable[i], w));
    }

    // ----- sys_do_read -----

    /** `sys_do_read`: the bytes from `pos` on, as many as were asked for and the file has. */
    method ReadFile(i: int, pos: nat, size: nat) returns (n: int, dest: seq<int>)
      requires Valid() && Inv(State()) && Live(State(), i) && i != 0 && pos <= inodes[i].size
      modifies disk`buffer
      ensures Valid() && State() == old(State())
      ensures n == Min(size, inodes[i].size - pos) && dest == FileBytes(State(), i)[pos..pos + n]
    {
      ghost var v := State();
      LiveOnDisk(v, i);
      FirstBlockOnDisk(v, i, pos);
      n := Min(size, inodeTable[i].size - pos);
      dest := disk.ReadBlocks(meta.dataStart, inodeTable[i], pos, n);
      SliceOfFile(v, i, pos, dest);
    }

    // ----- find_file -----

    /** Is entry `k` of the sector in the buffer in use, with the name? */
    method EntryMatches(k: int, m: seq<int>) returns (hit: bool)
      requires Valid() && 0 <= k < IN_SECTOR && Terminated(m)
      requires Used(EntryOf(disk.buffer, k)) ==> IsEntry(EntryOf(disk.buffer, k))
      ensures hit <==> Used(EntryOf(disk.buffer, k)) && NameOf(EntryOf(disk.buffer, k)) == Text(m)
    {
      EntryFields(disk.buffer, k);
      if WordAt(disk.buffer, ENTRY_BYTES * k) == FREE { return false; }
      var filename := EntryName(disk.buffer, ENTRY_BYTES * k);
      var c := Strcmp(filename[..], m);
      hit := c == 0;
    }

    /** The inner loop of `find_file`: the inode of the first entry in a sector with the name. */
    method FindInSector(block: int, m: seq<int>) returns (found: bool, idx: int)
      requires Valid() && Readable(State()) && Terminated(m) && 0 <= block < 2
      modifies disk`buffer
      ensures Valid() && State() == old(State())
      ensures if found then LookupFrom(State(), Text(m), IN_SECTOR * block) == idx
              else LookupFrom(State(), Text(m), IN_SECTOR * block) ==
                   LookupFrom(State(), Text(m), IN_SECTOR * (block + 1))
    {
      ghost var v := State();
      disk.ReadSector(meta.dataStart + block);
      for i := 0 to IN_SECTOR
        invariant Valid() && State() == v && disk.buffer == v.disk[v.meta.dataStart + block]
        invariant LookupFrom(v, Text(m), IN_SECTOR * block) == LookupFrom(v, Text(m), IN_SECTOR * block + i)
      {
        EntryInSector(v, block, i);
        var hit := EntryMatches(i, m);
        if hit { return true, WordAt(disk.buffer, ENTRY_BYTES * i); }
      }
      return false, NONE;
    }

    /** `find_file`, of whose result the callers use the inode index. */
    method FindFile(m: seq<int>) returns (idx: int)
      requires Valid() && Inv(State()) && Terminated(m)
      modifies disk`buffer
      ensures Valid() && State() == old(State()) && idx == Lookup(State(), Text(m))
    {
      InvReadable(State());
      for block := 0 to inodeTable[0].count
        invariant Valid() && State() == old(State())
        invariant LookupFrom(State(), Text(m), 0) == LookupFrom(State(), Text(m), IN_SECTOR * block)
      {
        var found;
        found, idx := FindInSector(block, m);
        if found { return; }
      }
      return NONE;
    }

    /** One record of `sys_listdir`, for the entry in use at `n`. */
    method ListEntry(ghost v: Vol, ghost n: int, i: int) returns (r: Record)
      requires Valid() && State() == v && HasDirectory(v) && 0 <= n < ENTRIES && 0 <= i < IN_SECTOR
      requires EntryOf(disk.buffer, i) == EntryAt(v, n) && IsEntry(EntryAt(v, n)) && 0 <= Idx(EntryAt(v, n)) < INODES
      ensures Valid() && State() == v && r == RecordOf(v, n)
    {
      EntryFields(disk.buffer, i);
      var filename := EntryName(disk.buffer, ENTRY_BYTES * i);
      var ino := inodeTable[WordAt(disk.buffer, ENTRY_BYTES * i)];
      r := Record(Text(filename[..]), ino.size, ino.count * SECTOR);
    }

    /** One turn of its inner loop. */
    method ListOne(ghost v: Vol, block: int, i: int, dest: seq<Record>) returns (dest': seq<Record>)
      requires Valid() && State() == v && Readable(v) && InRange(v) && 0 <= block < 2 && 0 <= i < IN_SECTOR
      requires disk.buffer == v.disk[v.meta.dataStart + block] && Listed(v, block, i, dest)
      ensures Valid() && State() == v && Listed(v, block, i + 1, dest')
    {
      EntryInSector(v, block, i);
      EntryFields(disk.buffer, i);
      dest' := dest;
      if WordAt(disk.buffer, ENTRY_BYTES * i) != FREE {
        var r := ListEntry(v, IN_SECTOR * block + i, i);
        dest' := dest + [r];
      }
    }

    method ListSector(block: int, dest: seq<Record>) returns (dest': seq<Record>)
      requires Valid() && Readable(State()) && InRange(State()) && 0 <= block < 2
      requires Listed(State(), block, 0, dest)
      modifies disk`buffer
      ensures Valid() && State() == old(State()) && Listed(State(), block, IN_SECTOR, dest')
    {
      ghost var v := State();
      disk.ReadSector(meta.dataStart + block);
      dest' := dest;
      for i := 0 to IN_SECTOR
        invariant Valid() && State() == v && disk.buffer == v.disk[v.meta.dataStart + block]
        invariant Listed(v, block, i, dest')
      {
        dest' := ListOne(v, block, i, dest');
      }
    }

    /** `sys_listdir`. */
    method ListDir() returns (dest: seq<Record>)
      requires Valid() && Inv(State())
      modifies disk`buffer
      ensures Valid() && State() == old(State()) && dest == Listing(State(), ENTRIES)
    {
      InvReadable(State());
      InvInRange(State());
      dest := [];
      NoneListed(State());
      for block := 0 to inodeTable[0].count
        invariant Valid() && State() == old(State()) && Listed(State(), block, 0, dest)
      {
        dest := ListSector(block, dest);
        NextSector(State(), block, dest);
      }
      AllListed(State(), 2, dest);
    }

    /** `sys_do_getsize`. */
    method GetSize(m: seq<int>) returns (size: int)
      requires Valid() && Inv(State()) && Terminated(m)
      modifies disk`buffer
      ensures Valid() && State() == old(State())
      ensures var i := Lookup(State(), Text(m));
              if i == NONE then size == -1 else Live(State(), i) && i != 0 && size == |FileBytes(State(), i)|
    {
      var i := FindFile(m);
      if i == NONE { return -1; }
      LookupIsMap(State(), Text(m), i);
      return inodeTable[i].size;
    }

    // ----- create_file -----

    /** `set_bit(inode_map, j, 1)`. */
    method MarkInode(j: int)
      requires Valid() && Bytes(marks) && 0 <= j < INODES
      modifies `marks, inodeMap
      ensures Valid() && marks == BitSet(old(marks), j, 1)
    {
      inodeMap[j / 8] := WithBit(inodeMap[j / 8], j % 8, 1);
      marks := marks[j / 8 := inodeMap[j / 8]];
    }

    /** The stores of `create_file` before it syncs. */
    method PutInode(block: int, i: int, j: int)
      requires Valid() && Bytes(marks) && 0 <= i < IN_SECTOR && 0 <= j < INODES
      requires 0 <= meta.dataStart + block < |disk.sectors|
      modifies `marks, inodeMap, `inodes, inodeTable, disk`sectors, disk`buffer, disk.store
      ensures Valid() && meta == old(meta)
      ensures marks == BitSet(old(marks), j, 1) && inodes == old(inodes)[j := FreshFile()]
      ensures disk.sectors ==
              old(disk.sectors)[meta.dataStart + block := Put(old(disk.buffer), ENTRY_BYTES * i, Bytes4(j))]
    {
      MarkInode(j);
      SetInode(j, FreshFile());
      disk.buffer := Put(disk.buffer, ENTRY_BYTES * i, Bytes4(j));
      disk.WriteSector(meta.dataStart + block, disk.buffer);
    }

    /** The first free inode is taken and entered in entry `i` of the sector in the buffer. */
    method EnterInode(block: int, i: int, j: int, ghost m: seq<int>, ghost v: Vol)
      requires Valid() && State() == v && Sound(v) && HasDirectory(v) && ValidName(Text(m))
      requires 0 <= block < 2 && 0 <= i < IN_SECTOR && 0 <= j < INODES
      requires NamedBuffer(v, block, i, Text(m), disk.buffer) && FirstFreeInode(v, j)
      modifies `marks, inodeMap, `inodes, inodeTable, disk`sectors, disk`buffer, disk.store
      ensures Valid() && CreateOk(v, Text(m), j, State())
    {
      PutInode(block, i, j);
      ghost var x := State();
      CreatedBy(v, block, i, Text(m), j, old(disk.buffer), x);
      SyncInode();
    }

    /** The scan of the inode map. */
    method FreeInode() returns (j: int)
      requires Valid()
      ensures if j == INODES then Full(State()) else FirstFreeInode(State(), j)
    {
      for k := 0 to INODES
        invariant forall i :: 0 <= i < k ==> Live(State(), i)
      {
        if !BitOf(inodeMap[k / 8], k % 8) { return k; }
      }
      return INODES;
    }

    /** `split_name`, on an entry of the sector in the buffer. */
    method NameEntry(block: int, i: int, m: seq<int>, ghost v: Vol)
      requires Valid() && State() == v && Readable(v) && 0 <= block < 2 && 0 <= i < IN_SECTOR
      requires Terminated(m) && ValidName(Text(m))
      requires disk.buffer == v.disk[v.meta.dataStart + block] && !Used(EntryAt(v, IN_SECTOR * block + i))
      requires Full(v) || forall k :: 0 <= k < IN_SECTOR * block + i ==> Used(EntryAt(v, k))
      modifies disk`buffer
      ensures Valid() && State() == v && NamedBuffer(v, block, i, Text(m), disk.buffer)
    {
      EntryInSector(v, block, i);
      SplitName(disk, ENTRY_BYTES * i, m);
    }

    /** A free entry has been found: it is given the name, and an inode if there is one. */
    method TakeEntry(block: int, i: int, m: seq<int>) returns (r: int)
      requires Valid() && Sound(State()) && Readable(State()) && 0 <= block < 2 && 0 <= i < IN_SECTOR
      requires Terminated(m) && ValidName(Text(m))
      requires disk.buffer == disk.sectors[meta.dataStart + block] && !Used(EntryAt(State(), IN_SECTOR * block + i))
      requires Full(State()) || forall k :: 0 <= k < IN_SECTOR * block + i ==> Used(EntryAt(State(), k))
      modifies `marks, inodeMap, `inodes, inodeTable, disk`sectors, disk`buffer, disk.store
      ensures Valid()
      ensures if r == -1 then State() == old(State()) && Full(State())
              else 0 <= r < INODES && CreateOk(old(State()), Text(m), r, State())
    {
      ghost var v := State();
      NameEntry(block, i, m, v);
      var j := FreeInode();
      if j < INODES {
        EnterInode(block, i, j, m, v);
        return j;
      }
      return -1;
    }

    /** `create_file`. */
    method CreateFile(m: seq<int>) returns (r: int)
      requires Valid() && Inv(State()) && Terminated(m) && ValidName(Text(m))
      modifies `marks, inodeMap, `inodes, inodeTable, disk`sectors, disk`buffer, disk.store
      ensures Valid()
      ensures if r == -1 then CreateFails(old(State()), State())
              else 0 <= r < INODES && CreateOk(old(State()), Text(m), r, State())
    {
      ghost var v := State();
      InvReadable(v);
      for block := 0 to inodeTable[0].count
        invariant Valid() && State() == v
        invariant Full(v) || forall k :: 0 <= k < IN_SECTOR * block ==> Used(EntryAt(v, k))
      {
        disk.ReadSector(meta.dataStart + block);
        for i := 0 to IN_SECTOR
          invariant Valid() && State() == v && disk.buffer == v.disk[v.meta.dataStart + block]
          invariant Full(v) || forall k :: 0 <= k < IN_SECTOR * block + i ==> Used(EntryAt(v, k))
        {
          EntryInSector(v, block, i);
          EntryFields(disk.buffer, i);
          if WordAt(disk.buffer, ENTRY_BYTES * i) == FREE {
            r := TakeEntry(block, i, m);
            if r != -1 { return; }
            break;
          }
        }
      }
      return -1;
    }
  }

  // ----- reading -----

  /** The first block a read looks at is on the disk, even for an empty file. */
  lemma FirstBlockOnDisk(v: Vol, i: int, pos: nat)
    requires Sound(v) && Live(v, i) && i != 0 && pos <= v.inodes[i].size
    ensures |v.inodes[i].ptrs| == DIRECT && pos / SECTOR < DIRECT
    ensures 0 <= Addr(v.meta.dataStart, v.inodes[i].ptrs, pos / SECTOR) < |v.disk|
  {
    LayoutOrdered(|v.disk|);
    assert IsInode(v.inodes[i]);
    if v.inodes[i].count > 0 {
      assert pos / SECTOR < v.inodes[i].count;
      assert HasBlock(v, i, pos / SECTOR) && 0 <= Ptr(v, i, pos / SECTOR);
    }
  }

  lemma SliceOfFile(v: Vol, i: int, pos: nat, s: seq<int>)
    requires Sound(v) && Live(v, i) && i != 0 && pos + |s| <= v.inodes[i].size
    requires Sectors(v.disk) && OnDisk(v.disk, v.meta.dataStart, v.inodes[i])
    requires Slice(v.disk, v.meta.dataStart, v.inodes[i], pos, s)
    ensures s == FileBytes(v, i)[pos..pos + |s|]
  {
  }

  // ----- joining names -----

  lemma FieldsOfBuffer(b: Sector, at: nat)
    requires at + ENTRY_BYTES <= |b| && IsEntry(b[at..at + ENTRY_BYTES])
    ensures var e := b[at..at + ENTRY_BYTES];
            && Terminated(b[at + BASE..]) && Text(b[at + BASE..]) == Text(e[BASE..EXT])
            && Terminated(b[at + EXT..]) && Text(b[at + EXT..]) == Text(e[EXT..]) && b[at + EXT] == e[EXT]
            && |Text(e[BASE..EXT])| <= 7 && |Text(e[EXT..])| <= 3
  {
    var e := b[at..at + ENTRY_BYTES];
    SliceOfSlice(b, at, ENTRY_BYTES, BASE, EXT);
    SliceOfSlice(b, at, ENTRY_BYTES, EXT, ENTRY_BYTES);
    assert e[EXT..] == e[EXT..ENTRY_BYTES];
    TextOfField(b, at + BASE, at + EXT);
    TextOfField(b, at + EXT, at + ENTRY_BYTES);
  }

  /** A buffer in which a string has just been stored at the start. */
  lemma StringStarts(m: seq<int>, t: seq<int>)
    requires NoZero(t) && |t| < |m| && m[..|t|] == t && m[|t|] == 0
    ensures Terminated(m) && Text(m) == t
  {
    TextOf(m, t);
  }

  /** `strcat` onto a buffer that holds one string. */
  method AppendText(dest: array<int>, src: seq<int>)
    requires Terminated(dest[..]) && Terminated(src) && |Text(dest[..])| + |Text(src)| + 1 <= dest.Length
    modifies dest
    ensures Terminated(dest[..]) && Text(dest[..]) == old(Text(dest[..])) + Text(src)
  {
    ghost var m := dest[..];
    assert dest[0..] == m && m[0..] == m;
    TextAppended(m, 0, Text(src));
    Strcat(dest, 0, src);
    assert dest[..][0..] == dest[..];
    assert dest[|Text(m)| + |Text(src)|] == 0;
  }

  /** `strcpy` to the start of a buffer. */
  method CopyText(dest: array<int>, src: seq<int>)
    requires Terminated(src) && |Text(src)| + 1 <= dest.Length
    modifies dest
    ensures Terminated(dest[..]) && Text(dest[..]) == Text(src)
  {
    Strcpy(dest, 0, src);
    StringStarts(dest[..], Text(src));
  }

  /** The string of a dot. */
  lemma DotText()
    ensures Terminated([DOT, 0]) && Text([DOT, 0]) == [DOT]
  {
    assert [DOT, 0][1] == 0;
    TextOf([DOT, 0], [DOT]);
  }

  /** The full name of an entry, from its base and its extension. */
  method JoinName(filename: array<int>, base: seq<int>, ext: seq<int>)
    requires Terminated(base) && Terminated(ext) && |Text(base)| <= 7 && |Text(ext)| <= 3
    requires filename.Length == ENTRY_BYTES
    modifies filename
    ensures Terminated(filename[..])
    ensures Text(filename[..]) == Text(base) + if ext[0] != 0 then [DOT] + Text(ext) else []
  {
    CopyText(filename, base);
    if ext[0] != 0 {
      DotText();
      AppendText(filename, [DOT, 0]);
      assert Text(base) + ([DOT] + Text(ext)) == (Text(base) + [DOT]) + Text(ext);
      AppendText(filename, ext);
    }
  }

  /** ... and of the entry at `at` of a sector. */
  method EntryName(b: Sector, at: nat) returns (filename: array<int>)
    requires at + ENTRY_BYTES <= |b| && IsEntry(b[at..at + ENTRY_BYTES])
    ensures fresh(filename) && Terminated(filename[..]) && Text(filename[..]) == NameOf(b[at..at + ENTRY_BYTES])
  {
    FieldsOfBuffer(b, at);
    filename := new int[ENTRY_BYTES];
    JoinName(filename, b[at + BASE..], b[at + EXT..]);
  }

  // ----- the directory in the buffer -----

  /** The entries in use hold strings. */
  ghost predicate Readable(v: Vol) {
    HasDirectory(v) && forall n :: 0 <= n < ENTRIES ==> StringsEnd(v, n)
  }

  ghost predicate StringsEnd(v: Vol, n: int)
    requires HasDirectory(v) && 0 <= n < ENTRIES
  {
    Used(EntryAt(v, n)) ==> IsEntry(EntryAt(v, n))
  }

  lemma InvReadable(v: Vol)
    requires Inv(v)
    ensures Readable(v)
  {
    forall n | 0 <= n < ENTRIES ensures StringsEnd(v, n) {
      assert GoodEntry(v, n);
    }
  }

  /** The entries in use name inodes of the table. */
  ghost predicate InRange(v: Vol) {
    HasDirectory(v) && forall n {:trigger EntryAt(v, n)} :: 0 <= n < ENTRIES && Used(EntryAt(v, n)) ==>
      0 <= Idx(EntryAt(v, n)) < INODES
  }

  lemma InvInRange(v: Vol)
    requires Inv(v)
    ensures InRange(v)
  {
    forall n | 0 <= n < ENTRIES && Used(EntryAt(v, n)) ensures 0 <= Idx(EntryAt(v, n)) < INODES {
      assert GoodEntry(v, n);
    }
  }

  lemma EntryInSector(v: Vol, block: int, i: int)
    requires Readable(v) && 0 <= block < 2 && 0 <= i < IN_SECTOR
    ensures 0 <= v.meta.dataStart + block < |v.disk| && |v.disk[v.meta.dataStart + block]| == SECTOR
    ensures EntryAt(v, IN_SECTOR * block + i) == EntryOf(v.disk[v.meta.dataStart + block], i)
    ensures Used(EntryAt(v, IN_SECTOR * block + i)) ==> IsEntry(EntryAt(v, IN_SECTOR * block + i))
  {
    var n := IN_SECTOR * block + i;
    assert n / IN_SECTOR == block && n % IN_SECTOR == i;
    assert StringsEnd(v, n);
  }

  lemma EntryPut(s: Sector, i: int, e: Entry, name: seq<int>, j: int)
    requires |s| == SECTOR && 0 <= i < IN_SECTOR && |e| == ENTRY_BYTES && ValidName(name) && IsWord(j)
    ensures Put(Put(s, ENTRY_BYTES * i, SplitInto(e, name)), ENTRY_BYTES * i, Bytes4(j)) ==
            Put(s, ENTRY_BYTES * i, NewEntry(e, name, j))
  {
  }

  ghost predicate FirstFreeInode(v: Vol, j: int) {
    0 <= j < INODES && !Live(v, j) && forall k :: 0 <= k < j ==> Live(v, k)
  }

  /** The entries before entry `i` of a sector of the directory have been listed. */
  ghost predicate Listed(v: Vol, block: int, i: int, dest: seq<Record>) {
    HasDirectory(v) && 0 <= IN_SECTOR * block + i <= ENTRIES && dest == Listing(v, IN_SECTOR * block + i)
  }

  lemma NoneListed(v: Vol)
    requires HasDirectory(v)
    ensures Listed(v, 0, 0, [])
  {
  }

  lemma NextSector(v: Vol, block: int, dest: seq<Record>)
    requires Listed(v, block, IN_SECTOR, dest)
    ensures Listed(v, block + 1, 0, dest)
  {
    assert IN_SECTOR * block + IN_SECTOR == IN_SECTOR * (block + 1) + 0;
  }

  lemma AllListed(v: Vol, blocks: int, dest: seq<Record>)
    requires blocks == 2 && Listed(v, blocks, 0, dest)
    ensures dest == Listing(v, ENTRIES)
  {
    assert IN_SECTOR * blocks + 0 == ENTRIES;
  }

  /** The buffer holds the sector of the first free entry, with the name split into it. */
  ghost predicate NamedBuffer(v: Vol, block: int, i: int, name: seq<int>, b: Sector) {
    && HasDirectory(v) && 0 <= block < 2 && 0 <= i < IN_SECTOR && ValidName(name)
    && var n := IN_SECTOR * block + i;
    && !Used(EntryAt(v, n)) && (Full(v) || forall k :: 0 <= k < n ==> Used(EntryAt(v, k)))
    && b == Put(v.disk[v.meta.dataStart + block], ENTRY_BYTES * i, SplitInto(EntryAt(v, n), name))
  }

  /** The stores of `create_file` are a create. */
  lemma CreatedBy(v: Vol, block: int, i: int, name: seq<int>, j: int, b: Sector, x: Vol)
    requires Sound(v) && NamedBuffer(v, block, i, name, b) && FirstFreeInode(v, j)
    requires x == Vol(v.meta, v.disk[v.meta.dataStart + block := Put(b, ENTRY_BYTES * i, Bytes4(j))],
                      v.inodes[j := FreshFile()], BitSet(v.marks, j, 1))
    ensures Created(v, name, IN_SECTOR * block + i, j, x) && Formed(x)
  {
    StoredEntry(v, block, i, name, j, b);
    CreatedFormed(v, name, IN_SECTOR * block + i, j, x);
  }

  lemma StoredEntry(v: Vol, block: int, i: int, name: seq<int>, j: int, b: Sector)
    requires HasDirectory(v) && 0 <= block < 2 && 0 <= i < IN_SECTOR && ValidName(name) && 0 <= j < INODES
    requires b == Put(v.disk[v.meta.dataStart + block], ENTRY_BYTES * i,
                      SplitInto(EntryAt(v, IN_SECTOR * block + i), name))
    ensures var n := IN_SECTOR * block + i;
            v.disk[v.meta.dataStart + block := Put(b, ENTRY_BYTES * i, Bytes4(j))] ==
            WithEntry(v, n, NewEntry(EntryAt(v, n), name, j))
  {
    var e := EntryAt(v, IN_SECTOR * block + i);
    EntryPut(v.disk[v.meta.dataStart + block], i, e, name, j);
    WithEntryAt(v, block, i, NewEntry(e, name, j));
  }

  lemma WithEntryAt(v: Vol, block: int, i: int, e: Entry)
    requires HasDirectory(v) && 0 <= block < 2 && 0 <= i < IN_SECTOR && |e| == ENTRY_BYTES
    ensures WithEntry(v, IN_SECTOR * block + i, e) ==
            v.disk[v.meta.dataStart + block := Put(v.disk[v.meta.dataStart + block], ENTRY_BYTES * i, e)]
  {
    var n := IN_SECTOR * block + i;
    assert n / IN_SECTOR == block && n % IN_SECTOR == i;
  }
}
