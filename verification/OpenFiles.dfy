/**
 File descriptors of fs/fs.c: the table of open files, shared by the processes' fds.
 */
module OpenFiles {
  import opened Words
  import opened CStrings
  import opened FileBlocks
  import opened Volume
  import opened Ownership
  import opened Growth
  import opened FileNames
  import opened FileWrites
  import opened Directory
  import opened FileCreation
  import opened FileSystem

  const DESCS := 64
  const FDS := 4
  const NULL := -1

  /** An entry of `file_desc_table`; the inode pointer is an index, or NULL. */
  datatype Desc = Desc(inode: int, pos: int, refs: int)

  /** Every open file is an allocated one, and its cursor lies within it. */
  ghost predicate CursorOk(v: Vol, d: Desc) {
    d.inode != NULL ==> Live(v, d.inode) && d.inode != 0 && 0 <= d.pos <= v.inodes[d.inode].size
  }

  ghost predicate CursorsOk(v: Vol, ds: seq<Desc>) {
    |ds| == DESCS && forall k :: 0 <= k < DESCS ==> CursorOk(v, ds[k])
  }

  /** A state in which the files are the same, or have grown. */
  ghost predicate NoFileShrinks(v: Vol, y: Vol) {
    forall i {:trigger Live(v, i)} :: Live(v, i) ==> Live(y, i) && y.inodes[i].size >= v.inodes[i].size
  }

  lemma CursorsStay(v: Vol, y: Vol, ds: seq<Desc>)
    requires CursorsOk(v, ds) && NoFileShrinks(v, y)
    ensures CursorsOk(y, ds)
  {
    forall k | 0 <= k < DESCS ensures CursorOk(y, ds[k]) {
      assert CursorOk(v, ds[k]);
    }
  }

  /** The cursor lies within the file, and every block a read from it looks at, of however many
      bytes, is a sector of the disk; all of them belong to the file unless that is empty. */
  lemma CursorInBlocks(v: Vol, ds: seq<Desc>, k: int, size: nat, b: int)
    requires Sound(v) && CursorsOk(v, ds) && 0 <= k < DESCS && ds[k].inode != NULL
    requires var d := ds[k];
             Live(v, d.inode) && d.inode != 0 && 0 <= d.pos <= v.inodes[d.inode].size ==>
               d.pos / SECTOR <= b <= (d.pos + Min(size, v.inodes[d.inode].size - d.pos)) / SECTOR
    ensures var i := ds[k].inode; Live(v, i) && i != 0 && 0 <= ds[k].pos <= v.inodes[i].size
    ensures var ino := v.inodes[ds[k].inode];
            && 0 <= b < |ino.ptrs| && 0 <= Addr(v.meta.dataStart, ino.ptrs, b) < |v.disk|
            && (ino.size > 0 ==> HasBlock(v, ds[k].inode, b)) && (ino.size == 0 ==> b == 0)
  {
    assert CursorOk(v, ds[k]);
    var ino := v.inodes[ds[k].inode];
    LiveOnDisk(v, ds[k].inode);
    FirstBlockOnDisk(v, ds[k].inode, ds[k].pos);
  }

  /** Every block a write at the cursor stores is one the file has by then. */
  lemma WriteInBlocks(v: Vol, ds: seq<Desc>, k: int, data: seq<int>, y: Vol, b: int)
    requires CursorsOk(v, ds) && 0 <= k < DESCS && ds[k].inode != NULL && 0 <= ds[k].pos
    requires var w := Span(ds[k].pos, data);
             && InFile(v, ds[k].inode, w) && WriteEnds(v, ds[k].inode, w, y)
             && w.Last() < DIRECT && w.First() <= b <= w.Last()
    ensures HasBlock(y, ds[k].inode, b)
    ensures Covered(v, ds[k].inode, Span(ds[k].pos, data).Last()) ==>
              0 <= Addr(v.meta.dataStart, y.inodes[ds[k].inode].ptrs, b) < |v.disk|
  {
    var i, w := ds[k].inode, Span(ds[k].pos, data);
    GrowCounts(v, i, w.Last());
    if Covered(v, i, w.Last()) {
      OrderedExactlyIfCovered(v, i, w, y);
      LiveOnDisk(y, i);
    }
  }

  /** What `sys_do_open` does to the entry it takes. */
  function Opened(d: Desc, inode: int, pos: int): Desc {
    Desc(inode, pos, (d.refs + 1) % WORD_LIMIT)
  }

  /** What `sys_do_close` does to the entry it lets go of. */
  function Closed(d: Desc): Desc {
    var refs := (d.refs - 1) % WORD_LIMIT;
    Desc(if refs == 0 then NULL else d.inode, d.pos, refs)
  }

  /** A descriptor of a process is free, or names an entry. */
  ghost predicate FdsOk(fds: seq<int>) {
    |fds| == FDS && forall f :: 0 <= f < FDS ==> fds[f] == NULL || 0 <= fds[f] < DESCS
  }

  /** The first free descriptor and the first free entry have been joined. */
  ghost predicate Joined(fds: seq<int>, ds: seq<Desc>, inode: int, pos: int, fp: int, fds': seq<int>, ds': seq<Desc>) {
    && 0 <= fp < |fds| && fds[fp] == NULL && (forall f :: 0 <= f < fp ==> fds[f] != NULL)
    && exists k :: 0 <= k < |ds| && FirstFree(ds, k) && fds' == fds[fp := k] &&
            ds' == ds[k := Opened(ds[k], inode, pos)]
  }

  ghost predicate FirstFree(ds: seq<Desc>, k: int) {
    0 <= k < |ds| && ds[k].inode == NULL && forall j :: 0 <= j < k ==> ds[j].inode != NULL
  }

  class FileTable {
    const fs: FileSystem
    const table: array<Desc>  // file_desc_table

    /** The file system may be out of order, but every open file is there. */
    ghost predicate Shaped()
      reads this, table, fs, fs.Repr()
    {
      fs.Valid() && table.Length == DESCS && CursorsOk(fs.State(), table[..])
    }

    ghost predicate Valid()
      reads this, table, fs, fs.Repr()
    {
      Shaped() && Inv(fs.State())
    }

    constructor (fs: FileSystem)
      requires fs.Valid() && Inv(fs.State())
      ensures Valid() && fresh(table) && this.fs == fs
      ensures forall k :: 0 <= k < DESCS ==> table[k] == Desc(NULL, 0, 0)
    {
      this.fs := fs;
      table := new Desc[DESCS](_ => Desc(NULL, 0, 0));
    }

    /** `sys_do_close`. */
    method Close(fds: array<int>, fd: int) returns (r: int)
      requires Valid() && FdsOk(fds[..]) && 0 <= fd < FDS && fds != fs.inodeMap
      modifies table, fds
      ensures Valid() && fs.State() == old(fs.State())
      ensures fds[..] == old(fds[..])[fd := NULL]
      ensures var k := old(fds[fd]);
              if k == NULL then r == -1 && table[..] == old(table[..])
              else && table[..] == old(table[..])[k := Closed(old(table[k]))]
                   && r == if old(table[k]).inode == NULL then -1 else 0
    {
      var k := fds[fd];
      fds[fd] := NULL;
      if k == NULL { return -1; }
      var d := table[k];
      assert CursorOk(fs.State(), table[..][k]);
      table[k] := Closed(d);
      assert table[..] == old(table[..])[k := Closed(d)];
      return if d.inode == NULL then -1 else 0;
    }

    /** `sys_do_write`: the bytes go to the cursor of the descriptor, which does not move.
        Everything stays in order exactly if the disk has the sectors the file needs. */
    method Write(fds: array<int>, fd: int, data: seq<int>) returns (r: int)
      requires Valid() && FdsOk(fds[..]) && 0 <= fd < FDS && CanWrite(fds[fd], data)
      modifies fs`inodes, fs.inodeTable, fs.disk`sectors, fs.disk`buffer, fs.disk.store
      ensures Shaped() && table[..] == old(table[..])
      ensures if fds[fd] == NULL || table[fds[fd]].inode == NULL then r == -1 && fs.State() == old(fs.State())
              else var i, w := table[fds[fd]].inode, Span(table[fds[fd]].pos, data);
                   && WriteEnds(old(fs.State()), i, w, fs.State())
                   && r == (if w.Last() < DIRECT then |data| else -1)
                   && (Valid() <==> Covered(old(fs.State()), i, w.Last()))
    {
      var k := fds[fd];
      if k == NULL { return -1; }
      var d := table[k];
      if d.inode == NULL { return -1; }
      ghost var v := fs.State();
      assert CursorOk(v, table[..][k]);
      var w := Span(d.pos, data);
      r := fs.WriteFile(d.inode, w);
      WriteKeepsCursors(v, d.inode, w, fs.State(), table[..]);
    }

    /** `sys_do_read`: the bytes from the cursor on, as many as were asked for and the file has. */
    method Read(fds: array<int>, fd: int, size: nat) returns (n: int, dest: seq<int>)
      requires Valid() && FdsOk(fds[..]) && 0 <= fd < FDS
      modifies fs.disk`buffer
      ensures Valid() && fs.State() == old(fs.State()) && table[..] == old(table[..])
      ensures if fds[fd] == NULL || table[fds[fd]].inode == NULL then n == -1
              else var d := table[fds[fd]];
                   && Live(fs.State(), d.inode) && d.inode != 0 && 0 <= d.pos <= |FileBytes(fs.State(), d.inode)|
                   && n == Min(size, |FileBytes(fs.State(), d.inode)| - d.pos)
                   && dest == FileBytes(fs.State(), d.inode)[d.pos..d.pos + n]
    {
      dest := [];
      var k := fds[fd];
      if k == NULL { return -1, dest; }
      var d := table[k];
      if d.inode == NULL { return -1, dest; }
      assert CursorOk(fs.State(), table[..][k]);
      n, dest := fs.ReadFile(d.inode, d.pos, size);
    }

    /** The scans of `sys_do_open`; without a free descriptor or a free entry they never end. */
    method FreeSlots(fds: array<int>) returns (fp: int, fdi: int)
      requires Valid() && FdsOk(fds[..]) && NULL in fds[..] && exists k :: FirstFree(table[..], k)
      ensures 0 <= fp < FDS && fds[fp] == NULL && forall f :: 0 <= f < fp ==> fds[f] != NULL
      ensures FirstFree(table[..], fdi)
    {
      fp := 0;
      while fds[fp] != NULL
        invariant 0 <= fp < FDS && NULL in fds[fp..]
        invariant forall f :: 0 <= f < fp ==> fds[f] != NULL
        decreases FDS - fp
      {
        fp := fp + 1;
      }
      ghost var k :| FirstFree(table[..], k);
      fdi := 0;
      while table[fdi].inode != NULL
        invariant 0 <= fdi <= k && forall j :: 0 <= j < fdi ==> table[j].inode != NULL
        decreases k - fdi
      {
        assert table[..][fdi] == table[fdi];
        fdi := fdi + 1;
      }
    }

    method CreateNew(m: seq<int>) returns (i: int)
      requires Valid() && Terminated(m) && ValidName(Text(m)) && Lookup(fs.State(), Text(m)) == NONE
      modifies fs`marks, fs.inodeMap, fs`inodes, fs.inodeTable, fs.disk`sectors, fs.disk`buffer, fs.disk.store
      ensures Shaped() && table[..] == old(table[..])
      ensures Valid() <==> i == NULL || !Clashes(old(fs.State()), Text(m))
      ensures if i == NULL then CreateFails(old(fs.State()), fs.State())
              else CreateOk(old(fs.State()), Text(m), i, fs.State()) && Live(fs.State(), i) && i != 0
    {
      ghost var v := fs.State();
      i := fs.CreateFile(m);
      if i != NULL { CreateKeepsCursors(v, Text(m), i, fs.State(), table[..]); }
    }

    /** The name is looked up, and created if it may be: the inode, or -1. */
    method FindOrCreate(m: seq<int>, create: bool, exist: bool) returns (i: int)
      requires Valid() && Terminated(m) && (create ==> ValidName(Text(m)))
      modifies fs`marks, fs.inodeMap, fs`inodes, fs.inodeTable, fs.disk`sectors, fs.disk`buffer, fs.disk.store
      ensures Shaped() && table[..] == old(table[..])
      ensures Valid() <==> i == NULL || !Clashes(old(fs.State()), Text(m))
      ensures Resolved(old(fs.State()), Text(m), create, exist, i, fs.State())
      ensures i != NULL ==> Live(fs.State(), i) && i != 0
    {
      i := fs.FindFile(m);
      if i != NONE { LookupIsMap(fs.State(), Text(m), i); }
      if !create && i < 0 { return NULL; }
      if !exist && i >= 0 { return NULL; }
      if i < 0 {
        i := CreateNew(m);
      }
    }

    /** `sys_do_open`. Everything stays in order exactly if no file is created, or one whose
        stored name was free. */
    method Open(fds: array<int>, m: seq<int>, create: bool, exist: bool, append: bool) returns (r: int, ghost i: int)
      requires Valid() && FdsOk(fds[..]) && fds != fs.inodeMap && Terminated(m)
      requires NULL in fds[..] && exists k :: FirstFree(table[..], k)
      requires create ==> ValidName(Text(m))
      modifies fs`marks, fs.inodeMap, fs`inodes, fs.inodeTable, fs.disk`sectors, fs.disk`buffer, fs.disk.store
      modifies table, fds
      ensures Shaped() && FdsOk(fds[..])
      ensures Valid() <==> i == NULL || !Clashes(old(fs.State()), Text(m))
      ensures Resolved(old(fs.State()), Text(m), create, exist, i, fs.State())
      ensures if i == NULL then r == -1 && fds[..] == old(fds[..]) && table[..] == old(table[..])
              else && Live(fs.State(), i)
                   && Joined(old(fds[..]), old(table[..]), i, if append then fs.inodes[i].size else 0,
                             r, fds[..], table[..])
    {
      var fp, fdi := FreeSlots(fds);
      var existing := FindOrCreate(m, create, exist);
      i := existing;
      if existing < 0 {
        return -1, existing;
      }
      JoinSlots(fds, fp, fdi, existing, if append then fs.inodeTable[existing].size else 0);
      r := fp;
    }

    method JoinSlots(fds: array<int>, fp: int, fdi: int, i: int, pos: int)
      requires Shaped() && FdsOk(fds[..]) && fds != fs.inodeMap
      requires 0 <= fp < FDS && fds[fp] == NULL && (forall f :: 0 <= f < fp ==> fds[f] != NULL)
      requires FirstFree(table[..], fdi)
      requires Live(fs.State(), i) && i != 0 && 0 <= pos <= fs.inodes[i].size
      modifies table, fds
      ensures Shaped() && FdsOk(fds[..]) && fs.State() == old(fs.State())
      ensures Joined(old(fds[..]), old(table[..]), i, pos, fp, fds[..], table[..])
    {
      ghost var fds0, ds0 := fds[..], table[..];
      fds[fp] := fdi;
      table[fdi] := Opened(table[fdi], i, pos);
      assert fds[..] == fds0[fp := fdi] && table[..] == ds0[fdi := Opened(ds0[fdi], i, pos)];
      forall k | 0 <= k < DESCS ensures CursorOk(fs.State(), table[..][k]) {
        assert CursorOk(fs.State(), ds0[k]);
      }
    }

    /** The bytes of a write lie in the address space. */
    ghost predicate CanWrite(k: int, data: seq<int>)
      reads this, table
    {
      0 <= k < table.Length ==> table[k].pos + |data| < WORD_LIMIT
    }
  }

  /** A name that is not found, though the one it is stored under is. */
  ghost predicate Clashes(v: Vol, name: seq<int>) {
    HasDirectory(v) && Lookup(v, name) == NONE != Lookup(v, StoredName(name))
  }

  /** Whatever comes of a write, cursors stay within their files; and if the sectors are there,
      the names stay too. */
  lemma WriteKeepsCursors(v: Vol, i: int, w: Span, y: Vol, ds: seq<Desc>)
    requires Inv(v) && InFile(v, i, w) && WriteEnds(v, i, w, y) && CursorsOk(v, ds)
    ensures CursorsOk(y, ds)
    ensures Inv(y) <==> Covered(v, i, w.Last())
  {
    GrowCounts(v, i, w.Last());
    forall j | Live(v, j) ensures Live(y, j) && y.inodes[j].size >= v.inodes[j].size {
      if j != i { assert y.inodes[j] == v.inodes[j]; }
    }
    CursorsStay(v, y, ds);
    OrderedExactlyIfCovered(v, i, w, y);
    if Covered(v, i, w.Last()) {
      WriteKeepsNames(v, i, w, y);
    }
  }

  lemma WriteKeepsNames(v: Vol, i: int, w: Span, y: Vol)
    requires Inv(v) && InFile(v, i, w) && WriteEnds(v, i, w, y) && Covered(v, i, w.Last())
    ensures Inv(y) && LeavesOthers(v, y, i) && forall name :: Lookup(y, name) == Lookup(v, name)
  {
    EndsWell(v, i, w, y);
    if w.Last() < DIRECT { WriteIsSafe(v, i, w, y); } else { FailedWriteKeepsBytes(v, i, w, y); }
    SameNames(v, y, i);
  }

  /** What `sys_do_open` makes of a name and its flags: the inode it leads to, one created for
      it, or none. */
  ghost predicate Resolved(v: Vol, name: seq<int>, create: bool, exist: bool, i: int, y: Vol)
    requires HasDirectory(v)
  {
    var found := Lookup(v, name);
    if (!create && found == NONE) || (!exist && found != NONE) then i == NULL && y == v
    else if found != NONE then i == found && y == v
    else if i == NULL then CreateFails(v, y)
    else CreateOk(v, name, i, y)
  }

  lemma CreateKeepsCursors(v: Vol, name: seq<int>, j: int, y: Vol, ds: seq<Desc>)
    requires Inv(v) && CreateOk(v, name, j, y) && CursorsOk(v, ds)
    ensures CursorsOk(y, ds) && Live(y, j) && j != 0
    ensures Inv(y) <==> Lookup(v, StoredName(name)) == NONE
  {
    CreateKeepsFiles(v, name, j, y);
    CreateSafeExactly(v, name, j, y);
    forall i | Live(v, i) ensures Live(y, i) && y.inodes[i].size >= v.inodes[i].size {
      if i == 0 { assert Live(y, 0); }
    }
    CursorsStay(v, y, ds);
  }
}
