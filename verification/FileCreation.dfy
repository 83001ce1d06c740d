/**
 What `create_file` does to the file system: the new name is found, and nothing else changes.
 */
module FileCreation {
  import opened Words
  import opened CStrings
  import opened MapLemmas
  import opened FileBlocks
  import opened SectorMap
  import opened Volume
  import opened Ownership
  import opened FileNames
  import opened FileWrites
  import opened Directory

  /** `memset` of an inode, and its type. */
  function FreshFile(): (ino: Inode)
    ensures IsInode(ino)
  {
    Inode(KIND_FILE, 0, 0, seq(DIRECT, _ => 0))
  }

  /** The entry of a new file. */
  function NewEntry(e: Entry, name: seq<int>, j: int): (r: Entry)
    requires |e| == ENTRY_BYTES && ValidName(name) && IsWord(j)
    ensures |r| == ENTRY_BYTES
  {
    Bytes4(j) + SplitInto(e, name)[BASE..]
  }

  lemma NewEntryHolds(e: Entry, name: seq<int>, j: int)
    requires |e| == ENTRY_BYTES && ValidName(name) && 0 <= j < INODES
    ensures var r := NewEntry(e, name, j);
            IsEntry(r) && NameOf(r) == StoredName(name) && Idx(r) == j && Used(r)
  {
    var r, s := NewEntry(e, name, j), SplitInto(e, name);
    SplitJoin(e, name);
    assert r[BASE..] == s[BASE..];
    SameName(r, s);
    assert r[BASE..EXT] == s[BASE..EXT] && r[EXT..] == s[EXT..];
    BytesMakeWord(j);
  }

  // ----- the steps -----

  /** The disk with entry `n` replaced. */
  function WithEntry(v: Vol, n: int, e: Entry): (d: seq<Sector>)
    requires HasDirectory(v) && 0 <= n < ENTRIES && |e| == ENTRY_BYTES
    ensures |d| == |v.disk|
  {
    var s := v.meta.dataStart + n / IN_SECTOR;
    v.disk[s := Put(v.disk[s], ENTRY_BYTES * (n % IN_SECTOR), e)]
  }

  /** Entry `n` and inode `j` have been taken. */
  function AfterEntry(v: Vol, name: seq<int>, n: int, j: int): Vol
    requires Formed(v) && HasDirectory(v) && ValidName(name) && 0 <= n < ENTRIES && 0 <= j < INODES
  {
    Vol(v.meta, WithEntry(v, n, NewEntry(EntryAt(v, n), name, j)),
        v.inodes[j := FreshFile()], BitSet(v.marks, j, 1))
  }

  /** ... the first free ones. */
  ghost predicate Created(v: Vol, name: seq<int>, n: int, j: int, x: Vol) {
    && Formed(v) && HasDirectory(v) && ValidName(name) && 0 <= n < ENTRIES && 0 <= j < INODES
    && !Used(EntryAt(v, n)) && (forall m :: 0 <= m < n ==> Used(EntryAt(v, m)))
    && !Live(v, j) && (forall i :: 0 <= i < j ==> Live(v, i))
    && x == AfterEntry(v, name, n, j)
  }

  /** `create_file` returns an inode: it is taken, entered and synced. */
  ghost predicate CreateOk(v: Vol, name: seq<int>, j: int, y: Vol) {
    exists n, x :: Created(v, name, n, j, x) && SyncRel(x, y)
  }

  /** Every inode is taken. */
  ghost predicate Full(v: Vol) {
    forall i :: 0 <= i < INODES ==> Live(v, i)
  }

  /** `create_file` returns -1: there is no free entry or no free inode, and nothing has changed. */
  ghost predicate CreateFails(v: Vol, y: Vol) {
    && HasDirectory(v) && y == v
    && ((forall n :: 0 <= n < ENTRIES ==> Used(EntryAt(v, n))) || Full(v))
  }

  // ----- the entries -----

  lemma ChunkPut(s: Sector, k: int, e: Entry, m: int)
    requires |s| == SECTOR && 0 <= k < IN_SECTOR && 0 <= m < IN_SECTOR && |e| == ENTRY_BYTES
    ensures EntryOf(Put(s, ENTRY_BYTES * k, e), m) == if m == k then e else EntryOf(s, m)
  {
  }

  lemma CreatedEntry(v: Vol, n: int, e: Entry, x: Vol, m: int)
    requires HasDirectory(v) && 0 <= n < ENTRIES && 0 <= m < ENTRIES && |e| == ENTRY_BYTES
    requires x.meta == v.meta && x.disk == WithEntry(v, n, e)
    ensures HasDirectory(x) && EntryAt(x, m) == if m == n then e else EntryAt(v, m)
  {
    if m / IN_SECTOR == n / IN_SECTOR {
      ChunkPut(v.disk[v.meta.dataStart + n / IN_SECTOR], n % IN_SECTOR, e, m % IN_SECTOR);
    }
  }

  /** The allocated inodes after one more has been taken. */
  lemma LiveAfter(v: Vol, x: Vol, j: int, i: int)
    requires |v.inodes| == |x.inodes| == INODES && |v.marks| == MAP_BYTES && Bytes(v.marks) && 0 <= j < INODES
    requires x.marks == BitSet(v.marks, j, 1)
    ensures Live(x, i) <==> i == j || Live(v, i)
  {
    if 0 <= i < INODES { BitSetBits(v.marks, j, 1, i); }
  }

  lemma CreatedFormed(v: Vol, name: seq<int>, n: int, j: int, x: Vol)
    requires Sound(v) && Created(v, name, n, j, x)
    ensures Formed(x) && forall t :: InUse(x, t) <==> InUse(v, t)
  {
    LayoutOrdered(|v.disk|);
    SameMap(v, x);
  }

  lemma CreatedSound(v: Vol, name: seq<int>, n: int, j: int, x: Vol)
    requires Sound(v) && Created(v, name, n, j, x)
    ensures Sound(x)
  {
    CreatedFormed(v, name, n, j, x);
    forall i ensures Live(x, i) <==> i == j || Live(v, i) { LiveAfter(v, x, j, i); }
    forall i, b ensures HasBlock(x, i, b) <==> HasBlock(v, i, b) {}
    forall i, b | HasBlock(x, i, b) ensures Ptr(x, i, b) == Ptr(v, i, b) {}
    forall t | InUse(x, t) ensures Owns(x, t) {
      var i, b :| HasBlock(v, i, b) && Ptr(v, i, b) == t;
      assert HasBlock(x, i, b) && Ptr(x, i, b) == t;
    }
    assert Live(v, 0);
  }

  lemma CreatedGood(v: Vol, name: seq<int>, n: int, j: int, x: Vol, m: int)
    requires Inv(v) && Created(v, name, n, j, x) && 0 <= m < ENTRIES && Sound(x)
    ensures HasDirectory(x) && GoodEntry(x, m)
  {
    CreatedEntry(v, n, NewEntry(EntryAt(v, n), name, j), x, m);
    LiveAfter(v, x, j, j);
    assert Live(v, 0);
    if m == n {
      NewEntryHolds(EntryAt(v, n), name, j);
    } else {
      assert GoodEntry(v, m);
      LiveAfter(v, x, j, Idx(EntryAt(v, m)));
    }
  }

  lemma NoneMatches(v: Vol, name: seq<int>, m: int)
    requires Inv(v) && Lookup(v, name) == NONE && 0 <= m < ENTRIES
    ensures !Matches(v, m, name)
  {
    assert GoodEntry(v, m);
    if Matches(v, m, name) {
      LookupFinds(v, name, m, 0);
    }
  }

  lemma CreatedDiffer(v: Vol, name: seq<int>, n: int, j: int, x: Vol, m: int, k: int)
    requires Inv(v) && Created(v, name, n, j, x) && Lookup(v, StoredName(name)) == NONE
    requires 0 <= m < k < ENTRIES
    ensures HasDirectory(x) && Differ(x, m, k)
  {
    CreatedEntry(v, n, NewEntry(EntryAt(v, n), name, j), x, m);
    CreatedEntry(v, n, NewEntry(EntryAt(v, n), name, j), x, k);
    NewEntryHolds(EntryAt(v, n), name, j);
    if m == n || k == n {
      var o := if m == n then k else m;
      assert GoodEntry(v, o);
      NoneMatches(v, StoredName(name), o);
    } else {
      assert Differ(v, m, k);
    }
  }

  lemma CreatedListed(v: Vol, name: seq<int>, n: int, j: int, x: Vol, i: int)
    requires Inv(v) && Created(v, name, n, j, x) && Live(x, i) && i != 0
    ensures HasDirectory(x) && exists m :: Lists(x, m, i)
  {
    LiveAfter(v, x, j, i);
    CreatedEntry(v, n, NewEntry(EntryAt(v, n), name, j), x, n);
    if i == j {
      NewEntryHolds(EntryAt(v, n), name, j);
      assert Lists(x, n, i);
    } else {
      var m :| Lists(v, m, i);
      CreatedEntry(v, n, NewEntry(EntryAt(v, n), name, j), x, m);
      assert Lists(x, m, i);
    }
  }

  lemma CreatedInv(v: Vol, name: seq<int>, n: int, j: int, x: Vol)
    requires Inv(v) && Created(v, name, n, j, x) && Lookup(v, StoredName(name)) == NONE
    ensures Inv(x)
  {
    CreatedSound(v, name, n, j, x);
    CreatedEntry(v, n, NewEntry(EntryAt(v, n), name, j), x, n);
    forall m | 0 <= m < ENTRIES ensures GoodEntry(x, m) { CreatedGood(v, name, n, j, x, m); }
    forall m, k | 0 <= m < k < ENTRIES ensures Differ(x, m, k) { CreatedDiffer(v, name, n, j, x, m, k); }
    forall i | Live(x, i) && i != 0 ensures exists m :: Lists(x, m, i) { CreatedListed(v, name, n, j, x, i); }
  }

  /** The stored name leads to the new inode, and every other name to where it led. */
  lemma CreatedLookup(v: Vol, name: seq<int>, n: int, j: int, x: Vol, other: seq<int>)
    requires Inv(v) && Inv(x) && Created(v, name, n, j, x)
    ensures Lookup(x, StoredName(name)) == j
    ensures other != StoredName(name) ==> Lookup(x, other) == Lookup(v, other)
  {
    var e := NewEntry(EntryAt(v, n), name, j);
    NewEntryHolds(EntryAt(v, n), name, j);
    CreatedEntry(v, n, e, x, n);
    LookupFinds(x, StoredName(name), n, 0);
    if other != StoredName(name) {
      forall m | 0 <= m < ENTRIES
        ensures Matches(x, m, other) <==> Matches(v, m, other)
        ensures Matches(v, m, other) ==> EntryAt(x, m) == EntryAt(v, m)
      {
        CreatedEntry(v, n, e, x, m);
      }
      SameLookup(v, x, other, 0);
    }
  }

  // ----- the main results -----

  /** A file that was allocated keeps its inode and its bytes. */
  lemma CreatedKeepsFile(v: Vol, name: seq<int>, n: int, j: int, x: Vol, i: int)
    requires Inv(v) && Sound(x) && Created(v, name, n, j, x) && Live(v, i) && i != 0
    ensures Live(x, i) && x.inodes[i] == v.inodes[i] && FileBytes(x, i) == FileBytes(v, i)
  {
    LiveAfter(v, x, j, i);
    DirectoryBlocks(v);
    forall s | 0 <= s < |v.disk| && IsBlock(v.meta.dataStart, v.inodes[i], s) ensures x.disk[s] == v.disk[s] {
      BlocksApart(v, 0, i, s);
    }
    assert IsInode(v.inodes[i]);
    BytesKept(v, x, i);
  }

  /** Whatever the name, a create keeps the sectors in order and the files there were. */
  lemma CreateKeepsFiles(v: Vol, name: seq<int>, j: int, y: Vol)
    requires Inv(v) && CreateOk(v, name, j, y)
    ensures Sound(y) && Synced(y) && Live(y, j) && j != 0 && !Live(v, j) && HasDirectory(y)
    ensures forall i :: Live(v, i) && i != 0 ==>
              Live(y, i) && y.inodes[i] == v.inodes[i] && FileBytes(y, i) == FileBytes(v, i)
  {
    var n, x :| Created(v, name, n, j, x) && SyncRel(x, y);
    CreatedSound(v, name, n, j, x);
    LiveAfter(v, x, j, j);
    assert Live(v, 0);
    SyncLeaves(x, y, j);
    DirectoryBlocks(y);
    forall i | Live(v, i) && i != 0
      ensures Live(y, i) && y.inodes[i] == v.inodes[i] && FileBytes(y, i) == FileBytes(v, i)
    {
      CreatedKeepsFile(v, name, n, j, x, i);
      assert y.inodes[i] == x.inodes[i];
    }
  }

  /** A successful create under a stored name that is free: everything stays in order and in
      sync, that name leads to an empty file, other names lead where they led, and no file
      changes. */
  lemma CreateIsSafe(v: Vol, name: seq<int>, j: int, y: Vol)
    requires Inv(v) && Lookup(v, StoredName(name)) == NONE && CreateOk(v, name, j, y)
    ensures Inv(y) && Synced(y) && Live(y, j) && j != 0 && !Live(v, j)
    ensures Lookup(y, StoredName(name)) == j && FileBytes(y, j) == []
    ensures forall other :: other != StoredName(name) ==> Lookup(y, other) == Lookup(v, other)
    ensures forall i :: Live(v, i) && i != 0 ==>
              Live(y, i) && y.inodes[i] == v.inodes[i] && FileBytes(y, i) == FileBytes(v, i)
    ensures y.meta == v.meta && y.disk[0] == v.disk[0]
  {
    CreateKeepsFiles(v, name, j, y);
    var n, x :| Created(v, name, n, j, x) && SyncRel(x, y);
    CreatedInv(v, name, n, j, x);
    LiveAfter(v, x, j, j);
    SyncLeaves(x, y, j);
    SameNames(x, y, j);
    DirectoryBlocks(v);
    CreatedLookup(v, name, n, j, x, StoredName(name));
    forall other | other != StoredName(name) ensures Lookup(y, other) == Lookup(v, other) {
      CreatedLookup(v, name, n, j, x, other);
    }
  }

  lemma CreateLive(v: Vol, name: seq<int>, j: int, y: Vol, i: int)
    requires CreateOk(v, name, j, y)
    ensures Live(y, i) <==> i == j || Live(v, i)
  {
    var n, x :| Created(v, name, n, j, x) && SyncRel(x, y);
    LiveAfter(v, x, j, i);
  }

  /** The entries after a create. */
  lemma CreateEntries(v: Vol, name: seq<int>, j: int, y: Vol) returns (n: int)
    requires Inv(v) && CreateOk(v, name, j, y)
    ensures HasDirectory(y) && 0 <= n < ENTRIES && !Used(EntryAt(v, n))
    ensures Used(EntryAt(y, n)) && NameOf(EntryAt(y, n)) == StoredName(name) && Idx(EntryAt(y, n)) == j
    ensures forall m :: 0 <= m < ENTRIES && m != n ==> EntryAt(y, m) == EntryAt(v, m)
  {
    CreateKeepsFiles(v, name, j, y);
    var x;
    n, x :| Created(v, name, n, j, x) && SyncRel(x, y);
    SyncSyncs(x, y);
    DirectoryBlocks(y);
    NewEntryHolds(EntryAt(v, n), name, j);
    forall m | 0 <= m < ENTRIES
      ensures EntryAt(y, m) == if m == n then NewEntry(EntryAt(v, n), name, j) else EntryAt(v, m)
    {
      CreatedEntry(v, n, NewEntry(EntryAt(v, n), name, j), x, m);
      SameEntries(x, y, m);
    }
  }

  /** A create keeps the directory a map exactly if the name it stores was free. */
  lemma CreateSafeExactly(v: Vol, name: seq<int>, j: int, y: Vol)
    requires Inv(v) && CreateOk(v, name, j, y)
    ensures Inv(y) <==> Lookup(v, StoredName(name)) == NONE
  {
    var n := CreateEntries(v, name, j, y);
    var i := Lookup(v, StoredName(name));
    if i == NONE {
      CreateIsSafe(v, name, j, y);
    } else {
      LookupIsMap(v, StoredName(name), i);
      var m :| 0 <= m < ENTRIES && Matches(v, m, StoredName(name));
      assert !Differ(y, if m < n then m else n, if m < n then n else m);
    }
  }

  /** A name that was not there is found after it has been created exactly if it fits an entry:
      otherwise an entry has been made, under another name. */
  lemma CreateFoundExactly(v: Vol, name: seq<int>, j: int, y: Vol)
    requires Inv(v) && Lookup(v, name) == NONE && CreateOk(v, name, j, y)
    ensures HasDirectory(y) && (if Fits(name) then Lookup(y, name) == j else Lookup(y, name) == NONE)
  {
    StoredNameFits(name);
    if Fits(name) {
      CreateIsSafe(v, name, j, y);
    } else {
      var n := CreateEntries(v, name, j, y);
      forall m | 0 <= m < ENTRIES ensures !Matches(y, m, name) {
        NoneMatches(v, name, m);
      }
      LookupMisses(y, name, 0);
    }
  }

  /** The inodes the first `n` entries name. */
  function Indices(v: Vol, n: nat): (s: seq<int>)
    requires HasDirectory(v) && n <= ENTRIES
    ensures |s| == n && forall m :: 0 <= m < n ==> s[m] == Idx(EntryAt(v, m))
  {
    if n == 0 then [] else Indices(v, n - 1) + [Idx(EntryAt(v, n - 1))]
  }

  /** There are fewer files than entries, so a create fails exactly when every inode is taken,
      and then it changes nothing. */
  lemma CreateFailsExactly(v: Vol, y: Vol)
    requires Inv(v)
    ensures CreateFails(v, y) <==> y == v && Full(v)
  {
    if forall n :: 0 <= n < ENTRIES ==> Used(EntryAt(v, n)) {
      var s := Indices(v, ENTRIES);
      forall m | 0 <= m < ENTRIES ensures 1 <= s[m] < INODES { assert GoodEntry(v, m); }
      forall m, k | 0 <= m < k < ENTRIES ensures s[m] != s[k] { assert Differ(v, m, k); }
      Pigeonhole(s, 1, INODES);
      assert false;
    }
  }

  /** With a free inode a create goes through. */
  lemma CreateCan(v: Vol, name: seq<int>, free: int) returns (j: int, y: Vol)
    requires Inv(v) && ValidName(name) && 0 <= free < INODES && !Live(v, free)
    ensures CreateOk(v, name, j, y)
  {
    CreateFailsExactly(v, v);
    var n: nat := 0;
    while n < ENTRIES && Used(EntryAt(v, n))
      invariant n <= ENTRIES && forall m :: 0 <= m < n ==> Used(EntryAt(v, m))
    {
      n := n + 1;
    }
    j := 0;
    while Live(v, j)
      invariant 0 <= j <= free && forall i :: 0 <= i < j ==> Live(v, i)
      decreases free - j
    {
      j := j + 1;
    }
    var x := AfterEntry(v, name, n, j);
    assert Created(v, name, n, j, x);
    CreatedFormed(v, name, n, j, x);
    y := AfterSync(x);
  }
}
