/**
 The root directory of fs/fs.c: 64 entries in the first two data sectors, and the map from
 names to inodes they stand for.
 */
module Directory {
  import opened FileBlocks
  import opened Volume
  import opened Ownership
  import opened FileNames
  import opened FileWrites

  const ENTRIES := 64
  const IN_SECTOR := 32
  const FREE := 0xffff_ffff  // the inode index of an entry that is not in use
  const NONE := -1

  function EntryOf(s: Sector, k: int): (e: Entry)
    requires |s| == SECTOR && 0 <= k < IN_SECTOR
    ensures |e| == ENTRY_BYTES
  {
    s[ENTRY_BYTES * k..ENTRY_BYTES * k + ENTRY_BYTES]
  }

  ghost predicate HasDirectory(v: Vol) {
    Sectors(v.disk) && 0 <= v.meta.dataStart && v.meta.dataStart + 2 <= |v.disk|
  }

  /** Entry `n` of the directory. */
  function EntryAt(v: Vol, n: int): (e: Entry)
    requires HasDirectory(v) && 0 <= n < ENTRIES
    ensures |e| == ENTRY_BYTES
  {
    EntryOf(v.disk[v.meta.dataStart + n / IN_SECTOR], n % IN_SECTOR)
  }

  predicate Used(e: Entry)
    requires |e| == ENTRY_BYTES
  {
    Idx(e) != FREE
  }

  /** An entry in use has a name and an allocated inode other than the directory's. */
  ghost predicate GoodEntry(v: Vol, n: int)
    requires HasDirectory(v) && 0 <= n < ENTRIES
  {
    var e := EntryAt(v, n);
    Used(e) ==> IsEntry(e) && 0 < Idx(e) < INODES && Live(v, Idx(e))
  }

  /** Two entries in use have different names and different inodes. */
  ghost predicate Differ(v: Vol, n: int, m: int)
    requires HasDirectory(v) && 0 <= n < ENTRIES && 0 <= m < ENTRIES
  {
    var e, f := EntryAt(v, n), EntryAt(v, m);
    Used(e) && Used(f) ==> NameOf(e) != NameOf(f) && Idx(e) != Idx(f)
  }

  ghost predicate Lists(v: Vol, n: int, i: int)
    requires HasDirectory(v)
  {
    0 <= n < ENTRIES && Used(EntryAt(v, n)) && Idx(EntryAt(v, n)) == i
  }

  /** The directory names each file once. */
  ghost predicate Named(v: Vol)
    requires HasDirectory(v)
  {
    && (forall n :: 0 <= n < ENTRIES ==> GoodEntry(v, n))
    && (forall n, m :: 0 <= n < m < ENTRIES ==> Differ(v, n, m))
    && (forall i :: Live(v, i) && i != 0 ==> exists n :: Lists(v, n, i))
  }

  /** The invariant of the file system. */
  ghost predicate Inv(v: Vol) {
    Sound(v) && HasDirectory(v) && Named(v)
  }

  // ----- looking up a name -----

  predicate Matches(v: Vol, n: int, name: seq<int>)
    requires HasDirectory(v) && 0 <= n < ENTRIES
  {
    Used(EntryAt(v, n)) && NameOf(EntryAt(v, n)) == name
  }

  /** `find_file`: the inode of the first entry with the name, or -1. */
  function LookupFrom(v: Vol, name: seq<int>, n: int): int
    requires HasDirectory(v) && 0 <= n <= ENTRIES
    decreases ENTRIES - n
  {
    if n == ENTRIES then NONE
    else if Matches(v, n, name) then Idx(EntryAt(v, n))
    else LookupFrom(v, name, n + 1)
  }

  function Lookup(v: Vol, name: seq<int>): int
    requires HasDirectory(v)
  {
    LookupFrom(v, name, 0)
  }

  lemma {:induction false} LookupFinds(v: Vol, name: seq<int>, n: int, k: int)
    requires Inv(v) && 0 <= k <= n < ENTRIES && Matches(v, n, name)
    ensures LookupFrom(v, name, k) == Idx(EntryAt(v, n))
    decreases n - k
  {
    if k < n {
      assert Differ(v, k, n);
      LookupFinds(v, name, n, k + 1);
    }
  }

  lemma {:induction false} LookupMisses(v: Vol, name: seq<int>, k: int)
    requires HasDirectory(v) && 0 <= k <= ENTRIES
    requires forall n :: k <= n < ENTRIES ==> !Matches(v, n, name)
    ensures LookupFrom(v, name, k) == NONE
    decreases ENTRIES - k
  {
    if k < ENTRIES {
      assert !Matches(v, k, name);
      LookupMisses(v, name, k + 1);
    }
  }

  /** The directory is a map: a name is found iff an entry in use has it, and with that entry's inode. */
  lemma LookupIsMap(v: Vol, name: seq<int>, i: int)
    requires Inv(v) && i != NONE
    ensures Lookup(v, name) == i <==> exists n :: 0 <= n < ENTRIES && Matches(v, n, name) && Idx(EntryAt(v, n)) == i
    ensures Lookup(v, name) == i ==> 0 < i < INODES && Live(v, i)
  {
    if m :| 0 <= m < ENTRIES && Matches(v, m, name) {
      LookupFinds(v, name, m, 0);
      assert GoodEntry(v, m);
      forall n | 0 <= n < ENTRIES && Matches(v, n, name) ensures Idx(EntryAt(v, n)) == Lookup(v, name) {
        LookupFinds(v, name, n, 0);
      }
    } else {
      LookupMisses(v, name, 0);
    }
  }

  /** Two volumes whose entries, wherever one matches, agree. */
  lemma {:induction false} SameLookup(v: Vol, y: Vol, name: seq<int>, k: int)
    requires HasDirectory(v) && HasDirectory(y) && 0 <= k <= ENTRIES
    requires forall n :: 0 <= n < ENTRIES ==> (Matches(y, n, name) <==> Matches(v, n, name))
    requires forall n :: 0 <= n < ENTRIES && Matches(v, n, name) ==> EntryAt(y, n) == EntryAt(v, n)
    ensures LookupFrom(y, name, k) == LookupFrom(v, name, k)
    decreases ENTRIES - k
  {
    if k < ENTRIES {
      assert Matches(y, k, name) <==> Matches(v, k, name);
      SameLookup(v, y, name, k + 1);
    }
  }

  // ----- listing -----

  /** What `sys_listdir` reports of a file. */
  datatype Record = Record(name: seq<int>, size: int, space: int)

  function RecordOf(v: Vol, n: int): Record
    requires HasDirectory(v) && 0 <= n < ENTRIES
  {
    var i := Idx(EntryAt(v, n));
    if 0 <= i < |v.inodes| then Record(NameOf(EntryAt(v, n)), v.inodes[i].size, v.inodes[i].count * SECTOR)
    else Record(NameOf(EntryAt(v, n)), 0, 0)
  }

  /** The records of the first `n` entries. */
  function Listing(v: Vol, n: int): seq<Record>
    requires HasDirectory(v) && 0 <= n <= ENTRIES
  {
    if n == 0 then [] else Listing(v, n - 1) + if Used(EntryAt(v, n - 1)) then [RecordOf(v, n - 1)] else []
  }

  lemma {:induction false} ListingHas(v: Vol, n: int, m: int)
    requires HasDirectory(v) && 0 <= m < n <= ENTRIES && Used(EntryAt(v, m))
    ensures RecordOf(v, m) in Listing(v, n)
  {
    if m < n - 1 { ListingHas(v, n - 1, m); }
  }

  /** Every record comes from an entry in use ... */
  lemma {:induction false} ListingFrom(v: Vol, n: int, k: int) returns (m: int)
    requires HasDirectory(v) && 0 <= n <= ENTRIES && 0 <= k < |Listing(v, n)|
    ensures 0 <= m < n && Used(EntryAt(v, m)) && Listing(v, n)[k] == RecordOf(v, m)
  {
    if k < |Listing(v, n - 1)| { m := ListingFrom(v, n - 1, k); } else { m := n - 1; }
  }

  /** ... and records keep the order of the entries they come from. */
  lemma {:induction false} ListingInOrder(v: Vol, n: int, k: int, l: int) returns (a: int, b: int)
    requires HasDirectory(v) && 0 <= n <= ENTRIES && 0 <= k < l < |Listing(v, n)|
    ensures 0 <= a < b < n && Used(EntryAt(v, a)) && Used(EntryAt(v, b))
    ensures Listing(v, n)[k] == RecordOf(v, a) && Listing(v, n)[l] == RecordOf(v, b)
  {
    if l < |Listing(v, n - 1)| {
      a, b := ListingInOrder(v, n - 1, k, l);
    } else {
      a := ListingFrom(v, n - 1, k);
      b := n - 1;
    }
  }

  lemma {:induction false} ListingDistinct(v: Vol, n: int, k: int, l: int)
    requires Inv(v) && 0 <= n <= ENTRIES && 0 <= k < l < |Listing(v, n)|
    ensures Listing(v, n)[k].name != Listing(v, n)[l].name
  {
    if l < |Listing(v, n - 1)| {
      ListingDistinct(v, n - 1, k, l);
    } else {
      var m := ListingFrom(v, n - 1, k);
      assert Differ(v, m, n - 1);
    }
  }

  /** The listing has one record for each name that is found, with the size of its file, and
      no others. */
  lemma ListingIsDirectory(v: Vol, name: seq<int>)
    requires Inv(v)
    ensures Lookup(v, name) != NONE <==> exists r :: r in Listing(v, ENTRIES) && r.name == name
    ensures forall r :: r in Listing(v, ENTRIES) && r.name == name ==>
              && Live(v, Lookup(v, name)) && r.size == v.inodes[Lookup(v, name)].size
              && r.space == SECTOR * v.inodes[Lookup(v, name)].count
  {
    if Lookup(v, name) != NONE {
      LookupIsMap(v, name, Lookup(v, name));
      var n :| 0 <= n < ENTRIES && Matches(v, n, name);
      ListingHas(v, ENTRIES, n);
      assert RecordOf(v, n).name == name;
    }
    forall r | r in Listing(v, ENTRIES) && r.name == name
      ensures Live(v, Lookup(v, name)) && r.size == v.inodes[Lookup(v, name)].size
      ensures r.space == SECTOR * v.inodes[Lookup(v, name)].count
    {
      var k :| 0 <= k < |Listing(v, ENTRIES)| && Listing(v, ENTRIES)[k] == r;
      var m := ListingFrom(v, ENTRIES, k);
      LookupFinds(v, name, m, 0);
      assert GoodEntry(v, m);
    }
  }

  // ----- what writes do to it -----

  lemma SameEntries(v: Vol, y: Vol, n: int)
    requires HasDirectory(v) && HasDirectory(y) && y.meta == v.meta && 0 <= n < ENTRIES
    requires y.disk[v.meta.dataStart] == v.disk[v.meta.dataStart]
    requires y.disk[v.meta.dataStart + 1] == v.disk[v.meta.dataStart + 1]
    ensures EntryAt(y, n) == EntryAt(v, n)
  {
    assert n / IN_SECTOR == 0 || n / IN_SECTOR == 1;
  }

  /** A change that leaves the directory's sectors alone keeps the names. */
  lemma SameNames(v: Vol, y: Vol, i: int)
    requires Inv(v) && Sound(y) && LeavesOthers(v, y, i)
    ensures Inv(y) && forall name :: Lookup(y, name) == Lookup(v, name)
  {
    DirectoryBlocks(v);
    DirectoryBlocks(y);
    forall n | 0 <= n < ENTRIES ensures EntryAt(y, n) == EntryAt(v, n) {
      SameEntries(v, y, n);
    }
    forall n | 0 <= n < ENTRIES ensures GoodEntry(y, n) { assert GoodEntry(v, n); }
    forall n, m | 0 <= n < m < ENTRIES ensures Differ(y, n, m) { assert Differ(v, n, m); }
    forall j | Live(y, j) && j != 0 ensures exists n :: Lists(y, n, j) {
      assert Live(v, j);
      var n :| Lists(v, n, j);
      assert Lists(y, n, j);
    }
    forall name ensures Lookup(y, name) == Lookup(v, name) {
      SameLookup(v, y, name, 0);
    }
  }
}
