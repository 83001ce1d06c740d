/**
 What each call on files does, flag by flag and field by field, said without the relations the
 runs are made of.
 */
module FileEffects {
  import opened Limits
  import opened Words
  import opened Volume
  import opened Ownership
  import opened FileNames
  import opened Directory
  import opened FileCreation
  import opened OpenFiles
  import opened DescriptorCounts
  import opened FileRuns

  // ----- open -----

  /** Descriptor `f`, the first free one of process `p`, leads to entry `k`, the first free one,
      which is open on `inode` at `pos`; nothing else in the table has changed. */
  ghost predicate OneMore(t: Table, p: int, f: int, k: int, inode: int, pos: int, t': Table) {
    && |t'.fds| == |t.fds| == 32 && 0 <= p < 32 && |t.fds[p]| == |t'.fds[p]| == 4 && |t'.ds| == |t.ds| == 64
    && 0 <= f < 4 && t.fds[p][f] == -1 && (forall g :: 0 <= g < f ==> t.fds[p][g] != -1)
    && 0 <= k < 64 && t.ds[k].inode == -1 && (forall j :: 0 <= j < k ==> t.ds[j].inode != -1)
    && t'.fds[p][f] == k && (forall g :: 0 <= g < 4 && g != f ==> t'.fds[p][g] == t.fds[p][g])
    && (forall q :: 0 <= q < 32 && q != p ==> t'.fds[q] == t.fds[q])
    && t'.ds[k].inode == inode && t'.ds[k].pos == pos && t'.ds[k].refs == (t.ds[k].refs + 1) % 0x1_0000_0000
    && (forall j :: 0 <= j < 64 && j != k ==> t'.ds[j] == t.ds[j])
  }

  lemma JoinedIsOneMore(t: Table, p: int, inode: int, pos: int, fp: int, t': Table) returns (k: int)
    requires OpenRel(t, p, inode, pos, fp, t')
    ensures OneMore(t, p, fp, k, inode, pos, t')
  {
    assert FdsOk(t.fds[p]);
    k :| 0 <= k < |t.ds| && FirstFree(t.ds, k) && t'.fds[p] == t.fds[p][fp := k]
      && t'.ds == t.ds[k := Opened(t.ds[k], inode, pos)];
    forall q | 0 <= q < 32 && q != p ensures t'.fds[q] == t.fds[q] {
      assert t'.fds[q] == t.fds[p := t'.fds[p]][q];
    }
  }

  /** An open whose flags do not allow what it finds changes nothing. */
  lemma OpenRefused(w: World, step: Step, w': World)
    requires Orderly(w) && step.Open? && Next(w, step, w')
    requires if Lookup(w.v, step.name) == -1 then !step.create || (forall i :: 0 <= i < 64 ==> Live(w.v, i))
             else !step.exist
    ensures w' == w
  {
    var i, fp :| Opens(w, step, i, fp, w');
    CreateFailsExactly(w.v, w'.v);
    if i != NULL && Lookup(w.v, step.name) == NONE {
      CreateKeepsFiles(w.v, step.name, i, w'.v);
    }
  }

  /** A name that is found is opened at the start of its file, or at its end to append. */
  lemma OpenFound(w: World, step: Step, w': World) returns (f: int, k: int)
    requires Orderly(w) && step.Open? && Next(w, step, w') && Lookup(w.v, step.name) != -1 && step.exist
    ensures w'.v == w.v && Live(w.v, Lookup(w.v, step.name))
    ensures var i := Lookup(w.v, step.name);
            OneMore(w.t, step.p, f, k, i, if step.append then w.v.inodes[i].size else 0, w'.t)
  {
    var i, fp :| Opens(w, step, i, fp, w');
    LookupIsMap(w.v, step.name, i);
    f := fp;
    k := JoinedIsOneMore(w.t, step.p, i, if step.append then w.v.inodes[i].size else 0, fp, w'.t);
  }

  /** A name that is not found is created, if it may be and there is an inode for it: the lowest
      free inode becomes an empty file, which is opened at its start. */
  lemma OpenCreated(w: World, step: Step, w': World) returns (i: int, f: int, k: int)
    requires Orderly(w) && step.Open? && Next(w, step, w') && Lookup(w.v, step.name) == -1 && step.create
    requires exists j :: 0 <= j < 64 && !Live(w.v, j)
    ensures CreateOk(w.v, step.name, i, w'.v)
    ensures 0 <= i < 64 && !Live(w.v, i) && forall j :: 0 <= j < i ==> Live(w.v, j)
    ensures OneMore(w.t, step.p, f, k, i, 0, w'.t)
  {
    var fp;
    i, fp :| Opens(w, step, i, fp, w');
    CreateFailsExactly(w.v, w'.v);
    var n := CreateTakesFirst(w.v, step.name, i, w'.v);
    f := fp;
    k := JoinedIsOneMore(w.t, step.p, i, 0, fp, w'.t);
  }

  // ----- create -----

  /** A create takes the lowest free inode and the lowest free entry. The entry is the index, the
      base and the extension at their places; the inode is an empty file; no other entry or inode
      changes, and no sector but those of the directory and the tables. */
  lemma CreateTakesFirst(v: Vol, name: seq<int>, i: int, y: Vol) returns (n: int)
    requires Inv(v) && CreateOk(v, name, i, y)
    ensures 0 <= i < 64 && !Live(v, i) && forall j :: 0 <= j < i ==> Live(v, j)
    ensures |y.inodes| == 64 && y.inodes[i].kind == 2 && y.inodes[i].size == 0 && y.inodes[i].count == 0
    ensures forall j :: 0 <= j < 64 ==>
              (Live(y, j) <==> Live(v, j) || j == i) && (j != i ==> y.inodes[j] == v.inodes[j])
    ensures HasDirectory(y) && 0 <= n < 64
    ensures WordAt(EntryAt(v, n), 0) == 0xffff_ffff
            && forall m :: 0 <= m < n ==> WordAt(EntryAt(v, m), 0) != 0xffff_ffff
    ensures var e := EntryAt(y, n); |e| == 16 && WordAt(e, 0) == i && NameOf(e) == StoredName(name)
    ensures forall m :: 0 <= m < 64 && m != n ==> EntryAt(y, m) == EntryAt(v, m)
    ensures y.meta == v.meta && |y.disk| == |v.disk|
    ensures forall s :: 0 <= s < |v.disk| && (s < v.meta.inodeMapStart || v.meta.dataStart + 2 <= s) ==>
              y.disk[s] == v.disk[s]
  {
    CreateKeepsSuper(v, name, i, y);
    n := FirstEntry(v, name, i, y);
    var k := CreateEntries(v, name, i, y);
    SameEntryTaken(v, y, n, k);
    forall j | 0 <= j < 64 ensures Live(y, j) <==> Live(v, j) || j == i { CreateLive(v, name, i, y, j); }
  }

  lemma FirstEntry(v: Vol, name: seq<int>, i: int, y: Vol) returns (n: int)
    requires Inv(v) && CreateOk(v, name, i, y)
    ensures 0 <= i < 64 && !Live(v, i) && forall j :: 0 <= j < i ==> Live(v, j)
    ensures |y.inodes| == 64 && y.inodes[i].kind == 2 && y.inodes[i].size == 0 && y.inodes[i].count == 0
    ensures forall j :: 0 <= j < 64 && j != i ==> y.inodes[j] == v.inodes[j]
    ensures HasDirectory(y) && 0 <= n < 64 && Used(EntryAt(y, n))
    ensures !Used(EntryAt(v, n)) && forall m :: 0 <= m < n ==> Used(EntryAt(v, m))
    ensures |y.disk| == |v.disk|
    ensures forall s :: 0 <= s < |v.disk| && (s < v.meta.inodeMapStart || v.meta.dataStart + 2 <= s) ==>
              y.disk[s] == v.disk[s]
  {
    CreateKeepsFiles(v, name, i, y);
    var x;
    n, x := CreateSteps(v, name, i, y);
    InodeTaken(v, name, n, i, x, y);
    EntryTaken(v, name, n, i, x, y);
    OtherSectors(v, name, n, i, x, y);
  }

  lemma CreateSteps(v: Vol, name: seq<int>, i: int, y: Vol) returns (n: int, x: Vol)
    requires CreateOk(v, name, i, y)
    ensures Created(v, name, n, i, x) && SyncRel(x, y)
  {
    n, x :| Created(v, name, n, i, x) && SyncRel(x, y);
  }

  lemma InodeTaken(v: Vol, name: seq<int>, n: int, i: int, x: Vol, y: Vol)
    requires Inv(v) && Created(v, name, n, i, x) && SyncRel(x, y)
    ensures 0 <= i < 64 && !Live(v, i) && forall j :: 0 <= j < i ==> Live(v, j)
    ensures |y.inodes| == 64 && y.inodes[i].kind == 2 && y.inodes[i].size == 0 && y.inodes[i].count == 0
    ensures forall j :: 0 <= j < 64 && j != i ==> y.inodes[j] == v.inodes[j]
  {
  }

  lemma EntryTaken(v: Vol, name: seq<int>, n: int, i: int, x: Vol, y: Vol)
    requires Inv(v) && Created(v, name, n, i, x) && SyncRel(x, y) && HasDirectory(y)
    ensures Used(EntryAt(y, n))
  {
    SyncSyncs(x, y);
    LayoutOrdered(|v.disk|);
    NewEntryHolds(EntryAt(v, n), name, i);
    CreatedEntry(v, n, NewEntry(EntryAt(v, n), name, i), x, n);
    SameEntries(x, y, n);
  }

  lemma OtherSectors(v: Vol, name: seq<int>, n: int, i: int, x: Vol, y: Vol)
    requires Inv(v) && Created(v, name, n, i, x) && SyncRel(x, y)
    ensures |y.disk| == |v.disk|
    ensures forall s :: 0 <= s < |v.disk| && (s < v.meta.inodeMapStart || v.meta.dataStart + 2 <= s) ==>
              y.disk[s] == v.disk[s]
  {
    SyncSyncs(x, y);
    LayoutOrdered(|v.disk|);
    assert n / IN_SECTOR == 0 || n / IN_SECTOR == 1;
  }

  lemma SameEntryTaken(v: Vol, y: Vol, n: int, k: int)
    requires HasDirectory(v) && HasDirectory(y) && 0 <= n < ENTRIES && 0 <= k < ENTRIES
    requires !Used(EntryAt(v, n)) && Used(EntryAt(y, n))
    requires forall m :: 0 <= m < ENTRIES && m != k ==> EntryAt(y, m) == EntryAt(v, m)
    ensures n == k
  {
  }

  // ----- find_file -----

  /** The scan answers the first entry in use with the name, whatever state the directory is in. */
  lemma LookupIsFirst(v: Vol, name: seq<int>) returns (n: int)
    requires HasDirectory(v)
    ensures 0 <= n <= 64 && forall m :: 0 <= m < n ==> !(Used(EntryAt(v, m)) && NameOf(EntryAt(v, m)) == name)
    ensures if n == 64 then Lookup(v, name) == -1
            else && WordAt(EntryAt(v, n), 0) != 0xffff_ffff && NameOf(EntryAt(v, n)) == name
                 && Lookup(v, name) == WordAt(EntryAt(v, n), 0)
  {
    n := LookupFirstFrom(v, name, 0);
    forall m | 0 <= m < n ensures !(Used(EntryAt(v, m)) && NameOf(EntryAt(v, m)) == name) {
      assert !Matches(v, m, name);
    }
  }

  lemma {:induction false} LookupFirstFrom(v: Vol, name: seq<int>, k: int) returns (n: int)
    requires HasDirectory(v) && 0 <= k <= ENTRIES
    ensures k <= n <= ENTRIES && forall m :: k <= m < n ==> !Matches(v, m, name)
    ensures LookupFrom(v, name, k) == if n == ENTRIES then NONE else Idx(EntryAt(v, n))
    ensures n < ENTRIES ==> Matches(v, n, name)
    decreases ENTRIES - k
  {
    if k == ENTRIES || Matches(v, k, name) { n := k; } else { n := LookupFirstFrom(v, name, k + 1); }
  }

  // ----- close, read, write -----

  /** A close frees its own descriptor, and takes one from the count of the entry it named, which
      is free when none is left. */
  lemma CloseEffect(w: World, p: int, f: int, w': World)
    requires Orderly(w) && Next(w, Close(p, f), w')
    ensures w'.v == w.v && |w'.t.fds| == 32 && 0 <= p < 32 && |w.t.fds[p]| == |w'.t.fds[p]| == 4 && |w'.t.ds| == 64
    ensures w'.t.fds[p][f] == -1 && forall g :: 0 <= g < 4 && g != f ==> w'.t.fds[p][g] == w.t.fds[p][g]
    ensures forall q :: 0 <= q < 32 && q != p ==> w'.t.fds[q] == w.t.fds[q]
    ensures forall k :: 0 <= k < 64 && k != w.t.fds[p][f] ==> w'.t.ds[k] == w.t.ds[k]
    ensures var k := w.t.fds[p][f];
            k != -1 ==>
              && 0 <= k < 64 && w'.t.ds[k].refs == (w.t.ds[k].refs - 1) % 0x1_0000_0000
              && w'.t.ds[k].pos == w.t.ds[k].pos
              && w'.t.ds[k].inode == if w'.t.ds[k].refs == 0 then -1 else w.t.ds[k].inode
  {
    assert FdsOk(w.t.fds[p]);
  }

  /** Reading and writing leave every descriptor and every cursor alone; a descriptor that leads
      to no file leaves everything alone. */
  lemma CursorsStand(w: World, step: Step, w': World)
    requires Orderly(w) && Next(w, step, w') && (step.Read? || step.Write?)
    ensures w'.t == w.t && (step.Read? ==> w' == w)
    ensures |w.t.fds| == 32 && 0 <= step.p < 32 && |w.t.fds[step.p]| == 4
    ensures w.t.fds[step.p][step.f] == -1 ==> w' == w
  {
    assert FdsOk(w.t.fds[step.p]);
  }

  // ----- fork and exit -----

  /** Descriptor by descriptor the child has what its parent has; nobody else's change. */
  lemma ForkEffect(w: World, p: int, q: int, w': World)
    requires Orderly(w) && Next(w, Fork(p, q), w')
    ensures w'.v == w.v && w'.t.ds == w.t.ds && |w'.t.fds| == |w.t.fds| == 32 && 0 <= p < 32 && 0 <= q < 32
    ensures |w'.t.fds[q]| == |w.t.fds[p]| == 4 && forall f :: 0 <= f < 4 ==> w'.t.fds[q][f] == w.t.fds[p][f]
    ensures forall r :: 0 <= r < 32 && r != q ==> w'.t.fds[r] == w.t.fds[r]
    ensures Shape(w'.t) && forall f :: 0 <= f < 4 ==> OpenFile(w'.t, q, f) == OpenFile(w.t, p, f)
  {
    assert FdsOk(w.t.fds[p]);
  }

  /** An exit leaves the process with no descriptor, and every entry it did not name as it was. */
  lemma ExitEffect(w: World, p: int, w': World, k: int)
    requires Orderly(w) && Next(w, Exit(p), w')
    ensures w'.v == w.v && |w'.t.fds| == |w.t.fds| == 32 && 0 <= p < 32 && |w.t.fds[p]| == |w'.t.fds[p]| == 4
    ensures forall f :: 0 <= f < 4 ==> w'.t.fds[p][f] == -1
    ensures forall q :: 0 <= q < 32 && q != p ==> w'.t.fds[q] == w.t.fds[q]
    ensures |w'.t.ds| == |w.t.ds| == 64
    ensures 0 <= k < 64 && k !in w.t.fds[p] ==> w'.t.ds[k] == w.t.ds[k]
  {
    assert FdsOk(w.t.fds[p]);
    CloseAll(w.t, p);
    assert FdsOk(w'.t.fds[p]);
    if 0 <= k < 64 && k !in w.t.fds[p] { ClosesLeave(w.t, p, 0, k); }
  }

  lemma {:induction false} ClosesLeave(t: Table, p: int, f: nat, k: int)
    requires Shape(t) && 0 <= p < PROC_MAX && f <= FDS && 0 <= k < DESCS && k !in t.fds[p]
    ensures AfterCloses(t, p, f).ds[k] == t.ds[k]
    decreases FDS - f
  {
    assert FdsOk(t.fds[p]);
    if f < FDS {
      var u := AfterClose(t, p, f);
      assert forall g :: 0 <= g < FDS ==> u.fds[p][g] != k;
      ClosesLeave(u, p, f + 1, k);
    }
  }
}
