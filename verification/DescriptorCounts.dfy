/**
 How many descriptors of all processes name an entry of `file_desc_table`: what opens, closes
 and exits keep, and what a fork keeps only if nothing is open.
 */
module DescriptorCounts {
  import opened Limits
  import opened MapLemmas
  import opened Words
  import opened OpenFiles

  /** The table and the descriptors of every process. */
  datatype Table = Table(ds: seq<Desc>, fds: seq<seq<int>>)

  ghost predicate Shape(t: Table) {
    |t.ds| == DESCS && |t.fds| == PROC_MAX && forall p :: 0 <= p < PROC_MAX ==> FdsOk(t.fds[p])
  }

  predicate Holds(fds: seq<seq<int>>, k: int, h: (int, int)) {
    0 <= h.0 < |fds| && 0 <= h.1 < |fds[h.0]| && fds[h.0][h.1] == k
  }

  /** The descriptors that name entry `k`. */
  ghost function Holders(t: Table, k: int): (s: set<(int, int)>)
    requires Shape(t)
    ensures forall h :: h in s <==> Holds(t.fds, k, h)
  {
    set p, f | 0 <= p < PROC_MAX && 0 <= f < FDS && Holds(t.fds, k, (p, f)) :: (p, f)
  }

  /** `rwcount` counts the descriptors that name the entry, which is free iff there are none. */
  ghost predicate Counted(t: Table)
    requires Shape(t)
  {
    forall k {:trigger t.ds[k]} :: 0 <= k < DESCS ==>
      t.ds[k].refs == |Holders(t, k)| && (t.ds[k].inode == NULL <==> t.ds[k].refs == 0)
  }

  function WithFds(t: Table, p: int, fds: seq<int>): Table
    requires 0 <= p < |t.fds|
  {
    t.(fds := t.fds[p := fds])
  }

  /** `sys_do_open` by process `p`. */
  ghost predicate OpenRel(t: Table, p: int, inode: int, pos: int, fp: int, t': Table) {
    && Shape(t) && 0 <= p < PROC_MAX && inode != NULL && |t'.fds| == PROC_MAX
    && t'.fds == t.fds[p := t'.fds[p]] && Joined(t.fds[p], t.ds, inode, pos, fp, t'.fds[p], t'.ds)
  }

  /** `sys_do_close` of descriptor `f` by process `p`. */
  function AfterClose(t: Table, p: int, f: int): Table
    requires |t.ds| == DESCS && 0 <= p < |t.fds| && 0 <= f < |t.fds[p]|
    requires t.fds[p][f] == NULL || 0 <= t.fds[p][f] < DESCS
  {
    var k := t.fds[p][f];
    var u := WithFds(t, p, t.fds[p][f := NULL]);
    if k == NULL then u else u.(ds := u.ds[k := Closed(u.ds[k])])
  }

  /** `sys_fork` copies the descriptors with the rest of the PCB. */
  function AfterFork(t: Table, p: int, q: int): Table
    requires 0 <= p < |t.fds| && 0 <= q < |t.fds|
  {
    WithFds(t, q, t.fds[p])
  }

  ghost predicate NothingOpen(t: Table, p: int)
    requires 0 <= p < |t.fds|
  {
    forall f :: 0 <= f < |t.fds[p]| ==> t.fds[p][f] == NULL
  }

  lemma {:induction false} FewHolders(s: set<(int, int)>, n: nat)
    requires forall h :: h in s ==> 0 <= h.0 < n && 0 <= h.1 < FDS
    ensures |s| <= FDS * n
  {
    if n > 0 {
      var last := {(n - 1, 0), (n - 1, 1), (n - 1, 2), (n - 1, 3)};
      FewHolders(s - last, n - 1);
      assert |last| == 4 && |s * last| <= |last| by { CardinalityMonotone(s * last, last); }
      assert s == (s - last) + (s * last);
    } else {
      assert s == {} by { if h :| h in s { assert false; } }
    }
  }

  lemma OpenKeepsCounted(t: Table, p: int, inode: int, pos: int, fp: int, t': Table)
    requires OpenRel(t, p, inode, pos, fp, t') && Counted(t)
    ensures Shape(t') && Counted(t')
  {
    var k :| 0 <= k < |t.ds| && FirstFree(t.ds, k) && t'.fds[p] == t.fds[p][fp := k]
      && t'.ds == t.ds[k := Opened(t.ds[k], inode, pos)];
    forall j | 0 <= j < DESCS
      ensures t'.ds[j].refs == |Holders(t', j)| && (t'.ds[j].inode == NULL <==> t'.ds[j].refs == 0)
    {
      assert t.ds[j].refs == |Holders(t, j)|;
      if j == k {
        assert Holders(t', k) == Holders(t, k) + {(p, fp)};
        FewHolders(Holders(t', k), PROC_MAX);
      } else {
        assert Holders(t', j) == Holders(t, j);
      }
    }
  }

  lemma CloseKeepsCounted(t: Table, p: int, f: int)
    requires Shape(t) && Counted(t) && 0 <= p < PROC_MAX && 0 <= f < FDS
    ensures t.fds[p][f] == NULL || 0 <= t.fds[p][f] < DESCS
    ensures Shape(AfterClose(t, p, f)) && Counted(AfterClose(t, p, f))
  {
    assert FdsOk(t.fds[p]);
    var k, t' := t.fds[p][f], AfterClose(t, p, f);
    forall j | 0 <= j < DESCS
      ensures t'.ds[j].refs == |Holders(t', j)| && (t'.ds[j].inode == NULL <==> t'.ds[j].refs == 0)
    {
      assert t.ds[j].refs == |Holders(t, j)|;
      if j == k {
        assert (p, f) in Holders(t, k);
        assert Holders(t', k) == Holders(t, k) - {(p, f)};
        FewHolders(Holders(t, k), PROC_MAX);
      } else {
        assert Holders(t', j) == Holders(t, j);
      }
    }
  }

  /** Descriptors from `f` on of process `p` are closed, one after the other: from 0, the loop
      of `sys_exit`. */
  function AfterCloses(t: Table, p: int, f: nat): (u: Table)
    requires Shape(t) && 0 <= p < PROC_MAX && f <= FDS
    ensures Shape(u)
    decreases FDS - f
  {
    if f == FDS then t else
      assert FdsOk(t.fds[p]);
      AfterCloses(AfterClose(t, p, f), p, f + 1)
  }

  /** The loop leaves the process with nothing open, every other process with what it had, and
      every count right that was. */
  lemma {:induction false} ExitKeepsCounted(t: Table, p: int, f: nat)
    requires Shape(t) && 0 <= p < PROC_MAX && f <= FDS && forall g :: 0 <= g < f ==> t.fds[p][g] == NULL
    ensures var u := AfterCloses(t, p, f);
            && NothingOpen(u, p) && (forall q :: 0 <= q < PROC_MAX && q != p ==> u.fds[q] == t.fds[q])
            && (Counted(t) ==> Counted(u))
    decreases FDS - f
  {
    assert FdsOk(t.fds[p]);
    if f < FDS {
      if Counted(t) { CloseKeepsCounted(t, p, f); }
      ExitKeepsCounted(AfterClose(t, p, f), p, f + 1);
    }
  }

  /** A fork keeps the counts right exactly if the parent has nothing open. */
  lemma ForkKeepsCountedExactly(t: Table, p: int, q: int)
    requires Shape(t) && Counted(t) && 0 <= p < PROC_MAX && 0 <= q < PROC_MAX && p != q && NothingOpen(t, q)
    ensures Shape(AfterFork(t, p, q)) && (Counted(AfterFork(t, p, q)) <==> NothingOpen(t, p))
  {
    var t' := AfterFork(t, p, q);
    assert FdsOk(t.fds[p]) && FdsOk(t.fds[q]);
    assert Shape(t');
    if NothingOpen(t, p) {
      assert t.fds[q] == t.fds[p];
      assert t' == t;
    } else {
      var f :| 0 <= f < FDS && t.fds[p][f] != NULL;
      var k := t.fds[p][f];
      assert Holders(t, k) <= Holders(t', k);
      assert (q, f) in Holders(t', k) && (q, f) !in Holders(t, k);
      CardinalityMonotone(Holders(t, k) + {(q, f)}, Holders(t', k));
      assert t.ds[k].refs == |Holders(t, k)| && t'.ds[k] == t.ds[k];
    }
  }

  // ----- what becomes of an entry whose count is too low -----

  /** How many of the descriptors from `f` on name entry `k`. */
  function Naming(fds: seq<int>, k: int, f: nat): (n: nat)
    requires FdsOk(fds) && f <= FDS
    ensures n <= FDS - f
    decreases FDS - f
  {
    if f == FDS then 0 else (if fds[f] == k then 1 else 0) + Naming(fds, k, f + 1)
  }

  /** Each descriptor that is closed takes one from the count of its entry, which is free when
      none is left. */
  lemma {:induction false} ClosesTake(t: Table, p: int, k: int, f: nat)
    requires Shape(t) && 0 <= p < PROC_MAX && f <= FDS && 0 <= k < DESCS
    requires Naming(t.fds[p], k, f) <= t.ds[k].refs < WORD_LIMIT && (t.ds[k].inode == NULL <==> t.ds[k].refs == 0)
    ensures var d := AfterCloses(t, p, f).ds[k];
            && d.refs == t.ds[k].refs - Naming(t.fds[p], k, f)
            && d.inode == if d.refs == 0 then NULL else t.ds[k].inode
    decreases FDS - f
  {
    assert FdsOk(t.fds[p]);
    if f < FDS {
      var u := AfterClose(t, p, f);
      SameNaming(t.fds[p], u.fds[p], k, f + 1);
      ClosesTake(u, p, k, f + 1);
    }
  }

  lemma {:induction false} SameNaming(x: seq<int>, y: seq<int>, k: int, f: nat)
    requires FdsOk(x) && FdsOk(y) && f <= FDS && forall g :: f <= g < FDS ==> x[g] == y[g]
    ensures Naming(x, k, f) == Naming(y, k, f)
    decreases FDS - f
  {
    if f < FDS { SameNaming(x, y, k, f + 1); }
  }

  /** The descriptors of one process that name an entry, as a set. */
  lemma {:induction false} NamingCounts(t: Table, p: int, k: int, f: nat)
    requires Shape(t) && 0 <= p < PROC_MAX && f <= FDS
    ensures FdsOk(t.fds[p]) && |HoldersIn(t, p, k, f)| == Naming(t.fds[p], k, f)
    decreases FDS - f
  {
    assert FdsOk(t.fds[p]);
    if f < FDS {
      NamingCounts(t, p, k, f + 1);
      HoldersInStep(t, p, k, f);
    }
  }

  lemma HoldersInStep(t: Table, p: int, k: int, f: nat)
    requires Shape(t) && 0 <= p < PROC_MAX && f < FDS
    ensures FdsOk(t.fds[p])
    ensures HoldersIn(t, p, k, f) == HoldersIn(t, p, k, f + 1) + if t.fds[p][f] == k then {(p, f)} else {}
  {
    assert FdsOk(t.fds[p]);
  }

  ghost function HoldersIn(t: Table, p: int, k: int, f: nat): set<(int, int)>
    requires Shape(t)
  {
    set h | h in Holders(t, k) && h.0 == p && h.1 >= f
  }

  ghost predicate OnlyHeldBy(t: Table, p: int, k: int)
    requires Shape(t)
  {
    forall h :: h in Holders(t, k) ==> h.0 == p
  }

  /** A fork and the exit of the child: each entry loses as many counts as the parent has
      descriptors for it, so one that no other process has open is free, though the parent's
      descriptors still name it. */
  lemma ForkThenExitFrees(t: Table, p: int, q: int, k: int)
    requires Shape(t) && Counted(t) && 0 <= p < PROC_MAX && 0 <= q < PROC_MAX && p != q && NothingOpen(t, q)
    requires 0 <= k < DESCS && t.ds[k].inode != NULL
    ensures Shape(AfterFork(t, p, q)) && FdsOk(t.fds[p])
    ensures var u := AfterCloses(AfterFork(t, p, q), q, 0);
            && u.fds[p] == t.fds[p] && NothingOpen(u, q)
            && u.ds[k].refs == t.ds[k].refs - Naming(t.fds[p], k, 0)
            && (u.ds[k].inode == NULL <==> OnlyHeldBy(t, p, k))
  {
    var s := AfterFork(t, p, q);
    assert FdsOk(t.fds[p]);
    assert t.ds[k].refs == |Holders(t, k)|;
    NamingCounts(t, p, k, 0);
    var mine := HoldersIn(t, p, k, 0);
    CardinalityMonotone(mine, Holders(t, k));
    FewHolders(Holders(t, k), PROC_MAX);
    ClosesTake(s, q, k, 0);
    CloseAll(s, q);
    if OnlyHeldBy(t, p, k) {
      assert mine == Holders(t, k);
    } else {
      var h :| h in Holders(t, k) && h.0 != p;
      CardinalityMonotone(mine + {h}, Holders(t, k));
    }
  }

  lemma CloseAll(t: Table, p: int)
    requires Shape(t) && 0 <= p < PROC_MAX
    ensures var u := AfterCloses(t, p, 0);
            NothingOpen(u, p) && forall q :: 0 <= q < PROC_MAX && q != p ==> u.fds[q] == t.fds[q]
  {
    ExitKeepsCounted(t, p, 0);
  }

  /** The next open that takes such an entry turns the parent's descriptor to another file. */
  lemma OpenRedirects(t: Table, p: int, f: int, r: int, inode: int, pos: int, fp: int, t': Table)
    requires OpenRel(t, r, inode, pos, fp, t') && 0 <= p < PROC_MAX && 0 <= f < FDS && (p, f) != (r, fp)
    requires FdsOk(t.fds[p]) && t.fds[p][f] != NULL && FirstFree(t.ds, t.fds[p][f])
    ensures |t'.fds[p]| == FDS && t'.fds[p][f] == t.fds[p][f] && t'.ds[t'.fds[p][f]].inode == inode
    ensures t'.ds[t'.fds[p][f]].pos == pos
  {
  }

  // ----- an input -----

  /** Process 1 has one file open, inode 5. */
  function OneOpen(): (t: Table)
    ensures Shape(t)
  {
    Table(seq(DESCS, k => if k == 0 then Desc(5, 0, 1) else Desc(NULL, 0, 0)),
          seq(PROC_MAX, p => if p == 1 then [0, NULL, NULL, NULL] else [NULL, NULL, NULL, NULL]))
  }

  /** Its counts are right, but not once it has forked; and when the child has exited and
      process 3 opens inode 7, the descriptor of process 1 leads to inode 7. */
  lemma ForkMiscounts() returns (t: Table)
    ensures Counted(OneOpen()) && !Counted(AfterFork(OneOpen(), 1, 2))
    ensures OpenRel(AfterCloses(AfterFork(OneOpen(), 1, 2), 2, 0), 3, 7, 0, 0, t)
    ensures OneOpen().ds[OneOpen().fds[1][0]].inode == 5
    ensures t.fds[1] == OneOpen().fds[1] && t.ds[t.fds[1][0]].inode == 7
  {
    var s := OneOpen();
    forall k | 0 <= k < DESCS ensures s.ds[k].refs == |Holders(s, k)| {
      assert Holders(s, k) == if k == 0 then {(1, 0)} else {};
    }
    ForkKeepsCountedExactly(s, 1, 2);
    assert Holders(s, 0) == {(1, 0)};
    ForkThenExitFrees(s, 1, 2, 0);
    var u := AfterCloses(AfterFork(s, 1, 2), 2, 0);
    CloseAll(AfterFork(s, 1, 2), 2);
    assert FirstFree(u.ds, 0);
    t := Table(u.ds[0 := Opened(u.ds[0], 7, 0)], u.fds[3 := u.fds[3][0 := 0]]);
  }
}
