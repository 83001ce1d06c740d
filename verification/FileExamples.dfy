/**
 Inputs on which the file system does not do what it seems meant to do.
 */
module FileExamples {
  import opened FileBlocks
  import opened Volume
  import opened Ownership
  import opened Growth
  import opened FileNames
  import opened FileWrites
  import opened Directory
  import opened FileCreation
  import opened Formatting
  import opened FileRuns

  const A := 97

  /** The smallest disk that can be formatted has room for the directory and nothing else. */
  lemma FormatSmallest() returns (v: Vol)
    ensures FreshDisk(v) && Inv(v) && |v.disk| == 52 == v.meta.dataStart + 2
    ensures (forall i :: Live(v, i) <==> i == 0) && forall name :: Lookup(v, name) == NONE
  {
    var was := seq(52, _ => Zeros());
    LayoutIsMeta(52);
    var now := seq(52, (s: nat) requires s < 52 => FormattedSector(was, Layout(52), s));
    assert Formatted(was, now);
    FormatStarts(was, now);
    v := Loaded(now, Layout(|now|));
    forall i ensures Live(v, i) <==> i == 0 { FormattedLive(was, now, i); }
  }

  /** Creating "a." makes a file "a"; "a." is not found, so opening it again to create it makes
      a second entry with the name "a". */
  lemma DotNameIsLost() returns (v: Vol, i: int, x: Vol, j: int, y: Vol)
    ensures FreshDisk(v) && Inv(v) && CreateOk(v, [A, DOT], i, x)
    ensures Inv(x) && Lookup(x, [A]) == i && Lookup(x, [A, DOT]) == NONE
    ensures CreateOk(x, [A, DOT], j, y) && !Inv(y)
  {
    v := FormatSmallest();
    assert LastDot([A, DOT]) == 1;
    assert StoredName([A, DOT]) == [A];
    i, x := CreateCan(v, [A, DOT], 1);
    CreateIsSafe(v, [A, DOT], i, x);
    CreateFoundExactly(v, [A, DOT], i, x);
    var free := if i == 1 then 2 else 1;
    CreateLive(v, [A, DOT], i, x, free);
    j, y := CreateCan(x, [A, DOT], free);
    CreateSafeExactly(x, [A, DOT], j, y);
  }

  lemma NoSectorLeft(x: Vol)
    requires Sound(x) && |x.disk| == 52 == x.meta.dataStart + 2
    ensures FreeSectors(x) == 0
  {
    assert HasBlock(x, 0, 0) && Ptr(x, 0, 0) == 0 && HasBlock(x, 0, 1) && Ptr(x, 0, 1) == 1;
    assert FreeSet(x) == {};
  }

  /** On that disk every data sector is in use from the start. A byte written to a new file goes
      to a sector past the end: the file has a block that is no sector of the disk. */
  lemma DiskTooSmall() returns (v: Vol, i: int, x: Vol, y: Vol)
    ensures FreshDisk(v) && Inv(v) && CreateOk(v, [A], i, x) && Inv(x)
    ensures InFile(x, i, Span(0, [1])) && WriteEnds(x, i, Span(0, [1]), y) && !Owned(y)
  {
    v := FormatSmallest();
    assert LastDot([A]) == -1;
    i, x := CreateCan(v, [A], 1);
    CreateIsSafe(v, [A], i, x);
    CreateKeepsSuper(v, [A], i, x);
    y := WriteByte(x, i);
  }

  lemma WriteByte(x: Vol, i: int) returns (y: Vol)
    requires Inv(x) && Live(x, i) && i != 0 && FileBytes(x, i) == [] && x.inodes[i].count == 0
    requires |x.disk| == 52 == x.meta.dataStart + 2
    ensures InFile(x, i, Span(0, [1])) && WriteEnds(x, i, Span(0, [1]), y) && !Owned(y)
  {
    var w := Span(0, [1]);
    assert |FileBytes(x, i)| == x.inodes[i].size == 0;
    NoSectorLeft(x);
    StoresFormed(x, i, w);
    y := AfterSync(StoredFile(Grow(x, i, w.Last()), i, w));
    OrderedExactlyIfCovered(x, i, w, y);
  }
}
