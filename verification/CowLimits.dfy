/**
 Where the sharing machine stops being invisible: a write fault on a page whose count `dec`
 does not find, and writes of the kernel.
 */
module CowLimits {
  import opened PhysicalPages
  import opened FrameCopyMap
  import opened Cow
  import opened CowRefinement

  // ----- a missed count -----

  /** The write fault over a table of copies: `dec` answers 0 and changes nothing if the key of
      the page is not in the slots it scans. */
  ghost predicate FaultOver(t: seq<Slot>, m: Mem, p: int, v: int, m': Mem)
    requires |t| == SLOTS
  {
    && p in m.spaces && v in m.spaces[p] && !m.spaces[p][v].writable
    && if HasKey(t, m.spaces[p][v].addr, 64) then WriteFaultRel(m, p, v, m')
       else m' == m.(spaces := m.spaces[p := m.spaces[p][v := m.spaces[p][v].(writable := true)]])
  }

  /** The page stays where it is, but for its write bit. */
  lemma MissedFaultKeepsPlaces(m: Mem, p: int, v: int, m': Mem)
    requires Inv(m) && p in m.spaces && v in m.spaces[p]
    requires m' == m.(spaces := m.spaces[p := m.spaces[p][v := m.spaces[p][v].(writable := true)]])
    ensures Mapped(m') && OnePlace(m') && Counted(m') && View(m') == View(m)
  {
    forall r, w | r in m'.spaces && w in m'.spaces[r]
      ensures w in m.spaces[r] && m'.spaces[r][w].addr == m.spaces[r][w].addr
      ensures m'.spaces[r][w].present == m.spaces[r][w].present
    {
    }
    forall a ensures Sharers(m', a) == Sharers(m, a) {
      forall r | r in m.spaces ensures MapsPage(m'.spaces[r], a) <==> MapsPage(m.spaces[r], a) {
        SameAddresses(m.spaces[r], m'.spaces[r], a);
      }
    }
    forall a ensures if a in m'.copies then m'.copies[a] == |Sharers(m', a)| >= 1 else |Sharers(m', a)| <= 1 {
      assert if a in m.copies then m.copies[a] == |Sharers(m, a)| >= 1 else |Sharers(m, a)| <= 1;
    }
    forall r | r in m.spaces ensures SpaceView(m'.spaces[r], m'.ram) == SpaceView(m.spaces[r], m.ram) {
    }
  }

  lemma SameAddresses(s: Space, s': Space, a: int)
    requires s'.Keys == s.Keys && forall v :: v in s ==> s'[v].addr == s[v].addr
    ensures MapsPage(s', a) <==> MapsPage(s, a)
  {
    if MapsPage(s, a) {
      var v :| v in s && s[v].addr == a;
      assert v in s' && s'[v].addr == a;
    }
  }

  /** The fault keeps tracked pages read-only exactly if the key of the page is in one of the
      first 64 slots. */
  lemma FaultKeepsWritableExactly(t: seq<Slot>, m: Mem, p: int, v: int, m': Mem)
    requires Inv(m) && ValidSlots(t) && Represents(t, m.copies) && FaultOver(t, m, p, v, m')
    ensures WritableUnlessTracked(m') <==> HasKey(t, m.spaces[p][v].addr, 64)
  {
    var a := m.spaces[p][v].addr;
    assert a in m.copies;
    if HasKey(t, a, 64) {
      WriteFaultKeepsWritable(m, p, v, m');
    } else {
      assert m'.spaces[p][v].writable && m'.spaces[p][v].addr in m'.copies;
    }
  }

  /** The store that follows stays private exactly if the key was there, or no other process
      maps the page. */
  lemma StoreAfterFaultPrivateExactly(t: seq<Slot>, m: Mem, p: int, v: int, m': Mem, offset: int, b: bv8)
    requires Inv(m) && ValidSlots(t) && Represents(t, m.copies) && FaultOver(t, m, p, v, m')
    requires InPage(m', p, v, offset) && m'.ram[m'.spaces[p][v].addr][offset] != b
    ensures StoreRel(m', p, v, offset, b, Poke(m', p, v, offset, b))
    ensures View(Poke(m', p, v, offset, b)) == PutPage(View(m'), p, v, View(m')[p].pages[v][offset := b])
            <==> HasKey(t, m.spaces[p][v].addr, 64) || Sharers(m, m.spaces[p][v].addr) == {p}
  {
    var a := m.spaces[p][v].addr;
    assert a in m.copies;
    assert m.copies[a] == |Sharers(m, a)| >= 1;
    assert p in Sharers(m, a) by { assert MapsPage(m.spaces[p], a); }
    if HasKey(t, a, 64) {
      WriteFaultUnblocksStore(m, p, v, m');
      WriteFaultKeepsWritable(m, p, v, m');
    } else {
      MissedFaultKeepsPlaces(m, p, v, m');
    }
    KernelWritePrivateIffUnshared(m', p, v, offset, b);
    if m.copies[a] == 1 { SoleMember(Sharers(m, a), p); }
  }

  // ----- a kernel write to a shared page -----

  const PAGE: Page := [0]

  /** Process 0 is set up, touches a page and forks process 2. */
  function Steps(): seq<Step> {
    [Spawn(0), FirstTouch(0, 0, PAGE), Fork(0, 2)]
  }

  function Spawned(ram: map<int, Page>): Mem {
    Mem(map[0 := 3], map[0 := map[]], {0, 1, 2, 3}, map[0 := map[]], map[], {}, ram)
  }

  function Touched(ram: map<int, Page>, a: int): Mem {
    Mem(map[0 := 3], map[0 := map[0 := 4]], {0, 1, 2, 3, 4}, map[0 := map[0 := Entry(true, true, a)]], map[], {a}, ram)
  }

  function Forked(ram: map<int, Page>, a: int): Mem {
    var s := map[0 := Entry(true, false, a)];
    Mem(map[0 := 3, 2 := 5], map[0 := map[0 := 4], 2 := map[0 := 6]], {0, 1, 2, 3, 4, 5, 6},
        map[0 := s, 2 := s], map[a := 2], {a}, ram)
  }

  lemma ForkedRel(ram: map<int, Page>, a: int)
    ensures ForkRel(Touched(ram, a), 0, 2, Forked(ram, a))
  {
    var m, m' := Touched(ram, a), Forked(ram, a);
    assert Addrs(m.spaces[0]) == {a} by { assert m.spaces[0][0].addr == a; }
    assert AddAll(m.copies, {a}) == map[a := 2];
    assert ReadOnly(m.spaces[0]) == map[0 := Entry(true, false, a)];
    assert TableFrames(m'.tabs[2]) == {6} by { assert m'.tabs[2][0] == 6; }
    assert NewFrames(5, m'.tabs[2]) == {5, 6};
  }

  /** A byte the kernel then writes for process 0 is seen by process 2. */
  lemma KernelWriteShows(ram: map<int, Page>, a: int) returns (ms: seq<Mem>)
    requires IsPage(a) && a in ram && ram[a] == PAGE
    ensures Run(ms, Steps()) && InPage(ms[3], 0, 0, 0)
    ensures var m, m' := ms[3], Poke(ms[3], 0, 0, 0, 1);
            && 2 in View(m) && 0 in View(m)[2].pages && View(m)[2].pages[0] == [0]
            && 2 in View(m') && 0 in View(m')[2].pages && View(m')[2].pages[0] == [1]
  {
    var init := Mem(map[], map[], {0, 1, 2}, map[], map[], {}, ram);
    ms := [init, Spawned(ram), Touched(ram, a), Forked(ram, a)];
    assert SpawnRel(ms[0], 0, ms[1]);
    assert FirstTouchRel(ms[1], 0, 0, PAGE, ms[2]);
    ForkedRel(ram, a);
  }
}
