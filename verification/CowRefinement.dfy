/**
 Copy-on-write is invisible: over every run the machine of module Cow keeps its counts
 exact, and every process reads what it would read had fork copied every page.
 */
module CowRefinement {
  import opened Cow
  import opened MapLemmas

  lemma SoleMember(s: set<int>, p: int)
    requires p in s && |s| <= 1
    ensures s == {p}
  {
    var rest := s - {p};
    assert |rest| == 0;
  }

  lemma TwoMembers(s: set<int>, p: int, q: int)
    requires p in s && q in s && p != q
    ensures |s| >= 2
  {
    CardinalityMonotone({p, q}, s);
  }

  /** A page that is not allocated is mapped nowhere. */
  lemma Unused(m: Mem, a: int)
    requires Mapped(m) && a !in m.used
    ensures Sharers(m, a) == {}
    ensures forall p :: p in m.spaces ==> !MapsPage(m.spaces[p], a)
  {
    forall p | p in m.spaces ensures !MapsPage(m.spaces[p], a) {
      assert forall v :: v in m.spaces[p] ==> m.spaces[p][v].addr in m.used;
    }
  }

  // ----- what each step does to the processes that map a page -----

  lemma ReadOnlyMaps(s: Space, a: int)
    ensures MapsPage(ReadOnly(s), a) <==> MapsPage(s, a)
    ensures MapsPage(s, a) <==> a in Addrs(s)
  {
    assert forall v :: v in s ==> v in ReadOnly(s) && ReadOnly(s)[v].addr == s[v].addr;
  }

  lemma ForkSharers(m: Mem, p: int, q: int, m': Mem, a: int)
    requires ForkRel(m, p, q, m')
    ensures Sharers(m', a) == Sharers(m, a) + (if a in Addrs(m.spaces[p]) then {q} else {})
    ensures q !in Sharers(m, a) && (a in Addrs(m.spaces[p]) <==> p in Sharers(m, a))
  {
    ReadOnlyMaps(m.spaces[p], a);
    assert m'.spaces[p] == ReadOnly(m.spaces[p]) && m'.spaces[q] == ReadOnly(m.spaces[p]);
  }

  lemma FirstTouchSharers(m: Mem, p: int, v: int, page: Page, m': Mem, a: int)
    requires Mapped(m) && FirstTouchRel(m, p, v, page, m')
    ensures Sharers(m', a) == if a == m'.spaces[p][v].addr then {p} else Sharers(m, a)
    ensures Sharers(m, m'.spaces[p][v].addr) == {}
  {
    Unused(m, m'.spaces[p][v].addr);
    assert m'.spaces[p][v].addr == a ==> MapsPage(m'.spaces[p], a);
    assert forall w :: w in m.spaces[p] ==> w in m'.spaces[p] && m'.spaces[p][w] == m.spaces[p][w];
    assert a != m'.spaces[p][v].addr ==> (MapsPage(m.spaces[p], a) <==> MapsPage(m'.spaces[p], a));
  }

  lemma WriteFaultSharers(m: Mem, p: int, v: int, m': Mem, a: int)
    requires Mapped(m) && OnePlace(m) && WriteFaultRel(m, p, v, m')
    ensures var was, now := m.spaces[p][v].addr, m'.spaces[p][v].addr;
            Sharers(m', a) == if was == now then Sharers(m, a)
                              else if a == was then Sharers(m, a) - {p}
                              else if a == now then {p} else Sharers(m, a)
    ensures m'.spaces[p][v].addr != m.spaces[p][v].addr ==> Sharers(m, m'.spaces[p][v].addr) == {}
    ensures p in Sharers(m, m.spaces[p][v].addr)
  {
    var was, now := m.spaces[p][v].addr, m'.spaces[p][v].addr;
    assert MapsPage(m.spaces[p], was) && MapsPage(m'.spaces[p], now);
    assert forall w :: w in m'.spaces[p] <==> w in m.spaces[p];
    assert forall w :: w in m.spaces[p] && w != v ==> m'.spaces[p][w] == m.spaces[p][w];
    assert was != now ==> !MapsPage(m'.spaces[p], was);
    assert a != was && a != now ==> (MapsPage(m.spaces[p], a) <==> MapsPage(m'.spaces[p], a));
    if was != now { Unused(m, now); }
  }

  lemma DropSharers(m: Mem, p: int, m': Mem, a: int)
    requires DropRel(m, p, m')
    ensures Sharers(m', a) == Sharers(m, a) - {p}
    ensures p in Sharers(m, a) <==> a in Addrs(m.spaces[p])
  {
  }

  // ----- the counting invariant -----

  lemma ForkKeepsCounts(m: Mem, p: int, q: int, m': Mem)
    requires Sharing(m) && ForkRel(m, p, q, m')
    ensures Counted(m')
  {
    forall a ensures if a in m'.copies then m'.copies[a] == |Sharers(m', a)| >= 1 else |Sharers(m', a)| <= 1 {
      ForkSharers(m, p, q, m', a);
      if a in Addrs(m.spaces[p]) && a !in m.copies {
        SoleMember(Sharers(m, a), p);
        assert Sharers(m', a) == {p, q};
      }
    }
  }

  lemma ForkKeepsWritable(m: Mem, p: int, q: int, m': Mem)
    requires Sharing(m) && ForkRel(m, p, q, m')
    ensures WritableUnlessTracked(m')
  {
    forall r, v | r in m'.spaces && v in m'.spaces[r]
      ensures m'.spaces[r][v].writable <==> m'.spaces[r][v].addr !in m'.copies
    {
      var a := m'.spaces[r][v].addr;
      if r == p || r == q {
        assert a == m.spaces[p][v].addr;
      } else if a in Addrs(m.spaces[p]) && a !in m.copies {
        ForkSharers(m, p, q, m', a);
        assert r in Sharers(m, a);
        TwoMembers(Sharers(m, a), p, r);
      }
    }
  }

  /** The pages after a fork are those before it, at the same places. */
  lemma ForkKeepsPlaces(m: Mem, p: int, q: int, m': Mem)
    requires Sharing(m) && ForkRel(m, p, q, m')
    ensures Mapped(m') && OnePlace(m')
  {
    var ro := ReadOnly(m.spaces[p]);
    forall r, v | r in m'.spaces && v in m'.spaces[r]
      ensures var r0 := if r == q then p else r;
              && v in m.spaces[r0] && m'.spaces[r][v].addr == m.spaces[r0][v].addr
              && m'.spaces[r][v].present == m.spaces[r0][v].present
    {
      assert m'.spaces[r] == if r == q || r == p then ro else m.spaces[r];
    }
  }

  lemma ForkKeepsSharing(m: Mem, p: int, q: int, m': Mem)
    requires Sharing(m) && ForkRel(m, p, q, m')
    ensures Sharing(m')
  {
    ForkKeepsCounts(m, p, q, m');
    ForkKeepsWritable(m, p, q, m');
    ForkKeepsPlaces(m, p, q, m');
  }

  lemma FirstTouchKeepsSharing(m: Mem, p: int, v: int, page: Page, m': Mem)
    requires Sharing(m) && FirstTouchRel(m, p, v, page, m')
    ensures Sharing(m')
  {
    var target := m'.spaces[p][v].addr;
    forall a ensures if a in m'.copies then m'.copies[a] == |Sharers(m', a)| >= 1 else |Sharers(m', a)| <= 1 {
      FirstTouchSharers(m, p, v, page, m', a);
      assert a in m.copies ==> |Sharers(m, a)| >= 1;
    }
    assert target !in m.copies by {
      Unused(m, target);
      assert target in m.copies ==> |Sharers(m, target)| >= 1;
    }
    FirstTouchKeepsPlaces(m, p, v, page, m');
  }

  lemma FirstTouchKeepsPlaces(m: Mem, p: int, v: int, page: Page, m': Mem)
    requires Sharing(m) && FirstTouchRel(m, p, v, page, m')
    ensures Mapped(m') && OnePlace(m')
  {
    forall r, w | r in m'.spaces && w in m'.spaces[r] && (r != p || w != v)
      ensures w in m.spaces[r] && m'.spaces[r][w] == m.spaces[r][w]
      ensures m'.spaces[r][w].addr != m'.spaces[p][v].addr
    {
    }
  }

  lemma WriteFaultKeepsPlaces(m: Mem, p: int, v: int, m': Mem)
    requires Sharing(m) && WriteFaultRel(m, p, v, m')
    ensures Mapped(m') && OnePlace(m')
  {
    forall r, w | r in m'.spaces && w in m'.spaces[r] && (r != p || w != v)
      ensures w in m.spaces[r] && m'.spaces[r][w] == m.spaces[r][w]
      ensures w != v ==> m'.spaces[r][w].addr != m'.spaces[p][v].addr
    {
    }
  }

  lemma WriteFaultKeepsCounts(m: Mem, p: int, v: int, m': Mem)
    requires Sharing(m) && WriteFaultRel(m, p, v, m')
    ensures Counted(m')
  {
    var was, now := m.spaces[p][v].addr, m'.spaces[p][v].addr;
    assert m.copies[was] == |Sharers(m, was)|;
    forall a ensures if a in m'.copies then m'.copies[a] == |Sharers(m', a)| >= 1 else |Sharers(m', a)| <= 1 {
      WriteFaultSharers(m, p, v, m', a);
      assert if a in m.copies then m.copies[a] == |Sharers(m, a)| >= 1 else |Sharers(m, a)| <= 1;
    }
  }

  lemma WriteFaultKeepsWritable(m: Mem, p: int, v: int, m': Mem)
    requires Sharing(m) && WriteFaultRel(m, p, v, m')
    ensures WritableUnlessTracked(m')
  {
    var was, now := m.spaces[p][v].addr, m'.spaces[p][v].addr;
    WriteFaultSharers(m, p, v, m', was);
    assert m.copies[was] == |Sharers(m, was)|;
    if now != was {
      Unused(m, now);
      assert now in m.copies ==> |Sharers(m, now)| >= 1;
    }
    forall r, w | r in m'.spaces && w in m'.spaces[r] && (r != p || w != v)
      ensures m'.spaces[r][w].writable <==> m'.spaces[r][w].addr !in m'.copies
    {
      assert w in m.spaces[r] && m'.spaces[r][w] == m.spaces[r][w];
      if m'.spaces[r][w].addr == was {
        assert r in Sharers(m, was) && r != p;
        TwoMembers(Sharers(m, was), p, r);
      }
    }
  }

  lemma WriteFaultKeepsSharing(m: Mem, p: int, v: int, m': Mem)
    requires Sharing(m) && WriteFaultRel(m, p, v, m')
    ensures Sharing(m')
  {
    WriteFaultKeepsPlaces(m, p, v, m');
    WriteFaultKeepsCounts(m, p, v, m');
    WriteFaultKeepsWritable(m, p, v, m');
  }

  lemma DropKeepsCounts(m: Mem, p: int, m': Mem)
    requires Sharing(m) && DropRel(m, p, m')
    ensures Counted(m')
  {
    forall a ensures if a in m'.copies then m'.copies[a] == |Sharers(m', a)| >= 1 else |Sharers(m', a)| <= 1 {
      DropSharers(m, p, m', a);
      assert if a in m.copies then m.copies[a] == |Sharers(m, a)| >= 1 else |Sharers(m, a)| <= 1;
    }
  }

  lemma DropKeepsSharing(m: Mem, p: int, m': Mem)
    requires Sharing(m) && DropRel(m, p, m')
    ensures Sharing(m')
  {
    DropKeepsCounts(m, p, m');
    forall q, v | q in m'.spaces && v in m'.spaces[q]
      ensures v in m.spaces[q] && m'.spaces[q][v] == m.spaces[q][v] && m'.spaces[q][v].addr in m'.used
      ensures m'.spaces[q][v].writable <==> m'.spaces[q][v].addr !in m'.copies
    {
      var a := m'.spaces[q][v].addr;
      assert q in Sharers(m, a) && q != p;
      if p in Sharers(m, a) {
        TwoMembers(Sharers(m, a), p, q);
        assert a in m.copies && m.copies[a] >= 2;
      }
    }
  }

  /** Spawning, storing and reaping leave every mapping of the other spaces alone. */
  lemma SameMappingsKeepSharing(m: Mem, m': Mem)
    requires Sharing(m) && m'.copies == m.copies && m'.used == m.used && m.ram.Keys <= m'.ram.Keys
    requires forall p :: p in m'.spaces ==> m'.spaces[p] == map[] || (p in m.spaces && m'.spaces[p] == m.spaces[p])
    requires forall p :: p in m.spaces && m.spaces[p] != map[] ==> p in m'.spaces && m'.spaces[p] == m.spaces[p]
    ensures Sharing(m')
  {
    forall a ensures Sharers(m', a) == Sharers(m, a) {
      forall p ensures p in Sharers(m', a) <==> p in Sharers(m, a) {
        if p in Sharers(m, a) { assert m.spaces[p] != map[]; }
        if p in Sharers(m', a) { assert m'.spaces[p] != map[]; }
      }
    }
    forall a ensures if a in m'.copies then m'.copies[a] == |Sharers(m', a)| >= 1 else |Sharers(m', a)| <= 1 {
      assert if a in m.copies then m.copies[a] == |Sharers(m, a)| >= 1 else |Sharers(m, a)| <= 1;
    }
    forall p, v | p in m'.spaces && v in m'.spaces[p]
      ensures p in m.spaces && v in m.spaces[p] && m'.spaces[p][v] == m.spaces[p][v]
    {
    }
  }

  lemma SomePage(s: Space) returns (v: int)
    requires s != map[]
    ensures v in s
  {
    assert (forall w :: w !in s) ==> s == map[];
    v :| v in s;
  }

  lemma NoTablesNoPages(m: Mem, p: int)
    requires TablesCover(m) && p in m.spaces
    ensures m.tabs[p] == map[] ==> m.spaces[p] == map[]
  {
    if m.spaces[p] != map[] {
      var v := SomePage(m.spaces[p]);
      assert v / PTES in m.tabs[p];
    }
  }

  lemma NextKeepsSharing(m: Mem, step: Step, m': Mem)
    requires Inv(m) && Next(m, step, m')
    ensures Sharing(m')
  {
    match step
    case Fork(p, q) => ForkKeepsSharing(m, p, q, m');
    case FirstTouch(p, v, page) => FirstTouchKeepsSharing(m, p, v, page, m');
    case WriteFault(p, v) => WriteFaultKeepsSharing(m, p, v, m');
    case Drop(p) => DropKeepsSharing(m, p, m');
    case Spawn(p) => SameMappingsKeepSharing(m, m');
    case Store(p, v, offset, b) => SameMappingsKeepSharing(m, m');
    case Load(p, v, offset, b) =>
    case Reap(p) =>
      NoTablesNoPages(m, p);
      SameMappingsKeepSharing(m, m');
  }

  // ----- frame conservation -----

  /** Taking frames: the old roles stay, each new frame gets one new role. */
  lemma RolesAdded(m: Mem, m': Mem)
    requires OneRoleEach(m) && m.frames <= m'.frames
    requires forall r :: HasRole(m, r) ==> HasRole(m', r) && FrameOf(m', r) == FrameOf(m, r)
    requires forall r :: HasRole(m', r) && !HasRole(m, r) ==>
               KERNEL_FRAMES <= FrameOf(m', r) < POOL && FrameOf(m', r) in m'.frames - m.frames
    requires forall r, s :: HasRole(m', r) && !HasRole(m, r) && HasRole(m', s) && !HasRole(m, s) && r != s ==>
               FrameOf(m', r) != FrameOf(m', s)
    requires forall f :: f in m'.frames - m.frames ==> exists r :: Serves(m', r, f)
    ensures OneRoleEach(m')
  {
    forall f | f in m'.frames && !(0 <= f < KERNEL_FRAMES) ensures exists r :: Serves(m', r, f) {
      if f in m.frames {
        var r :| Serves(m, r, f);
        assert Serves(m', r, f);
      } else {
        assert f in m'.frames - m.frames;
      }
    }
  }

  /** Giving frames back: exactly the frames whose roles end. */
  lemma RolesRemoved(m: Mem, m': Mem)
    requires OneRoleEach(m) && m'.frames <= m.frames
    requires forall r :: HasRole(m', r) ==> HasRole(m, r) && FrameOf(m', r) == FrameOf(m, r)
    requires forall r :: HasRole(m, r) ==> (HasRole(m', r) <==> FrameOf(m, r) in m'.frames)
    requires forall f :: 0 <= f < KERNEL_FRAMES ==> f in m'.frames
    ensures OneRoleEach(m')
  {
    forall f | f in m'.frames && !(0 <= f < KERNEL_FRAMES) ensures exists r :: Serves(m', r, f) {
      var r :| Serves(m, r, f);
      assert Serves(m', r, f);
    }
  }

  lemma ForkRoles(m: Mem, p: int, q: int, m': Mem)
    requires Owned(m) && ForkRel(m, p, q, m')
    ensures forall r :: HasRole(m, r) ==> HasRole(m', r) && FrameOf(m', r) == FrameOf(m, r)
    ensures forall r :: HasRole(m', r) && !HasRole(m, r) ==>
              r == Directory(q) || (r.Table? && r.p == q && r.i in m'.tabs[q])
  {
    assert q !in m.dirs && q !in m.tabs;
  }

  /** The frames the fork took each serve the child. */
  lemma ForkServes(m: Mem, p: int, q: int, m': Mem, f: int)
    requires ForkRel(m, p, q, m') && f in m'.frames - m.frames
    ensures exists r :: Serves(m', r, f)
  {
    var d, t := m'.dirs[q], m'.tabs[q];
    if f == d {
      assert Serves(m', Directory(q), f);
    } else {
      var i :| i in t && t[i] == f;
      assert Serves(m', Table(q, i), f);
    }
  }

  lemma ForkKeepsRoles(m: Mem, p: int, q: int, m': Mem)
    requires Owned(m) && ForkRel(m, p, q, m')
    ensures OneRoleEach(m')
  {
    ForkRoles(m, p, q, m');
    forall f | f in m'.frames - m.frames ensures exists r :: Serves(m', r, f) {
      ForkServes(m, p, q, m', f);
    }
    RolesAdded(m, m');
  }

  lemma ForkKeepsCover(m: Mem, p: int, q: int, m': Mem)
    requires Owned(m) && ForkRel(m, p, q, m')
    ensures TablesCover(m')
  {
    assert m'.spaces.Keys == m.spaces.Keys + {q};
    assert m'.tabs[q].Keys == m.tabs[p].Keys;
    forall r, v | r in m'.spaces && v in m'.spaces[r]
      ensures 0 <= v < USER_PDES * PTES && v / PTES in m'.tabs[r]
    {
      var r0 := if r == q then p else r;
      assert v in m.spaces[r0];
    }
  }

  lemma ForkKeepsOwned(m: Mem, p: int, q: int, m': Mem)
    requires Owned(m) && ForkRel(m, p, q, m')
    ensures Owned(m')
  {
    ForkKeepsRoles(m, p, q, m');
    ForkKeepsCover(m, p, q, m');
  }

  lemma FirstTouchKeepsOwned(m: Mem, p: int, v: int, page: Page, m': Mem)
    requires Owned(m) && FirstTouchRel(m, p, v, page, m')
    ensures Owned(m')
  {
    FirstTouchKeepsRoles(m, p, v, page, m');
    FirstTouchKeepsCover(m, p, v, page, m');
  }

  lemma FirstTouchKeepsRoles(m: Mem, p: int, v: int, page: Page, m': Mem)
    requires Owned(m) && FirstTouchRel(m, p, v, page, m')
    ensures OneRoleEach(m')
  {
    var t := v / PTES;
    assert t !in m.tabs[p] ==> Serves(m', Table(p, t), m'.tabs[p][t]);
    RolesAdded(m, m');
  }

  lemma FirstTouchKeepsCover(m: Mem, p: int, v: int, page: Page, m': Mem)
    requires TablesCover(m) && FirstTouchRel(m, p, v, page, m')
    ensures TablesCover(m')
  {
    forall r, w | r in m'.spaces && w in m'.spaces[r] ensures 0 <= w < USER_PDES * PTES && w / PTES in m'.tabs[r] {
      assert (r == p && w == v) || w in m.spaces[r];
    }
  }

  lemma DropKeepsRoles(m: Mem, p: int, m': Mem)
    requires Owned(m) && DropRel(m, p, m')
    ensures OneRoleEach(m')
  {
    var dropped := TableFrames(m.tabs[p]);
    forall i | i in m.tabs[p] ensures HasRole(m, Table(p, i)) && m.tabs[p][i] == FrameOf(m, Table(p, i)) {}
    forall r | HasRole(m, r) ensures HasRole(m', r) <==> FrameOf(m, r) !in dropped {
      if FrameOf(m, r) in dropped {
        var i :| i in m.tabs[p] && m.tabs[p][i] == FrameOf(m, r);
        assert HasRole(m, Table(p, i));
      }
    }
    RolesRemoved(m, m');
  }

  lemma DropKeepsOwned(m: Mem, p: int, m': Mem)
    requires Owned(m) && DropRel(m, p, m')
    ensures Owned(m')
  {
    DropKeepsRoles(m, p, m');
    assert forall r, v :: r in m'.spaces && v in m'.spaces[r] ==> r != p && m'.spaces[r] == m.spaces[r];
  }

  lemma ReapKeepsOwned(m: Mem, p: int, m': Mem)
    requires Owned(m) && ReapRel(m, p, m')
    ensures Owned(m')
  {
    assert HasRole(m, Directory(p));
    RolesRemoved(m, m');
  }

  lemma SpawnKeepsOwned(m: Mem, p: int, m': Mem)
    requires Owned(m) && SpawnRel(m, p, m')
    ensures Owned(m')
  {
    assert Serves(m', Directory(p), m'.dirs[p]);
    RolesAdded(m, m');
  }

  /** A step that leaves directories and tables alone, and maps no new page number. */
  lemma SameTablesKeepOwned(m: Mem, m': Mem)
    requires Owned(m) && m'.dirs == m.dirs && m'.tabs == m.tabs && m'.frames == m.frames
    requires m'.spaces.Keys == m.spaces.Keys
    requires forall p :: p in m.spaces ==> m'.spaces[p].Keys == m.spaces[p].Keys
    ensures Owned(m')
  {
    RolesAdded(m, m');
    forall p, v | p in m'.spaces && v in m'.spaces[p] ensures 0 <= v < USER_PDES * PTES && v / PTES in m'.tabs[p] {
      assert v in m.spaces[p];
    }
  }

  lemma NextKeepsOwned(m: Mem, step: Step, m': Mem)
    requires Owned(m) && Next(m, step, m')
    ensures Owned(m')
  {
    match step
    case Fork(p, q) => ForkKeepsOwned(m, p, q, m');
    case FirstTouch(p, v, page) => FirstTouchKeepsOwned(m, p, v, page, m');
    case Drop(p) => DropKeepsOwned(m, p, m');
    case Spawn(p) => SpawnKeepsOwned(m, p, m');
    case Reap(p) => ReapKeepsOwned(m, p, m');
    case WriteFault(p, v) => SameTablesKeepOwned(m, m');
    case Store(p, v, offset, b) => SameTablesKeepOwned(m, m');
    case Load(p, v, offset, b) => SameTablesKeepOwned(m, m');
  }

  lemma NextKeepsInv(m: Mem, step: Step, m': Mem)
    requires Inv(m) && Next(m, step, m')
    ensures Inv(m')
  {
    NextKeepsSharing(m, step, m');
    NextKeepsOwned(m, step, m');
  }

  // ----- refinement of the eager machine -----

  lemma ReadOnlyView(s: Space, ram: map<int, Page>)
    ensures SpaceView(ReadOnly(s), ram) == SpaceView(s, ram)
  {
    assert forall v :: v in s <==> v in ReadOnly(s);
  }

  /** A store to a page the space does not map. */
  lemma RamChangedElsewhere(s: Space, ram: map<int, Page>, a: int, page: Page)
    requires !MapsPage(s, a)
    ensures SpaceView(s, ram[a := page]) == SpaceView(s, ram)
  {
    assert forall v :: v in s ==> s[v].addr != a;
  }

  /** A page number mapped to other contents. */
  lemma PageChanged(s: Space, s': Space, ram: map<int, Page>, v: int, page: Page)
    requires v in s' && forall w :: w in s && w != v ==> w in s' && s'[w] == s[w] && s[w].addr != s'[v].addr
    requires forall w :: w in s' && w != v ==> w in s
    ensures SpaceView(s', ram[s'[v].addr := page]) == Memory(SpaceView(s, ram).pages[v := page])
  {
    var now, was := SpaceView(s', ram[s'[v].addr := page]).pages, SpaceView(s, ram).pages;
    forall w | w != v ensures w in now <==> w in was {}
    assert forall w :: w in now <==> w in was[v := page];
    assert forall w :: w in now ==> now[w] == was[v := page][w];
  }

  /** Only process `p` sees a change. */
  lemma ViewChanged(m: Mem, m': Mem, p: int, own: Memory)
    requires m'.spaces.Keys == m.spaces.Keys + {p}
    requires forall r :: r in m.spaces && r != p ==>
               SpaceView(m'.spaces[r], m'.ram) == SpaceView(m.spaces[r], m.ram)
    requires SpaceView(m'.spaces[p], m'.ram) == own
    ensures View(m') == View(m)[p := own]
  {
    assert View(m').Keys == m'.spaces.Keys && View(m).Keys == m.spaces.Keys;
    AgreeElsewhere(View(m), View(m'), p, own);
  }

  lemma ForkRefines(m: Mem, p: int, q: int, m': Mem)
    requires ForkRel(m, p, q, m')
    ensures View(m') == View(m)[q := View(m)[p]]
  {
    var own := SpaceView(m.spaces[p], m.ram);
    ReadOnlyView(m.spaces[p], m.ram);
    assert m'.spaces[p] == ReadOnly(m.spaces[p]) && m'.spaces[q] == ReadOnly(m.spaces[p]) && m'.ram == m.ram;
    ViewChanged(m, m', q, own);
  }

  /** Overwriting a page only one process maps. */
  lemma PageWritten(m: Mem, p: int, v: int, page: Page, m': Mem)
    requires OnePlace(m) && p in m.spaces && v in m.spaces[p]
    requires Sharers(m, m.spaces[p][v].addr) == {p}
    requires m' == m.(ram := m.ram[m.spaces[p][v].addr := page])
    ensures View(m') == PutPage(View(m), p, v, page)
  {
    var a := m.spaces[p][v].addr;
    forall r | r in m.spaces && r != p ensures SpaceView(m.spaces[r], m'.ram) == SpaceView(m.spaces[r], m.ram) {
      assert r !in Sharers(m, a);
      RamChangedElsewhere(m.spaces[r], m.ram, a, page);
    }
    PageChanged(m.spaces[p], m.spaces[p], m.ram, v, page);
    ViewChanged(m, m', p, SpaceView(m.spaces[p], m'.ram));
  }

  lemma StoreRefines(m: Mem, p: int, v: int, offset: int, b: bv8, m': Mem)
    requires Sharing(m) && StoreRel(m, p, v, offset, b, m')
    ensures View(m') == PutPage(View(m), p, v, View(m)[p].pages[v][offset := b])
  {
    var a := m.spaces[p][v].addr;
    assert p in Sharers(m, a) by { assert MapsPage(m.spaces[p], a); }
    SoleMember(Sharers(m, a), p);
    PageWritten(m, p, v, m.ram[a][offset := b], m');
  }

  lemma WriteFaultRefines(m: Mem, p: int, v: int, m': Mem)
    requires Sharing(m) && WriteFaultRel(m, p, v, m')
    ensures View(m') == View(m)
  {
    var was, now := m.spaces[p][v].addr, m'.spaces[p][v].addr;
    var page: Page := m.ram[was];
    assert m'.ram == m.ram[now := page];
    forall r | r in m.spaces && r != p ensures SpaceView(m'.spaces[r], m'.ram) == SpaceView(m.spaces[r], m.ram) {
      if now != was {
        Unused(m, now);
        RamChangedElsewhere(m.spaces[r], m.ram, now, page);
      }
    }
    assert forall w :: w in m.spaces[p] && w != v ==> m.spaces[p][w].addr != was && m.spaces[p][w].addr != now;
    PageChanged(m.spaces[p], m'.spaces[p], m.ram, v, page);
    SameEntry(SpaceView(m.spaces[p], m.ram), v, page);
    ViewChanged(m, m', p, SpaceView(m.spaces[p], m.ram));
    SameSpace(View(m), p, SpaceView(m.spaces[p], m.ram));
  }

  lemma SameEntry(s: Memory, v: int, page: Page)
    requires v in s.pages && s.pages[v] == page
    ensures Memory(s.pages[v := page]) == s
  {
  }

  lemma SameSpace(e: Eager, p: int, s: Memory)
    requires p in e && e[p] == s
    ensures e[p := s] == e
  {
  }

  lemma FirstTouchRefines(m: Mem, p: int, v: int, page: Page, m': Mem)
    requires FirstTouchRel(m, p, v, page, m')
    ensures View(m') == PutPage(View(m), p, v, page)
  {
    assert SpaceView(m'.spaces[p], m.ram).pages == SpaceView(m.spaces[p], m.ram).pages[v := page];
    ViewChanged(m, m', p, SpaceView(m'.spaces[p], m.ram));
  }

  lemma SpawnAndDropRefine(m: Mem, p: int, m': Mem)
    requires SpawnRel(m, p, m') || DropRel(m, p, m')
    ensures View(m') == View(m)[p := Memory(map[])]
  {
    assert SpaceView(map[], m.ram).pages == map[];
    ViewChanged(m, m', p, Memory(map[]));
  }

  lemma ReapRefines(m: Mem, p: int, m': Mem)
    requires ReapRel(m, p, m')
    ensures View(m') == View(m) - {p}
  {
  }

  /** One step of the copy-on-write machine is the same step of the eager one. */
  lemma StepRefines(m: Mem, step: Step, m': Mem)
    requires Inv(m) && Next(m, step, m')
    ensures EagerNext(View(m), step, View(m'))
  {
    match step
    case Spawn(p) => SpawnAndDropRefine(m, p, m');
    case Fork(p, q) => ForkRefines(m, p, q, m');
    case FirstTouch(p, v, page) => FirstTouchRefines(m, p, v, page, m');
    case WriteFault(p, v) => WriteFaultRefines(m, p, v, m');
    case Load(p, v, offset, b) =>
    case Store(p, v, offset, b) => StoreRefines(m, p, v, offset, b, m');
    case Drop(p) => SpawnAndDropRefine(m, p, m');
    case Reap(p) => ReapRefines(m, p, m');
  }

  // ----- whole runs -----

  ghost predicate Run(ms: seq<Mem>, steps: seq<Step>) {
    && |ms| == |steps| + 1
    && Init(ms[0])
    && forall i :: 0 <= i < |steps| ==> Next(ms[i], steps[i], ms[i + 1])
  }

  ghost predicate EagerRun(es: seq<Eager>, steps: seq<Step>) {
    && |es| == |steps| + 1
    && es[0] == map[]
    && forall i :: 0 <= i < |steps| ==> EagerNext(es[i], steps[i], es[i + 1])
  }

  ghost function Views(ms: seq<Mem>): seq<Eager>
  {
    seq(|ms|, i requires 0 <= i < |ms| => View(ms[i]))
  }

  lemma InitInv(m: Mem)
    requires Init(m)
    ensures Inv(m)
  {
    forall a ensures Sharers(m, a) == {} {}
  }

  /** The counting and ownership invariants hold in every reachable state. */
  lemma {:induction false} RunKeepsInv(ms: seq<Mem>, steps: seq<Step>, n: nat)
    requires Run(ms, steps) && n < |ms|
    ensures forall i :: 0 <= i <= n ==> Inv(ms[i])
  {
    if n == 0 {
      InitInv(ms[0]);
    } else {
      RunKeepsInv(ms, steps, n - 1);
      NextKeepsInv(ms[n - 1], steps[n - 1], ms[n]);
    }
  }

  lemma RunStep(ms: seq<Mem>, steps: seq<Step>, i: nat)
    requires Run(ms, steps) && i < |steps|
    ensures Next(ms[i], steps[i], ms[i + 1])
    ensures Views(ms)[i] == View(ms[i]) && Views(ms)[i + 1] == View(ms[i + 1])
  {
  }

  lemma InitView(m: Mem)
    requires Init(m)
    ensures View(m) == map[]
  {
  }

  /** Main theorem: every run of the copy-on-write machine, seen through the eyes of its
      processes, is a run of the machine whose `fork` copies every page; in particular
      every load reads the same byte in both. */
  lemma CopyOnWriteRefinesEagerCopy(ms: seq<Mem>, steps: seq<Step>)
    requires Run(ms, steps)
    ensures forall i :: 0 <= i < |ms| ==> Inv(ms[i])
    ensures EagerRun(Views(ms), steps)
  {
    RunKeepsInv(ms, steps, |steps|);
    forall i | 0 <= i < |steps| ensures EagerNext(Views(ms)[i], steps[i], Views(ms)[i + 1]) {
      RunStep(ms, steps, i);
      StepRefines(ms[i], steps[i], ms[i + 1]);
    }
    InitView(ms[0]);
  }

  /** The eager machine has one run for a given sequence of steps, so the views of two
      copy-on-write runs with the same steps agree, whatever pages they allocate. */
  lemma {:induction false} EagerRunUnique(es: seq<Eager>, fs: seq<Eager>, steps: seq<Step>, n: nat)
    requires EagerRun(es, steps) && EagerRun(fs, steps) && n < |es|
    ensures es[..n + 1] == fs[..n + 1]
  {
    if n > 0 {
      EagerRunUnique(es, fs, steps, n - 1);
      assert es[n - 1] == es[..n][n - 1] == fs[..n][n - 1] == fs[n - 1];
      assert EagerNext(es[n - 1], steps[n - 1], es[n]);
      assert EagerNext(fs[n - 1], steps[n - 1], fs[n]);
    }
  }

  // ----- consequences -----

  /** In every state of every run: the count of a tracked page is the number of processes that
      map it, each at one page number only; an untracked page has at most one mapping; and a
      mapping can be written iff its page is untracked. */
  lemma CountsAreMappings(ms: seq<Mem>, steps: seq<Step>, n: nat, a: int)
    requires Run(ms, steps) && n <= |steps|
    ensures a in ms[n].copies ==> ms[n].copies[a] == |Sharers(ms[n], a)| >= 1
    ensures a !in ms[n].copies ==> |Sharers(ms[n], a)| <= 1
    ensures forall p, v {:trigger ms[n].spaces[p][v]} ::
              p in ms[n].spaces && v in ms[n].spaces[p] && ms[n].spaces[p][v].addr == a ==>
              p in Sharers(ms[n], a) && (ms[n].spaces[p][v].writable <==> a !in ms[n].copies)
    ensures forall p, v, w ::
              p in ms[n].spaces && v in ms[n].spaces[p] && w in ms[n].spaces[p] &&
              ms[n].spaces[p][v].addr == a == ms[n].spaces[p][w].addr ==>
                v == w
  {
    RunKeepsInv(ms, steps, n);
    var m := ms[n];
    assert if a in m.copies then m.copies[a] == |Sharers(m, a)| >= 1 else |Sharers(m, a)| <= 1;
    forall p, v | p in m.spaces && v in m.spaces[p] && m.spaces[p][v].addr == a ensures p in Sharers(m, a) {
      assert MapsPage(m.spaces[p], a);
    }
  }

  /** `sys_cleanup_memory` frees a page iff the mapping it drops was the last one anywhere. */
  lemma ReleasedExactlyAtLastUse(m: Mem, p: int, a: int)
    requires Inv(m) && p in m.spaces
    ensures a in Released(m, p) <==> Sharers(m, a) == {p}
  {
    assert p in Sharers(m, a) <==> a in Addrs(m.spaces[p]);
    assert if a in m.copies then m.copies[a] == |Sharers(m, a)| >= 1 else |Sharers(m, a)| <= 1;
    if p in Sharers(m, a) && |Sharers(m, a)| <= 1 {
      SoleMember(Sharers(m, a), p);
    }
  }

  /** The other processes keep their mappings and their contents, and none of their pages is freed. */
  lemma DropLeavesOthersAlone(m: Mem, p: int, m': Mem, q: int)
    requires Inv(m) && DropRel(m, p, m') && q in m.spaces && q != p
    ensures Sharing(m') && q in m'.spaces && m'.spaces[q] == m.spaces[q] && View(m')[q] == View(m)[q]
    ensures Addrs(m.spaces[q]) !! Released(m, p)
  {
    DropKeepsSharing(m, p, m');
    forall a | a in Addrs(m.spaces[q]) ensures a !in Released(m, p) {
      ReleasedExactlyAtLastUse(m, p, a);
      assert q in Sharers(m, a);
    }
  }

  /** A user write is never stuck: either the entry is writable, or the fault makes it so
      without changing what any process sees. */
  lemma WriteFaultUnblocksStore(m: Mem, p: int, v: int, m': Mem)
    requires Inv(m) && WriteFaultRel(m, p, v, m')
    ensures Inv(m') && m'.spaces[p][v].writable && View(m') == View(m)
    ensures m'.spaces[p][v].addr == m.spaces[p][v].addr <==> |Sharers(m, m.spaces[p][v].addr)| == 1
  {
    NextKeepsInv(m, WriteFault(p, v), m');
    WriteFaultRefines(m, p, v, m');
    var a := m.spaces[p][v].addr;
    assert a in m.copies && m.copies[a] == |Sharers(m, a)|;
    WriteFaultSharers(m, p, v, m', a);
  }

  /** The copy-on-write fault does not guard the kernel, whose writes ignore the write bit:
      one that changes a byte stays private to the process iff the page has one mapping. */
  lemma KernelWritePrivateIffUnshared(m: Mem, p: int, v: int, offset: int, b: bv8)
    requires Mapped(m) && OnePlace(m) && Counted(m) && InPage(m, p, v, offset)
    requires m.ram[m.spaces[p][v].addr][offset] != b
    ensures var a := m.spaces[p][v].addr;
            View(Poke(m, p, v, offset, b)) == PutPage(View(m), p, v, View(m)[p].pages[v][offset := b])
            <==> (a !in m.copies || m.copies[a] == 1)
  {
    var a, m' := m.spaces[p][v].addr, Poke(m, p, v, offset, b);
    assert p in Sharers(m, a) by { assert MapsPage(m.spaces[p], a); }
    if a !in m.copies || m.copies[a] == 1 {
      SoleMember(Sharers(m, a), p);
      PageWritten(m, p, v, m.ram[a][offset := b], m');
    } else {
      var q := OtherMember(Sharers(m, a), p);
      var w :| w in m.spaces[q] && m.spaces[q][w].addr == a;
      assert View(m')[q].pages[w][offset] == b != View(m)[q].pages[w][offset];
    }
  }

  lemma OtherMember(s: set<int>, p: int) returns (q: int)
    requires |s| >= 2
    ensures q in s && q != p
  {
    var rest := s - {p};
    assert (forall w :: w !in rest) ==> rest == {};
    assert rest != {} by { if rest == {} { CardinalityMonotone(s, {p}); } }
    q :| q in rest;
  }
}
