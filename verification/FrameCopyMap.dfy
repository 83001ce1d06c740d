/**
 `frame_copy_map` of mem/paging.c: how many page tables share a frame. A slot whose key
 is 0 is free. `add` looks at all 128 slots, `dec` only at the first 64.
 */
module FrameCopyMap {
  import opened MapLemmas
  import opened PhysicalPages

  const SLOTS := 128
  const DEC_SLOTS := 64

  // ----- the counting map the two functions are meant to keep -----

  /** A frame that becomes shared starts with two mappings; each further fork adds one. */
  function AddTo(m: map<int, int>, key: int): map<int, int> {
    m[key := if key in m then m[key] + 1 else 2]
  }

  /** `add` for every key of a set, in any order. */
  ghost function AddAll(m: map<int, int>, keys: set<int>): map<int, int> {
    map k | k in m.Keys + keys ::
      if k !in keys then m[k] else if k in m then m[k] + 1 else 2
  }

  /** The count `dec` reports: the mappings left, or 0 for an untracked frame. */
  function DecResult(m: map<int, int>, key: int): int {
    if key in m && m[key] > 0 then m[key] - 1 else 0
  }

  /** One mapping fewer; the last one removes the key. */
  function DecFrom(m: map<int, int>, key: int): map<int, int> {
    if key !in m then m
    else if m[key] <= 1 then m - {key}
    else m[key := m[key] - 1]
  }

  /** `dec` for every key of a set, in any order. */
  ghost function DecAll(m: map<int, int>, keys: set<int>): map<int, int> {
    map k | k in m && (k in keys ==> m[k] > 1) :: if k in keys then m[k] - 1 else m[k]
  }

  lemma AddAllOne(m: map<int, int>, keys: set<int>, key: int)
    requires key !in keys
    ensures AddTo(AddAll(m, keys), key) == AddAll(m, keys + {key})
  {
  }

  /** Adding the keys one at a time never tracks more than adding them all. */
  lemma AddAllBounded(m: map<int, int>, some: set<int>, all: set<int>)
    requires some <= all
    ensures |AddAll(m, some)| <= |AddAll(m, all)|
  {
    assert AddAll(m, some).Keys == m.Keys + some && AddAll(m, all).Keys == m.Keys + all;
    CardinalityMonotone(m.Keys + some, m.Keys + all);
    assert |AddAll(m, some)| == |AddAll(m, some).Keys| && |AddAll(m, all)| == |AddAll(m, all).Keys|;
  }

  lemma DecAllOne(m: map<int, int>, keys: set<int>, key: int)
    requires key !in keys
    ensures DecFrom(DecAll(m, keys), key) == DecAll(m, keys + {key})
    ensures DecResult(DecAll(m, keys), key) == DecResult(m, key)
  {
    assert key in m <==> key in DecAll(m, keys);
  }

  // ----- the table -----

  datatype Slot = Slot(key: int, count: nat)

  /** The keys in use are distinct, and a key in use counts at least one mapping. */
  ghost predicate ValidSlots(t: seq<Slot>) {
    && |t| == SLOTS
    && (forall i :: 0 <= i < |t| && t[i].key != 0 ==> t[i].count >= 1)
    && (forall i, j :: 0 <= i < j < |t| && t[i].key != 0 ==> t[i].key != t[j].key)
  }

  ghost predicate HasKey(t: seq<Slot>, key: int, bound: nat)
    requires bound <= |t|
  {
    exists i :: 0 <= i < bound && t[i].key == key
  }

  /** `t` stands for the map `m`. */
  ghost predicate Represents(t: seq<Slot>, m: map<int, int>) {
    && (forall i :: 0 <= i < |t| && t[i].key != 0 ==> t[i].key in m && m[t[i].key] == t[i].count)
    && (forall k :: k in m ==> k != 0 && HasKey(t, k, |t|))
  }

  /** Every key in use sits where `dec` looks. */
  ghost predicate WithinReach(t: seq<Slot>) {
    forall i :: DEC_SLOTS <= i < |t| ==> t[i].key == 0
  }

  /** Within reach, `dec` sees every key there is. */
  lemma ReachSeesAll(t: seq<Slot>, m: map<int, int>, key: int)
    requires |t| == SLOTS && Represents(t, m) && WithinReach(t) && key != 0
    ensures HasKey(t, key, DEC_SLOTS) <==> key in m
  {
    if key in m {
      var i :| 0 <= i < |t| && t[i].key == key;
      assert i < DEC_SLOTS;
    }
  }

  /** The first slot from `i` on with a key, or the length of the table. */
  function SlotFrom(t: seq<Slot>, key: int, i: nat): (j: nat)
    requires i <= |t|
    ensures i <= j <= |t| && (j < |t| ==> t[j].key == key)
    ensures forall k :: i <= k < j ==> t[k].key != key
    decreases |t| - i
  {
    if i == |t| || t[i].key == key then i else SlotFrom(t, key, i + 1)
  }

  /** The table after `add`: the slot of the key counts one more, or the first free slot gets it. */
  function Added(t: seq<Slot>, key: int): (r: seq<Slot>)
    ensures |r| == |t|
  {
    var i, free := SlotFrom(t, key, 0), SlotFrom(t, 0, 0);
    if i < |t| then t[i := Slot(key, t[i].count + 1)]
    else if free < |t| then t[free := Slot(key, 2)]
    else t
  }

  // ----- stores to the table -----

  /** Storing a new count for the key of a slot. */
  lemma CountChanged(t: seq<Slot>, m: map<int, int>, i: nat, n: nat)
    requires ValidSlots(t) && Represents(t, m)
    requires i < |t| && t[i].key != 0 && n >= 1
    ensures ValidSlots(t[i := Slot(t[i].key, n)])
    ensures Represents(t[i := Slot(t[i].key, n)], m[t[i].key := n])
  {
    KeysKept(t, i, Slot(t[i].key, n));
  }

  /** Filling a free slot with a new key. */
  lemma KeyInserted(t: seq<Slot>, m: map<int, int>, i: nat, key: int, n: nat)
    requires ValidSlots(t) && Represents(t, m)
    requires i < |t| && t[i].key == 0
    requires key != 0 && n >= 1 && !HasKey(t, key, |t|)
    ensures ValidSlots(t[i := Slot(key, n)])
    ensures Represents(t[i := Slot(key, n)], m[key := n])
  {
    assert forall j :: 0 <= j < |t| ==> t[j].key != key;
    KeysKept(t, i, Slot(key, n));
  }

  /** Freeing a slot. */
  lemma KeyRemoved(t: seq<Slot>, m: map<int, int>, i: nat)
    requires ValidSlots(t) && Represents(t, m)
    requires i < |t| && t[i].key != 0
    ensures ValidSlots(t[i := Slot(0, 0)])
    ensures Represents(t[i := Slot(0, 0)], m - {t[i].key})
  {
    KeysKept(t, i, Slot(0, 0));
  }

  /** The keys of the other slots, and the new one, are still found. */
  lemma KeysKept(t: seq<Slot>, i: nat, s: Slot)
    requires i < |t|
    ensures forall k :: HasKey(t, k, |t|) && k != t[i].key ==> HasKey(t[i := s], k, |t|)
    ensures HasKey(t[i := s], s.key, |t|)
  {
    forall k | HasKey(t, k, |t|) && k != t[i].key ensures HasKey(t[i := s], k, |t|) {
      var j :| 0 <= j < |t| && t[j].key == k;
      assert t[i := s][j].key == k;
    }
    assert t[i := s][i].key == s.key;
  }

  // ----- 64 tracked frames are few enough for the shorter scan -----

  /** As many distinct keys as there are slots in use. */
  lemma {:induction false} DistinctKeys(t: seq<Slot>, n: nat)
    requires n <= |t|
    requires forall i :: 0 <= i < n ==> t[i].key != 0
    requires forall i, j :: 0 <= i < j < n ==> t[i].key != t[j].key
    ensures |set i | 0 <= i < n :: t[i].key| == n
  {
    if n > 0 {
      DistinctKeys(t, n - 1);
      var s := set i | 0 <= i < n - 1 :: t[i].key;
      assert (set i | 0 <= i < n :: t[i].key) == s + {t[n - 1].key};
    }
  }

  /** With fewer than 64 keys in use, one of the first 64 slots is free. */
  lemma FreeSlotWithinReach(t: seq<Slot>, m: map<int, int>)
    requires ValidSlots(t) && Represents(t, m) && |m| < DEC_SLOTS
    ensures exists i :: 0 <= i < DEC_SLOTS && t[i].key == 0
  {
    if forall i :: 0 <= i < DEC_SLOTS ==> t[i].key != 0 {
      DistinctKeys(t, DEC_SLOTS);
      CardinalityMonotone(set i | 0 <= i < DEC_SLOTS :: t[i].key, m.Keys);
    }
  }

  class CopyMap {
    const slots: array<Slot>
    ghost var contents: map<int, int>

    ghost predicate Valid()
      reads this, slots
    {
      && slots.Length == SLOTS
      && ValidSlots(slots[..])
      && Represents(slots[..], contents)
    }

    constructor ()
      ensures Valid() && fresh(slots)
      ensures contents == map[] && WithinReach(slots[..])
    {
      slots := new Slot[SLOTS](_ => Slot(0, 0));
      contents := map[];
    }

    /** `add`. The scan for a free slot covers the whole table, so only a full table
        stops it; the key stays within the reach of `dec` if at most 64 are in use. */
    method Add(key: int)
      requires Valid() && key != 0
      requires key in contents || HasKey(slots[..], 0, SLOTS)
      modifies this, slots
      ensures Valid()
      ensures slots[..] == Added(old(slots[..]), key) && contents == AddTo(old(contents), key)
      ensures old(WithinReach(slots[..])) && |contents| <= DEC_SLOTS ==> WithinReach(slots[..])
    {
      ghost var was := slots[..];
      for i := 0 to SLOTS
        invariant slots[..] == was && contents == old(contents)
        invariant !HasKey(was, key, i)
      {
        if slots[i].key == key {
          CountChanged(was, contents, i, was[i].count + 1);
          slots[i] := Slot(key, slots[i].count + 1);
          contents := contents[key := slots[i].count];
          assert slots[..] == was[i := slots[i]];
          return;
        }
      }
      for i := 0 to SLOTS
        invariant slots[..] == was && contents == old(contents)
        invariant !HasKey(was, 0, i)
      {
        if slots[i].key == 0 {
          KeyInserted(was, contents, i, key, 2);
          if |contents| < DEC_SLOTS {
            FreeSlotWithinReach(was, contents);
          }
          slots[i] := Slot(key, 2);
          contents := contents[key := 2];
          assert slots[..] == was[i := slots[i]];
          return;
        }
      }
      assert false;
    }

    /** `dec`, with the 64 slots it scans: a key beyond them goes unnoticed. */
    method Dec(key: int) returns (r: nat)
      requires Valid() && key != 0
      modifies this, slots
      ensures Valid()
      ensures old(WithinReach(slots[..])) ==>
                r == DecResult(old(contents), key) && contents == DecFrom(old(contents), key)
      ensures r == if old(HasKey(slots[..], key, DEC_SLOTS)) then DecResult(old(contents), key) else 0
      ensures contents == if old(HasKey(slots[..], key, DEC_SLOTS)) then DecFrom(old(contents), key)
                          else old(contents)
      ensures old(WithinReach(slots[..])) ==> WithinReach(slots[..])
    {
      ghost var was := slots[..];
      if WithinReach(was) { ReachSeesAll(was, contents, key); }
      for i := 0 to DEC_SLOTS
        invariant slots[..] == was && contents == old(contents)
        invariant !HasKey(was, key, i)
      {
        if slots[i].key == key {
          r := slots[i].count - 1;
          if r == 0 { KeyRemoved(was, contents, i); } else { CountChanged(was, contents, i, r); }
          slots[i] := Slot(if r == 0 then 0 else key, r);
          contents := DecFrom(contents, key);
          assert slots[..] == was[i := slots[i]];
          return;
        }
      }
      return 0;
    }
  }

  // ----- when the shorter scan of `dec` is harmless -----

  /** `dec` answers and does what the counting map asks iff the key is untracked or sits in one
      of the first 64 slots. */
  lemma DecAgreesExactlyWithinReach(t: seq<Slot>, m: map<int, int>, key: int)
    requires ValidSlots(t) && Represents(t, m) && key != 0
    ensures var seen := HasKey(t, key, 64);
            (if seen then DecResult(m, key) else 0) == DecResult(m, key) &&
            (if seen then DecFrom(m, key) else m) == DecFrom(m, key)
            <==> (!HasKey(t, key, 128) || seen)
  {
    if HasKey(t, key, SLOTS) {
      assert key in m;
      assert DecFrom(m, key) != m by {
        if m[key] > 1 { assert DecFrom(m, key)[key] != m[key]; }
      }
    }
  }

  /** The key of the `i`-th page. */
  function PageKey(i: nat): int {
    USER_SPACE_START + PAGE_SIZE * i
  }

  /** The table after `add` of the first `n` pages to the empty one ... */
  function AddedPages(n: nat): (t: seq<Slot>)
    ensures |t| == SLOTS
  {
    if n == 0 then seq(SLOTS, _ => Slot(0, 0)) else Added(AddedPages(n - 1), PageKey(n - 1))
  }

  /** ... and the counts it is to keep. */
  function CountedPages(n: nat): map<int, int> {
    if n == 0 then map[] else AddTo(CountedPages(n - 1), PageKey(n - 1))
  }

  function Filled(n: nat): (t: seq<Slot>)
    requires n <= SLOTS
  {
    seq(SLOTS, (i: nat) => if i < n then Slot(PageKey(i), 2) else Slot(0, 0))
  }

  lemma {:induction false} PagesFill(n: nat)
    requires n <= SLOTS
    ensures AddedPages(n) == Filled(n)
    ensures ValidSlots(Filled(n)) && Represents(Filled(n), CountedPages(n))
  {
    if n > 0 {
      PagesFill(n - 1);
      var t := Filled(n - 1);
      assert t[n - 1].key == 0;
      assert SlotFrom(t, PageKey(n - 1), 0) == SLOTS && SlotFrom(t, 0, 0) == n - 1;
      KeyInserted(t, CountedPages(n - 1), n - 1, PageKey(n - 1), 2);
      assert Filled(n) == t[n - 1 := Slot(PageKey(n - 1), 2)];
    }
  }

  /** Sixty-five shared pages are too many: when 65 or more have been added to an empty table,
      each from the 65th on is shared by two page tables, yet `dec` finds no count for it. */
  lemma LaterPagesAreMissed(n: nat, i: nat)
    requires 64 <= i < n <= 128
    ensures var t, m, key := AddedPages(n), CountedPages(n), PageKey(i);
            && IsPage(key) && ValidSlots(t) && Represents(t, m) && key in m && m[key] == 2
            && HasKey(t, key, 128) && !HasKey(t, key, 64)
  {
    PagesFill(n);
    assert Filled(n)[i] == Slot(PageKey(i), 2);
  }
}
