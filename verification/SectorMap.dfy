/**
 The sector map of fs/fs.c: each of its sectors has 512 bits in use, one for a data sector.
 */
module SectorMap {
  import opened Bitmap
  import opened CStrings
  import opened FileBlocks
  import opened DiskBlocks

  predicate HasValue(v: bv8, b: int) { v as int == b }

  /** Every byte is the value of a bit vector ... */
  lemma HasBits(b: int) returns (v: bv8)
    requires 0 <= b < 0x100
    ensures HasValue(v, b)
  {
    if b == 0 {
      v := 0;
    } else {
      var u := HasBits(b - 1);
      v := u + 1;
    }
  }

  lemma SomeBits(b: int)
    requires 0 <= b < 0x100
    ensures exists v :: HasValue(v, b)
  {
    var v := HasBits(b);
  }

  /** ... and of one only: the bits of the byte. */
  function BitsOf(b: int): (v: bv8)
    requires 0 <= b < 0x100
    ensures v as int == b
  {
    SomeBits(b);
    var v :| HasValue(v, b);
    v
  }

  lemma BitsOfValue(v: bv8)
    ensures 0 <= v as int < 0x100 && BitsOf(v as int) == v
  {
  }

  /** Bit `i` of a byte. */
  predicate BitOf(b: int, i: nat)
    requires i < 8
  {
    0 <= b < 0x100 && (BitsOf(b) >> i) & 1 == 1
  }

  /** The byte `set_bit` leaves. */
  function WithBit(b: int, i: nat, bit: Byte): (r: int)
    requires 0 <= b < 0x100 && i < 8 && bit <= 1
    ensures 0 <= r < 0x100
  {
    UpdatedByte(BitsOf(b), i, bit) as int
  }

  lemma WithBitBits(b: int, i: nat, bit: Byte, j: nat)
    requires 0 <= b < 0x100 && i < 8 && j < 8 && bit <= 1
    ensures BitOf(WithBit(b, i, bit), j) == if j == i then bit == 1 else BitOf(b, j)
  {
    UpdatedByteBits(BitsOf(b), i, bit, j);
    BitsOfValue(UpdatedByte(BitsOf(b), i, bit));
  }

  /** Bit `i` of a run of bytes. */
  predicate BitAt(s: seq<int>, i: int)
    requires 0 <= i < 8 * |s|
  {
    BitOf(s[i / 8], i % 8)
  }

  function BitSet(s: seq<int>, i: int, bit: Byte): (r: seq<int>)
    requires Bytes(s) && 0 <= i < 8 * |s| && bit <= 1
    ensures |r| == |s| && Bytes(r)
  {
    s[i / 8 := WithBit(s[i / 8], i % 8, bit)]
  }

  /** `set_bit` changes one bit. */
  lemma BitSetBits(s: seq<int>, i: int, bit: Byte, j: int)
    requires Bytes(s) && 0 <= i < 8 * |s| && 0 <= j < 8 * |s| && bit <= 1
    ensures BitAt(BitSet(s, i, bit), j) == if j == i then bit == 1 else BitAt(s, j)
  {
    if j / 8 == i / 8 {
      WithBitBits(s[i / 8], i % 8, bit, j % 8);
    }
  }

  // ----- the map on the disk -----

  /** Sectors `map` to `end` of the disk are a sector map. */
  ghost predicate IsMap(disk: seq<Sector>, start: int, end: int) {
    Sectors(disk) && 0 <= start <= end <= |disk| && forall b :: start <= b < end ==> Bytes(disk[b])
  }

  /** Data sector `s` is in use. */
  predicate Marked(disk: seq<Sector>, start: int, end: int, s: int) {
    && 0 <= s < SECTOR * (end - start) && 0 <= start <= end <= |disk| && |disk[start + s / SECTOR]| == SECTOR
    && BitAt(disk[start + s / SECTOR], s % SECTOR)
  }

  function Mark(disk: seq<Sector>, start: int, end: int, s: int): (r: seq<Sector>)
    requires IsMap(disk, start, end) && 0 <= s < SECTOR * (end - start)
    ensures |r| == |disk|
  {
    disk[start + s / SECTOR := BitSet(disk[start + s / SECTOR], s % SECTOR, 1)]
  }

  lemma MarkMarks(disk: seq<Sector>, start: int, end: int, s: int)
    requires IsMap(disk, start, end) && 0 <= s < SECTOR * (end - start)
    ensures IsMap(Mark(disk, start, end, s), start, end)
    ensures forall t :: Marked(Mark(disk, start, end, s), start, end, t) <==> t == s || Marked(disk, start, end, t)
  {
    forall t | 0 <= t < SECTOR * (end - start)
      ensures Marked(Mark(disk, start, end, s), start, end, t) <==> t == s || Marked(disk, start, end, t)
    {
      if t / SECTOR == s / SECTOR {
        BitSetBits(disk[start + s / SECTOR], s % SECTOR, 1, t % SECTOR);
      }
    }
  }

  /** `alloc_sector`: the first free data sector, or -1. */
  ghost predicate Allocated(was: seq<Sector>, now: seq<Sector>, start: int, end: int, r: int) {
    && IsMap(was, start, end)
    && if r == -1 then now == was && forall s :: 0 <= s < SECTOR * (end - start) ==> Marked(was, start, end, s)
       else
         && 0 <= r < SECTOR * (end - start) && !Marked(was, start, end, r)
         && (forall s :: 0 <= s < r ==> Marked(was, start, end, s))
         && now == Mark(was, start, end, r)
  }

  method AllocSector(d: Disk, start: int, end: int) returns (r: int)
    requires d.Valid() && IsMap(d.sectors, start, end)
    modifies d`sectors, d`buffer, d.store
    ensures d.Valid() && Allocated(old(d.sectors), d.sectors, start, end, r)
  {
    ghost var was := d.sectors;
    for block := start to end
      invariant d.Valid() && d.sectors == was
      invariant forall s :: 0 <= s < SECTOR * (block - start) ==> Marked(was, start, end, s)
    {
      d.ReadSector(block);
      for i := 0 to SECTOR
        invariant d.Valid() && d.sectors == was && d.buffer == was[block]
        invariant forall s :: 0 <= s < SECTOR * (block - start) + i ==> Marked(was, start, end, s)
      {
        ghost var s := SECTOR * (block - start) + i;
        assert start + s / SECTOR == block && s % SECTOR == i;
        if !BitAt(d.buffer, i) {
          d.buffer := BitSet(d.buffer, i, 1);
          d.WriteSector(block, d.buffer);
          return SECTOR * (block - start) + i;
        }
        assert Marked(was, start, end, s);
      }
    }
    return -1;
  }
}
