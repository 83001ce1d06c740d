/**
 Directory and table entries as 32-bit words: what the bit operations of mem/paging.c do
 to the entries of module Cow. The present bit is bit 0 and the write bit is bit 1
 (section 4.3 of the Intel SDM, volume 3A).
 */
module PteBits {
  import opened Cow

  const WORD_ADDRS := 0x1000_0000  // beyond every address there is an entry for

  // ----- numbers and words -----

  function BitValue(b: bv32): nat { if b == 0 then 0 else 1 }

  /** The number a word is. */
  function Value(w: bv32): nat {
    if w == 0 then 0 else 2 * Value(w >> 1) + BitValue(w & 1)
  }

  function LowBit(n: nat): (b: bv32)
    ensures b <= 1 && BitValue(b) == n % 2
  {
    if n % 2 == 1 then 1 else 0
  }

  /** A word moved up by one place, with a bit put in. */
  function Push(x: bv32, bit: bv32): bv32 { (x << 1) | bit }

  /** The word for a number. */
  function WordOf(n: nat): bv32 {
    if n == 0 then 0 else Push(WordOf(n / 2), LowBit(n))
  }

  lemma PushedBack(x: bv32, bit: bv32)
    requires Less(x, 0x8000_0000) && bit <= 1
    ensures Push(x, bit) >> 1 == x && Push(x, bit) & 1 == bit && (Push(x, bit) == 0 ==> x == 0 && bit == 0)
  {
  }

  lemma PushedBelow(x: bv32, bit: bv32, b: bv32)
    requires Less(x, Half(b)) && bit <= 1 && Even(b)
    ensures Less(Push(x, bit), b) && Less(x, 0x8000_0000)
  {
  }

  predicate Less(x: bv32, b: bv32) { x < b }

  function Half(b: bv32): bv32 { b >> 1 }

  predicate Even(b: bv32) { b & 1 == 0 && b != 0 }

  /** `m` and `b` are the same power of two. */
  predicate Power(m: nat, b: bv32) {
    if m == 1 then b == 1 else m > 1 && m % 2 == 0 && Even(b) && Power(m / 2, Half(b))
  }

  lemma BelowStep(n: nat, h: nat, x: bv32, bit: bv32, b: bv32)
    requires n > 0 && h == n / 2 && bit == LowBit(n) && x == WordOf(h) && Less(x, Half(b)) && Even(b)
    ensures Less(WordOf(n), b)
  {
    PushedBelow(x, bit, b);
  }

  lemma {:induction false} WordBelow(n: nat, m: nat, b: bv32)
    requires Power(m, b) && n < m
    ensures Less(WordOf(n), b)
    decreases m
  {
    if m > 1 && n > 0 {
      WordBelow(n / 2, m / 2, Half(b));
      BelowStep(n, n / 2, WordOf(n / 2), LowBit(n), b);
    } else if m > 1 {
      ZeroBelow(b);
    }
  }

  lemma ZeroBelow(b: bv32)
    requires Even(b)
    ensures Less(WordOf(0), b)
  {
  }

  lemma PushedValue(x: bv32, bit: bv32)
    requires Less(x, 0x8000_0000) && bit <= 1
    ensures Value(Push(x, bit)) == 2 * Value(x) + BitValue(bit)
  {
    PushedBack(x, bit);
  }

  lemma ValueStep(n: nat, h: nat, x: bv32, bit: bv32)
    requires n > 0 && h == n / 2 && bit == LowBit(n) && x == WordOf(h) && Less(x, 0x8000_0000) && Value(x) == h
    ensures Value(WordOf(n)) == n
  {
    PushedValue(x, bit);
  }

  lemma HalfWordBelow(n: nat, m: nat, b: bv32)
    requires Power(m, b) && 0 < n < m
    ensures Power(m / 2, Half(b)) && n / 2 < m / 2 && Less(WordOf(n / 2), 0x8000_0000)
  {
    WordBelow(n / 2, m / 2, Half(b));
    PushedBelow(WordOf(n / 2), 0, b);
  }

  lemma {:induction false} ValueOfWord(n: nat, m: nat, b: bv32)
    requires Power(m, b) && n < m
    ensures Value(WordOf(n)) == n
    decreases m
  {
    if n > 0 {
      HalfWordBelow(n, m, b);
      ValueOfWord(n / 2, m / 2, Half(b));
      ValueStep(n, n / 2, WordOf(n / 2), LowBit(n));
    }
  }

  lemma Times2(m: nat, b: bv32)
    requires Power(m, b) && Less(b, 0x8000_0000) && b != 0
    ensures Power(2 * m, b << 1)
  {
    ShiftedEven(b);
  }

  lemma ShiftedEven(b: bv32)
    requires Less(b, 0x8000_0000) && b != 0
    ensures Even(b << 1) && Half(b << 1) == b
  {
  }

  lemma AddrsArePower()
    ensures Power(WORD_ADDRS, 0x1000_0000)
  {
    Times2(0x1, 0x1);
    Times2(0x2, 0x2);
    Times2(0x4, 0x4);
    Times2(0x8, 0x8);
    Times2(0x10, 0x10);
    Times2(0x20, 0x20);
    Times2(0x40, 0x40);
    Times2(0x80, 0x80);
    Times2(0x100, 0x100);
    Times2(0x200, 0x200);
    Times2(0x400, 0x400);
    Times2(0x800, 0x800);
    Times2(0x1000, 0x1000);
    Times2(0x2000, 0x2000);
    Times2(0x4000, 0x4000);
    Times2(0x8000, 0x8000);
    Times2(0x1_0000, 0x1_0000);
    Times2(0x2_0000, 0x2_0000);
    Times2(0x4_0000, 0x4_0000);
    Times2(0x8_0000, 0x8_0000);
    Times2(0x10_0000, 0x10_0000);
    Times2(0x20_0000, 0x20_0000);
    Times2(0x40_0000, 0x40_0000);
    Times2(0x80_0000, 0x80_0000);
    Times2(0x100_0000, 0x100_0000);
    Times2(0x200_0000, 0x200_0000);
    Times2(0x400_0000, 0x400_0000);
    Times2(0x800_0000, 0x800_0000);
  }

  lemma LowBitsClear(x: bv32)
    ensures (((x << 4) << 4) << 4) & 0xfff == 0
  {
  }

  lemma FourShifts(x: bv32)
    ensures (((x << 1) << 1) << 1) << 1 == x << 4
  {
  }

  lemma OrThree(w: bv32)
    requires w & 0xfff == 0
    ensures (w | 3) & 0xfffff000 == w && (w | 3) & 1 == 1 && (w | 3) & 2 == 2
  {
  }

  lemma OrSeven(w: bv32)
    requires w & 0xfff == 0
    ensures (w | 7) & 0xfffff000 == w && (w | 7) & 1 == 1 && (w | 7) & 2 == 2
  {
  }

  /** The address of a page or a frame. */
  predicate IsAligned(addr: int) {
    0 <= addr < WORD_ADDRS && addr % 0x1000 == 0
  }

  lemma DoubledStep(d: nat, n: nat, x: bv32)
    requires d == 2 * n && x == WordOf(n)
    ensures WordOf(d) == Push(x, 0)
  {
  }

  lemma PushedZero(x: bv32)
    ensures Push(x, 0) == x << 1
  {
  }

  lemma Doubled(n: nat)
    ensures WordOf(2 * n) == WordOf(n) << 1
  {
    DoubledStep(2 * n, n, WordOf(n));
    PushedZero(WordOf(n));
  }

  lemma Sixteenfold(n: nat)
    ensures WordOf(16 * n) == WordOf(n) << 4
  {
    Doubled(n);
    Doubled(2 * n);
    Doubled(4 * n);
    Doubled(8 * n);
    FourShifts(WordOf(n));
  }

  /** The word of such an address has its low 12 bits clear ... */
  lemma AlignedWord(addr: int)
    requires IsAligned(addr)
    ensures WordOf(addr) & 0xfff == 0
  {
    var k := addr / 0x1000;
    Sixteenfold(k);
    Sixteenfold(16 * k);
    Sixteenfold(0x100 * k);
    LowBitsClear(WordOf(k));
  }

  /** ... and stands for it. */
  lemma AlignedValue(addr: int)
    requires IsAligned(addr)
    ensures Value(WordOf(addr)) == addr
  {
    AddrsArePower();
    ValueOfWord(addr, WORD_ADDRS, 0x1000_0000);
  }

  /** The entry a word stands for. */
  function Decode(w: bv32): Entry {
    Entry(w & 1 == 1, w & 2 == 2, Value(w & 0xfffff000))
  }

  lemma NoEntry()
    ensures Decode(0) == Entry(false, false, 0)
  {
  }

  lemma PresentWord(w: bv32)
    requires w & 0xfff == 0
    ensures Decode(w | 7) == Entry(true, true, Value(w))
  {
    OrSeven(w);
  }

  /** `addr | 0b111`, for the address of a page or a frame. */
  lemma FreshEntry(addr: int)
    requires IsAligned(addr)
    ensures Decode(WordOf(addr) | 7) == Entry(true, true, addr)
  {
    AlignedWord(addr);
    AlignedValue(addr);
    PresentWord(WordOf(addr));
  }

  lemma KernelWord(w: bv32)
    requires w & 0xfff == 0
    ensures Decode(w | 3) == Entry(true, true, Value(w))
  {
    OrThree(w);
  }

  /** `addr | 0b11`, for a page of the kernel. */
  lemma KernelEntryWord(addr: int)
    requires IsAligned(addr)
    ensures Decode(WordOf(addr) | 3) == Entry(true, true, addr)
  {
    AlignedWord(addr);
    AlignedValue(addr);
    KernelWord(WordOf(addr));
  }

  /** `entry & 0xfffffffd` takes the write bit and nothing else. */
  lemma WriteProtected(w: bv32)
    ensures Decode(w & 0xfffffffd) == Decode(w).(writable := false)
  {
    assert (w & 0xfffffffd) & 0xfffff000 == w & 0xfffff000;
  }

  /** `entry |= 0b10` gives it back. */
  lemma WriteEnabled(w: bv32)
    ensures Decode(w | 2) == Decode(w).(writable := true)
  {
    assert (w | 2) & 0xfffff000 == w & 0xfffff000;
  }
}
