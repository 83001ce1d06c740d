/**
 File names in directory entries: `split_name` takes a name apart at its last dot, and the
 loops of fs/fs.c put base, dot and extension together again.
 */
module FileNames {
  import opened Words
  import opened CStrings
  import opened FileBlocks
  import opened DiskBlocks

  const DOT := 46
  const ENTRY_BYTES := 16  // inode index, base[8], ext[4]
  const BASE := 4
  const EXT := 12

  /** The position of the last dot, or -1. */
  function LastDot(name: seq<int>): (d: int)
    ensures -1 <= d < |name|
    ensures d >= 0 ==> name[d] == DOT
    ensures forall i :: d < i < |name| ==> name[i] != DOT
  {
    if name == [] then -1 else if name[|name| - 1] == DOT then |name| - 1 else LastDot(name[..|name| - 1])
  }

  function BaseOf(name: seq<int>): seq<int> {
    if LastDot(name) == -1 then name else name[..LastDot(name)]
  }

  function ExtOf(name: seq<int>): seq<int> {
    if LastDot(name) == -1 then [] else name[LastDot(name) + 1..]
  }

  /** A name whose base, with the terminator after it, stays inside an entry. */
  predicate ValidName(name: seq<int>) {
    NoZero(name) && |BaseOf(name)| < ENTRY_BYTES - BASE
  }

  predicate TrailingDot(name: seq<int>) {
    name != [] && name[|name| - 1] == DOT
  }

  /** A name an entry has room for, without a dot at its end. */
  predicate Fits(name: seq<int>) {
    |BaseOf(name)| <= 7 && |ExtOf(name)| <= 3 && !TrailingDot(name)
  }

  function Cut(s: seq<int>, n: nat): (r: seq<int>)
    ensures |r| == if |s| <= n then |s| else n
    ensures NoZero(s) ==> NoZero(r)
  {
    if |s| <= n then s else s[..n]
  }

  /** The name an entry gets: base and extension cut to what there is room for, and no dot
      without an extension. */
  function StoredName(name: seq<int>): seq<int> {
    var base, ext := Cut(BaseOf(name), 7), Cut(ExtOf(name), 3);
    base + if ext != [] then [DOT] + ext else []
  }

  /** A name is its base, the dot and its extension. */
  lemma NameParts(name: seq<int>)
    ensures LastDot(name) == -1 ==> name == BaseOf(name) && ExtOf(name) == []
    ensures LastDot(name) >= 0 ==> name == BaseOf(name) + [DOT] + ExtOf(name)
    ensures TrailingDot(name) <==> LastDot(name) >= 0 && ExtOf(name) == []
  {
  }

  /** A part that is cut is shorter. */
  lemma CutShortens(s: seq<int>, n: nat)
    ensures |Cut(s, n)| <= |s| && (|Cut(s, n)| == |s| <==> |s| <= n) && (|s| <= n ==> Cut(s, n) == s)
  {
  }

  /** That is the name itself exactly if it fits. */
  lemma StoredNameFits(name: seq<int>)
    ensures StoredName(name) == name <==> Fits(name)
  {
    NameParts(name);
    var base, ext := BaseOf(name), ExtOf(name);
    CutShortens(base, 7);
    CutShortens(ext, 3);
    if LastDot(name) == -1 {
      assert StoredName(name) == Cut(base, 7);
    } else if ext == [] {
      assert |StoredName(name)| < |name|;
    } else {
      var stored := Cut(base, 7) + ([DOT] + Cut(ext, 3));
      assert StoredName(name) == stored && |stored| == |Cut(base, 7)| + 1 + |Cut(ext, 3)|;
      assert |name| == |base| + 1 + |ext| && base + ([DOT] + ext) == name;
    }
  }

  /** What is stored of a base and an extension: seven and three characters. */
  lemma StoredWithDot(base: seq<int>, ext: seq<int>)
    requires 46 !in ext
    ensures StoredName(base + [46] + ext) ==
            (if |base| <= 7 then base else base[..7]) +
            (if ext == [] then [] else [46] + if |ext| <= 3 then ext else ext[..3])
  {
    var name := base + [46] + ext;
    assert name[|base|] == DOT;
    forall i | |base| < i < |name| ensures name[i] != DOT { assert name[i] == ext[i - |base| - 1] && name[i] in ext; }
    assert LastDot(name) == |base|;
    assert BaseOf(name) == base && ExtOf(name) == ext;
  }

  lemma StoredWithoutDot(name: seq<int>)
    requires 46 !in name
    ensures StoredName(name) == if |name| <= 7 then name else name[..7]
  {
    forall i | 0 <= i < |name| ensures name[i] != DOT { assert name[i] in name; }
    assert LastDot(name) == -1;
  }

  // ----- an entry -----

  type Entry = seq<int>

  ghost predicate IsEntry(e: Entry) {
    |e| == ENTRY_BYTES && Terminated(e[BASE..EXT]) && Terminated(e[EXT..])
  }

  function Idx(e: Entry): int
    requires |e| == ENTRY_BYTES
  {
    WordAt(e, 0)
  }

  /** The name an entry holds. */
  function NameOf(e: Entry): seq<int>
    requires |e| == ENTRY_BYTES
  {
    Text(e[BASE..EXT]) + if e[EXT] != 0 then [DOT] + Text(e[EXT..]) else []
  }

  /** What `split_name` does to the base of an entry. A long base is cut, but its terminator is
      stored where the base would have ended. */
  function BaseInto(e: Entry, base: seq<int>): (r: Entry)
    requires |e| == ENTRY_BYTES && |base| < ENTRY_BYTES - BASE
    ensures |r| == ENTRY_BYTES
  {
    Put(e, BASE, Cut(base, 7))[BASE + |base| := 0][EXT - 1 := 0]
  }

  /** ... and to its extension: without a dot only the first byte is cleared. */
  function ExtInto(e: Entry, name: seq<int>): (r: Entry)
    requires |e| == ENTRY_BYTES
    ensures |r| == ENTRY_BYTES
  {
    if LastDot(name) == -1 then e[EXT := 0]
    else
      var ext := Cut(ExtOf(name), 3);
      Put(e, EXT, ext)[EXT + |ext| := 0][ENTRY_BYTES - 1 := 0]
  }

  /** What `split_name` makes of an entry. */
  function SplitInto(e: Entry, name: seq<int>): (r: Entry)
    requires |e| == ENTRY_BYTES && ValidName(name)
    ensures |r| == ENTRY_BYTES
  {
    ExtInto(BaseInto(e, BaseOf(name)), name)
  }

  lemma BaseHolds(e: Entry, base: seq<int>)
    requires |e| == ENTRY_BYTES && |base| < ENTRY_BYTES - BASE && NoZero(base)
    ensures var f := BaseInto(e, base)[BASE..EXT]; Terminated(f) && Text(f) == Cut(base, 7)
  {
    var f, cut := BaseInto(e, base)[BASE..EXT], Cut(base, 7);
    assert f[|cut|] == 0;
    assert f[..|cut|] == cut;
    TextOf(f, cut);
  }

  lemma ExtHolds(e: Entry, name: seq<int>)
    requires |e| == ENTRY_BYTES && NoZero(name)
    ensures var r, cut := ExtInto(e, name), Cut(ExtOf(name), 3);
            && Terminated(r[EXT..]) && Text(r[EXT..]) == cut && (r[EXT] == 0 <==> cut == [])
            && r[BASE..EXT] == e[BASE..EXT]
  {
    var r, cut := ExtInto(e, name), Cut(ExtOf(name), 3);
    assert r[EXT..][|cut|] == 0;
    assert r[EXT..][..|cut|] == cut;
    TextOf(r[EXT..], cut);
  }

  /** The entry holds the stored name, which is the name itself exactly if that fits. */
  lemma SplitJoin(e: Entry, name: seq<int>)
    requires |e| == ENTRY_BYTES && ValidName(name)
    ensures IsEntry(SplitInto(e, name)) && NameOf(SplitInto(e, name)) == StoredName(name)
    ensures NameOf(SplitInto(e, name)) == name <==> Fits(name)
  {
    BaseHolds(e, BaseOf(name));
    ExtHolds(BaseInto(e, BaseOf(name)), name);
    StoredNameFits(name);
  }

  lemma SameName(x: Entry, y: Entry)
    requires |x| == |y| == ENTRY_BYTES && x[BASE..] == y[BASE..]
    ensures NameOf(x) == NameOf(y)
  {
    assert x[BASE..EXT] == x[BASE..][..8] == y[BASE..][..8] == y[BASE..EXT];
    assert x[EXT..] == x[BASE..][8..] == y[BASE..][8..] == y[EXT..];
    assert x[EXT] == x[EXT..][0] && y[EXT] == y[EXT..][0];
  }

  /** So the split tells names apart. */
  lemma SplitInjective(e: Entry, f: Entry, name: seq<int>, other: seq<int>)
    requires |e| == |f| == ENTRY_BYTES && ValidName(name) && ValidName(other)
    requires Fits(name) && Fits(other)
    requires SplitInto(e, name)[BASE..] == SplitInto(f, other)[BASE..]
    ensures name == other
  {
    SplitJoin(e, name);
    SplitJoin(f, other);
    SameName(SplitInto(e, name), SplitInto(f, other));
  }

  // ----- split_name -----

  lemma LastDotStep(name: seq<int>, n: nat)
    requires n < |name|
    ensures LastDot(name[..n + 1]) == if name[n] == DOT then n else LastDot(name[..n])
  {
    assert name[..n + 1][..n] == name[..n];
  }

  /** The scan of `split_name`: the length of the name and its last dot. */
  method ScanName(m: seq<int>) returns (len: nat, dot: int)
    requires Terminated(m)
    ensures len == |Text(m)| && dot == LastDot(Text(m))
  {
    len, dot := 0, -1;
    TextAt(m, 0);
    while m[len] != 0
      invariant len <= |Text(m)| && len < |m| && (m[len] != 0 <==> len < |Text(m)|)
      invariant len < |Text(m)| ==> Text(m)[len] == m[len]
      invariant dot == LastDot(Text(m)[..len])
      decreases |m| - len
    {
      LastDotStep(Text(m), len);
      if m[len] == DOT { dot := len; }
      len := len + 1;
      TextAt(m, len);
    }
    assert Text(m)[..len] == Text(m);
  }

  /** One of its copying loops. */
  method CopyChars(d: Disk, at: nat, m: seq<int>, from: nat, n: nat)
    requires d.Valid() && from + n <= |m| && at + n <= SECTOR
    modifies d`buffer
    ensures d.Valid() && d.buffer == Put(old(d.buffer), at, m[from..from + n])
  {
    for i := 0 to n
      invariant d.Valid()
      invariant forall k :: 0 <= k < SECTOR ==>
                  d.buffer[k] == if at <= k < at + i then m[from + (k - at)] else old(d.buffer)[k]
    {
      d.buffer := d.buffer[at + i := m[from + i]];
    }
    assert d.buffer == Put(old(d.buffer), at, m[from..from + n]);
  }

  /** A store into a part of a buffer. */
  lemma PutInto(m: seq<int>, at: nat, n: nat, p: nat, s: seq<int>)
    requires at + n <= |m| && p + |s| <= n
    ensures Put(m, at + p, s) == Put(m, at, Put(m[at..at + n], p, s))
  {
  }

  /** Two stores to the same part, of which the second counts. */
  lemma PutAgain(m: seq<int>, at: nat, e: seq<int>, f: seq<int>)
    requires at + |e| <= |m| && |f| == |e|
    ensures Put(m, at, e)[at..at + |e|] == e && Put(Put(m, at, e), at, f) == Put(m, at, f)
  {
  }

  lemma ByteInto(m: seq<int>, at: nat, e: seq<int>, k: nat, b: int)
    requires at + |e| <= |m| && k < |e|
    ensures Put(m, at, e)[at + k := b] == Put(m, at, e[k := b])
  {
  }

  /** Characters and the two terminators of a field, stored into the entry at `at`. */
  method StoreField(d: Disk, at: nat, p: nat, m: seq<int>, from: nat, n: nat, end: nat, last: nat)
    requires d.Valid() && at + ENTRY_BYTES <= SECTOR && from + n <= |m| && p + n <= ENTRY_BYTES
    requires end < ENTRY_BYTES && last < ENTRY_BYTES
    modifies d`buffer
    ensures d.Valid()
    ensures d.buffer ==
            Put(old(d.buffer), at, Put(old(d.buffer)[at..at + ENTRY_BYTES], p, m[from..from + n])[end := 0][last := 0])
  {
    ghost var was, e := d.buffer, Put(d.buffer[at..at + ENTRY_BYTES], p, m[from..from + n]);
    CopyChars(d, at + p, m, from, n);
    PutInto(was, at, ENTRY_BYTES, p, m[from..from + n]);
    d.buffer := d.buffer[at + end := 0][at + last := 0];
    ByteInto(was, at, e, end, 0);
    ByteInto(was, at, e[end := 0], last, 0);
  }

  method StoreBase(d: Disk, at: nat, m: seq<int>, len: nat, dot: int)
    requires d.Valid() && at + ENTRY_BYTES <= SECTOR && Terminated(m) && ValidName(Text(m))
    requires len == |Text(m)| && dot == LastDot(Text(m))
    modifies d`buffer
    ensures d.Valid()
    ensures d.buffer == Put(old(d.buffer), at, BaseInto(old(d.buffer)[at..at + ENTRY_BYTES], BaseOf(Text(m))))
  {
    var k := if dot == -1 then len else dot;
    var n := Min(k, 7);
    assert m[0..0 + n] == Cut(BaseOf(Text(m)), 7);
    StoreField(d, at, BASE, m, 0, n, BASE + k, EXT - 1);
  }

  method StoreExt(d: Disk, at: nat, m: seq<int>, len: nat, dot: int)
    requires d.Valid() && at + ENTRY_BYTES <= SECTOR && Terminated(m)
    requires len == |Text(m)| && dot == LastDot(Text(m))
    modifies d`buffer
    ensures d.Valid()
    ensures d.buffer == Put(old(d.buffer), at, ExtInto(old(d.buffer)[at..at + ENTRY_BYTES], Text(m)))
  {
    if dot == -1 {
      d.buffer := d.buffer[at + EXT := 0];
      assert d.buffer == Put(old(d.buffer), at, old(d.buffer)[at..at + ENTRY_BYTES][EXT := 0]);
    } else {
      var n := Min(len - dot - 1, 3);
      assert m[dot + 1..dot + 1 + n] == Cut(ExtOf(Text(m)), 3);
      StoreField(d, at, EXT, m, dot + 1, n, EXT + n, ENTRY_BYTES - 1);
    }
  }

  /** `split_name`, on the entry at `at` of the sector buffer. */
  method SplitName(d: Disk, at: nat, m: seq<int>)
    requires d.Valid() && at + ENTRY_BYTES <= SECTOR && Terminated(m) && ValidName(Text(m))
    modifies d`buffer
    ensures d.Valid()
    ensures d.buffer == Put(old(d.buffer), at, SplitInto(old(d.buffer)[at..at + ENTRY_BYTES], Text(m)))
  {
    ghost var was, e := d.buffer, BaseInto(d.buffer[at..at + ENTRY_BYTES], BaseOf(Text(m)));
    var len, dot := ScanName(m);
    StoreBase(d, at, m, len, dot);
    StoreExt(d, at, m, len, dot);
    PutAgain(was, at, e, ExtInto(e, Text(m)));
  }
}
