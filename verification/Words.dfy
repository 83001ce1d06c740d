/**
 Words in memory and on disk: 32 bits, low byte first.
 */
module Words {

  const WORD_LIMIT := 0x1_0000_0000
  const LBA_LIMIT := 0x1000_0000  // sector addresses have 28 bits

  predicate IsWord(w: int) { 0 <= w < WORD_LIMIT }

  /** Byte `k` of a word. */
  function ByteOf(w: int, k: int): (b: int)
    requires IsWord(w) && 0 <= k < 4
    ensures 0 <= b < 0x100
  {
    if k == 0 then w % 0x100
    else if k == 1 then w / 0x100 % 0x100
    else if k == 2 then w / 0x1_0000 % 0x100
    else w / 0x100_0000
  }

  function WordAt(m: seq<int>, p: int): int
    requires 0 <= p && p + 4 <= |m|
  {
    m[p] + 0x100 * m[p + 1] + 0x1_0000 * m[p + 2] + 0x100_0000 * m[p + 3]
  }

  lemma BytesMakeWord(w: int)
    requires IsWord(w)
    ensures ByteOf(w, 0) + 0x100 * ByteOf(w, 1) + 0x1_0000 * ByteOf(w, 2) + 0x100_0000 * ByteOf(w, 3) == w
  {
  }

  function Bytes4(w: int): (s: seq<int>)
    requires IsWord(w)
    ensures |s| == 4
  {
    [ByteOf(w, 0), ByteOf(w, 1), ByteOf(w, 2), ByteOf(w, 3)]
  }

  /** The bytes of a sequence of words. */
  function Encoded(ws: seq<int>): (s: seq<int>)
    requires forall i :: 0 <= i < |ws| ==> IsWord(ws[i])
    ensures |s| == 4 * |ws|
  {
    if |ws| == 0 then [] else Encoded(ws[..|ws| - 1]) + Bytes4(ws[|ws| - 1])
  }

  lemma WordOf4(w: int)
    requires IsWord(w)
    ensures WordAt(Bytes4(w), 0) == w
  {
    BytesMakeWord(w);
  }

  /** A word of a part of a buffer is a word of the buffer. */
  lemma SameWord(m: seq<int>, at: nat, e: seq<int>, p: nat)
    requires at + |e| <= |m| && m[at..at + |e|] == e && p + 4 <= |e|
    ensures WordAt(m, at + p) == WordAt(e, p)
  {
    forall k | p <= k < p + 4 ensures m[at + k] == e[k] {
      assert m[at..at + |e|][k] == e[k];
    }
    assert m[at + p + 1] == e[p + 1] && m[at + p + 2] == e[p + 2] && m[at + p + 3] == e[p + 3];
  }

  lemma {:induction false} EncodedWord(ws: seq<int>, i: nat)
    requires (forall j :: 0 <= j < |ws| ==> IsWord(ws[j])) && i < |ws|
    ensures WordAt(Encoded(ws), 4 * i) == ws[i]
  {
    var n := |ws| - 1;
    if i < n {
      EncodedWord(ws[..n], i);
      SameWord(Encoded(ws), 0, Encoded(ws[..n]), 4 * i);
    } else {
      WordOf4(ws[n]);
      SameWord(Encoded(ws), 4 * n, Bytes4(ws[n]), 0);
    }
  }

  /** The words read back where they were written. */
  lemma DecodesTo(m: seq<int>, at: nat, ws: seq<int>, i: nat)
    requires forall j :: 0 <= j < |ws| ==> IsWord(ws[j])
    requires i < |ws| && at + 4 * |ws| <= |m| && m[at..at + 4 * |ws|] == Encoded(ws)
    ensures WordAt(m, at + 4 * i) == ws[i]
  {
    EncodedWord(ws, i);
    SameWord(m, at, Encoded(ws), 4 * i);
  }
}
