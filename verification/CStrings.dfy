/**
 The string functions of sys/user/utils.c. A byte is a number below 256; a string is the
 bytes of a buffer up to the first 0.
 */
module CStrings {

  ghost predicate IsByte(b: int) { 0 <= b < 0x100 }

  ghost predicate Bytes(s: seq<int>) {
    forall i :: 0 <= i < |s| ==> IsByte(s[i])
  }

  predicate NoZero(s: seq<int>) {
    forall i :: 0 <= i < |s| ==> s[i] != 0
  }

  predicate Terminated(m: seq<int>) {
    exists i :: 0 <= i < |m| && m[i] == 0
  }

  /** The string a buffer holds. */
  function Text(m: seq<int>): (s: seq<int>)
    ensures |s| <= |m| && s == m[..|s|] && NoZero(s)
    ensures |s| < |m| ==> m[|s|] == 0
    ensures Terminated(m) ==> |s| < |m|
  {
    if |m| == 0 || m[0] == 0 then [] else [m[0]] + Text(m[1..])
  }

  /** A buffer that starts with a string and its terminator holds that string. */
  lemma {:induction false} TextOf(m: seq<int>, s: seq<int>)
    requires NoZero(s) && |s| < |m| && m[..|s|] == s && m[|s|] == 0
    ensures Text(m) == s
  {
    if |s| > 0 {
      assert m[0] == m[..|s|][0];
      assert m[1..][..|s| - 1] == s[1..];
      TextOf(m[1..], s[1..]);
    }
  }

  /** A buffer after bytes are stored at `at`. */
  function Put(m: seq<int>, at: nat, s: seq<int>): (r: seq<int>)
    requires at + |s| <= |m|
    ensures |r| == |m|
    ensures forall i :: 0 <= i < |m| ==> r[i] == if at <= i < at + |s| then s[i - at] else m[i]
  {
    m[..at] + s + m[at + |s|..]
  }

  /** A scan sees the string byte by byte, and then the terminator. */
  lemma TextAt(m: seq<int>, i: nat)
    requires Terminated(m) && i <= |Text(m)|
    ensures i < |m| && (m[i] != 0 <==> i < |Text(m)|)
    ensures i < |Text(m)| ==> Text(m)[i] == m[i]
  {
    var t := Text(m);
    assert t == m[..|t|];
  }

  method Strlen(m: seq<int>) returns (n: nat)
    requires Terminated(m)
    ensures n == |Text(m)|
  {
    n := 0;
    TextAt(m, n);
    while m[n] != 0
      invariant n <= |Text(m)| && n < |m| && (m[n] != 0 <==> n < |Text(m)|)
      decreases |m| - n
    {
      n := n + 1;
      TextAt(m, n);
    }
  }

  method Strcpy(dest: array<int>, at: nat, src: seq<int>)
    requires Terminated(src) && at + |Text(src)| + 1 <= dest.Length
    modifies dest
    ensures dest[..] == Put(old(dest[..]), at, Text(src) + [0])
  {
    ghost var t, was := Text(src) + [0], dest[..];
    var i := 0;
    while true
      invariant 0 <= i <= |Text(src)|
      invariant forall k :: 0 <= k < dest.Length ==> dest[k] == if at <= k < at + i then t[k - at] else was[k]
      decreases |src| - i
    {
      TextAt(src, i);
      dest[at + i] := src[i];
      if src[i] == 0 { break; }
      i := i + 1;
    }
    assert dest[..] == Put(was, at, t);
  }

  /** Appending in place: the string grows by the second one. */
  lemma TextAppended(m: seq<int>, at: nat, t: seq<int>)
    requires at <= |m| && Terminated(m[at..]) && NoZero(t) && at + |Text(m[at..])| + |t| + 1 <= |m|
    ensures Text(Put(m, at + |Text(m[at..])|, t + [0])[at..]) == Text(m[at..]) + t
  {
    var s := Text(m[at..]);
    var now := Put(m, at + |s|, t + [0])[at..];
    assert now[..|s| + |t|] == s + t;
    TextOf(now, s + t);
  }

  /** `strcat`. */
  method Strcat(dest: array<int>, at: nat, src: seq<int>)
    requires at <= dest.Length && Terminated(dest[at..]) && Terminated(src)
    requires at + |Text(dest[at..])| + |Text(src)| + 1 <= dest.Length
    modifies dest
    ensures dest[..] == Put(old(dest[..]), at + |old(Text(dest[at..]))|, Text(src) + [0])
  {
    ghost var whole, was, t := dest[..], dest[at..], Text(dest[at..]);
    assert was == whole[at..];
    var n := at;
    TextAt(was, 0);
    while dest[n] != 0
      invariant dest[..] == whole
      invariant at <= n <= at + |t| && n < dest.Length
      invariant dest[n] != 0 <==> n < at + |t|
      decreases dest.Length - n
    {
      n := n + 1;
      TextAt(was, n - at);
      assert was[n - at] == whole[n];
    }
    Strcpy(dest, n, src);
  }

  /** `strcmp` answers 0 for equal strings and no others. */
  method Strcmp(a: seq<int>, b: seq<int>) returns (r: int)
    requires Terminated(a) && Terminated(b)
    ensures r == 0 <==> Text(a) == Text(b)
  {
    var i := 0;
    TextAt(a, 0);
    TextAt(b, 0);
    while a[i] != 0 && a[i] == b[i]
      invariant 0 <= i <= |Text(a)| && i <= |Text(b)| && i < |a| && i < |b|
      invariant Text(a)[..i] == Text(b)[..i]
      invariant a[i] != 0 <==> i < |Text(a)|
      invariant b[i] != 0 <==> i < |Text(b)|
      invariant i < |Text(a)| ==> Text(a)[i] == a[i]
      invariant i < |Text(b)| ==> Text(b)[i] == b[i]
      decreases |a| - i
    {
      i := i + 1;
      TextAt(a, i);
      TextAt(b, i);
    }
    r := a[i] - b[i];
    if i == |Text(a)| == |Text(b)| {
      assert Text(a) == Text(a)[..i] && Text(b) == Text(b)[..i];
    }
  }
}
