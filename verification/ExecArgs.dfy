/**
 The argument block `sys_exec` (proc/proc.c) builds on top of the new user stack: the
 strings, from the top down, and below them the aligned table of pointers.
 */
module ExecArgs {
  import opened CStrings
  import opened Words

  const STACK_TOP := 0xb0000000
  const BLOCK := 0x100   // sizeof(user_stack)
  const MAX_ARGS := 16   // the length of nargv

  /** An argument vector: the buffers argv points at. */
  type Args = seq<seq<int>>

  ghost predicate Readable(argv: Args) {
    |argv| <= MAX_ARGS && forall i :: 0 <= i < |argv| ==> Terminated(argv[i]) && Bytes(argv[i])
  }

  /** Where the block stands after the first `n` strings. */
  function Below(argv: Args, n: nat): (p: int)
    requires n <= |argv|
    ensures p <= BLOCK - 1 - n
  {
    if n == 0 then BLOCK - 1 else Below(argv, n - 1) - (|Text(argv[n - 1])| + 1)
  }

  function AlignDown(p: int): (q: int)
    ensures q % 4 == 0 && p - 3 <= q <= p
  {
    p - p % 4
  }

  /** Where the table starts, and the stack pointer will point. */
  function Table(argv: Args): int {
    AlignDown(Below(argv, |argv|)) - 4 * |argv|
  }

  /** The arguments fit in the block. */
  predicate Fits(argv: Args) {
    Table(argv) >= 0
  }

  /** The user address of byte `p` of the block. */
  function UserAddr(p: int): int {
    STACK_TOP - BLOCK + p
  }

  lemma {:induction false} BelowFalls(argv: Args, i: nat, n: nat)
    requires i <= n <= |argv|
    ensures Below(argv, n) <= Below(argv, i) - (n - i)
  {
    if i < n {
      BelowFalls(argv, i, n - 1);
    }
  }

  // ----- the packing -----

  /** The block after the first `n` strings. */
  function PutStrings(m: seq<int>, argv: Args, n: nat): (r: seq<int>)
    requires |m| == BLOCK && n <= |argv| && Below(argv, n) >= 0
    ensures |r| == BLOCK
  {
    if n == 0 then m else Put(PutStrings(m, argv, n - 1), Below(argv, n), Text(argv[n - 1]) + [0])
  }

  function Pointer(argv: Args, i: nat): (b: seq<int>)
    requires i < |argv| && Below(argv, i + 1) >= 0
    ensures |b| == 4
  {
    Bytes4(UserAddr(Below(argv, i + 1)))
  }

  /** ... and after the first `n` pointers of the table. */
  function PutTable(m: seq<int>, argv: Args, n: nat): (r: seq<int>)
    requires |m| == BLOCK && n <= |argv| && Fits(argv)
    ensures |r| == BLOCK
  {
    if n == 0 then m
    else
      BelowFalls(argv, n, |argv|);
      Put(PutTable(m, argv, n - 1), Table(argv) + 4 * (n - 1), Pointer(argv, n - 1))
  }

  /** The strings: the first loop of the packing. */
  method PackStrings(stack: array<int>, argv: Args) returns (p: int, nargv: seq<int>)
    requires stack.Length == BLOCK && Readable(argv) && Fits(argv)
    modifies stack
    ensures p == Below(argv, |argv|) && |nargv| == |argv|
    ensures forall i :: 0 <= i < |argv| ==> nargv[i] == UserAddr(Below(argv, i + 1))
    ensures Below(argv, |argv|) >= 0 && stack[..] == PutStrings(old(stack[..]), argv, |argv|)
  {
    p, nargv := BLOCK - 1, [];
    for i := 0 to |argv|
      invariant p == Below(argv, i) >= 0 && |nargv| == i
      invariant forall j :: 0 <= j < i ==> nargv[j] == UserAddr(Below(argv, j + 1))
      invariant stack[..] == PutStrings(old(stack[..]), argv, i)
    {
      BelowFalls(argv, i + 1, |argv|);
      var n := Strlen(argv[i]);
      p := p - (n + 1);
      Strcpy(stack, p, argv[i]);
      nargv := nargv + [UserAddr(p)];
    }
  }

  method StoreWord(stack: array<int>, p: nat, w: int)
    requires p + 4 <= stack.Length && IsWord(w)
    modifies stack
    ensures stack[..] == Put(old(stack[..]), p, Bytes4(w))
  {
    ghost var was := stack[..];
    stack[p], stack[p + 1] := ByteOf(w, 0), ByteOf(w, 1);
    stack[p + 2], stack[p + 3] := ByteOf(w, 2), ByteOf(w, 3);
    assert stack[..] == Put(was, p, Bytes4(w));
  }

  /** The `memcpy` of nargv, word by word. */
  method PackTable(stack: array<int>, p: int, nargv: seq<int>, ghost argv: Args)
    requires stack.Length == BLOCK && Fits(argv) && p == Table(argv) && |nargv| == |argv| <= MAX_ARGS
    requires forall i :: 0 <= i < |argv| ==> nargv[i] == UserAddr(Below(argv, i + 1))
    modifies stack
    ensures stack[..] == PutTable(old(stack[..]), argv, |argv|)
  {
    for i := 0 to |nargv|
      invariant stack[..] == PutTable(old(stack[..]), argv, i)
    {
      BelowFalls(argv, i + 1, |argv|);
      StoreWord(stack, p + 4 * i, nargv[i]);
    }
  }

  /** The packing of `sys_exec`; its waits for ever on a block that is too small are the
      requirement that the arguments fit. */
  method PackArgs(stack: array<int>, argv: Args) returns (p: int)
    requires stack.Length == BLOCK && Readable(argv) && Fits(argv)
    modifies stack
    ensures Packed(stack[..], argv, p)
  {
    ghost var was := stack[..];
    var nargv;
    p, nargv := PackStrings(stack, argv);
    while p % 4 != 0
      invariant AlignDown(Below(argv, |argv|)) <= p <= Below(argv, |argv|)
      decreases p
    {
      p := p - 1;
    }
    p := p - 4 * |argv|;
    PackTable(stack, p, nargv, argv);
    AllPacked(was, argv);
  }

  // ----- what the block holds -----

  /** String `i` lies where the `i`-th pointer says. */
  ghost predicate StringStored(m: seq<int>, argv: Args, i: int) {
    && 0 <= i < |argv| && |m| == BLOCK && 0 <= Below(argv, i + 1)
    && Below(argv, i + 1) + |Text(argv[i])| + 1 <= BLOCK
    && m[Below(argv, i + 1)..Below(argv, i + 1) + |Text(argv[i])| + 1] == Text(argv[i]) + [0]
  }

  ghost predicate PointerStored(m: seq<int>, argv: Args, i: int) {
    && 0 <= i < |argv| && |m| == BLOCK && 0 <= Table(argv) && Table(argv) + 4 * i + 4 <= BLOCK
    && WordAt(m, Table(argv) + 4 * i) == UserAddr(Below(argv, i + 1))
  }

  ghost predicate Packed(m: seq<int>, argv: Args, p: int) {
    && |m| == BLOCK && p == Table(argv) >= 0
    && (forall i :: 0 <= i < |argv| ==> StringStored(m, argv, i))
    && (forall i :: 0 <= i < |argv| ==> PointerStored(m, argv, i))
  }

  /** A store below a string leaves it alone. */
  lemma StringKept(m: seq<int>, argv: Args, i: int, at: nat, s: seq<int>)
    requires StringStored(m, argv, i) && at + |s| <= Below(argv, i + 1)
    ensures StringStored(Put(m, at, s), argv, i)
  {
    var a, b := Below(argv, i + 1), Below(argv, i + 1) + |Text(argv[i])| + 1;
    assert Put(m, at, s)[a..b] == m[a..b];
  }

  lemma StringPut(m: seq<int>, argv: Args, i: nat)
    requires i < |argv| && |m| == BLOCK && 0 <= Below(argv, i + 1)
    ensures Below(argv, i + 1) + |Text(argv[i]) + [0]| <= BLOCK
    ensures StringStored(Put(m, Below(argv, i + 1), Text(argv[i]) + [0]), argv, i)
  {
    var a, s := Below(argv, i + 1), Text(argv[i]) + [0];
    assert Put(m, a, s)[a..a + |s|] == s;
  }

  lemma {:induction false} StringsStored(m: seq<int>, argv: Args, i: nat, n: nat)
    requires |m| == BLOCK && i < n <= |argv| && Below(argv, n) >= 0
    ensures StringStored(PutStrings(m, argv, n), argv, i)
  {
    if i == n - 1 {
      StringPut(PutStrings(m, argv, n - 1), argv, i);
    } else {
      StringsStored(m, argv, i, n - 1);
      BelowFalls(argv, i + 1, n - 1);
      StringKept(PutStrings(m, argv, n - 1), argv, i, Below(argv, n), Text(argv[n - 1]) + [0]);
    }
  }

  lemma {:induction false} StringsSurvive(m: seq<int>, argv: Args, i: nat, n: nat)
    requires |m| == BLOCK && i < |argv| && n <= |argv| && Fits(argv) && StringStored(m, argv, i)
    ensures StringStored(PutTable(m, argv, n), argv, i)
  {
    if n > 0 {
      StringsSurvive(m, argv, i, n - 1);
      BelowFalls(argv, i + 1, |argv|);
      BelowFalls(argv, n, |argv|);
      StringKept(PutTable(m, argv, n - 1), argv, i, Table(argv) + 4 * (n - 1), Pointer(argv, n - 1));
    }
  }

  lemma {:induction false} PointersStored(m: seq<int>, argv: Args, i: nat, n: nat)
    requires |m| == BLOCK && i < n <= |argv| && Fits(argv)
    ensures PointerStored(PutTable(m, argv, n), argv, i)
  {
    BelowFalls(argv, n, |argv|);
    if i == n - 1 {
      BytesMakeWord(UserAddr(Below(argv, n)));
    } else {
      PointersStored(m, argv, i, n - 1);
    }
  }

  lemma AllPacked(m: seq<int>, argv: Args)
    requires |m| == BLOCK && Fits(argv) && Below(argv, |argv|) >= 0
    ensures Packed(PutTable(PutStrings(m, argv, |argv|), argv, |argv|), argv, Table(argv))
  {
    var strings := PutStrings(m, argv, |argv|);
    forall i | 0 <= i < |argv| ensures StringStored(PutTable(strings, argv, |argv|), argv, i) {
      StringsStored(m, argv, i, |argv|);
      StringsSurvive(strings, argv, i, |argv|);
    }
    forall i | 0 <= i < |argv| ensures PointerStored(PutTable(strings, argv, |argv|), argv, i) {
      PointersStored(strings, argv, i, |argv|);
    }
  }

  // ----- what the new program finds -----

  /** The user memory of the new program, with the block copied to end at the top of the stack. */
  function UserWord(m: seq<int>, addr: int): int
    requires |m| == BLOCK && UserAddr(0) <= addr <= UserAddr(BLOCK - 4)
  {
    WordAt(m, addr - UserAddr(0))
  }

  function UserText(m: seq<int>, addr: int): seq<int>
    requires |m| == BLOCK && UserAddr(0) <= addr < UserAddr(BLOCK)
  {
    Text(m[addr - UserAddr(0)..])
  }

  lemma StringRead(m: seq<int>, argv: Args, i: nat)
    requires StringStored(m, argv, i)
    ensures Text(m[Below(argv, i + 1)..]) == Text(argv[i])
  {
    var a, t := Below(argv, i + 1), Text(argv[i]);
    var stored, rest := m[a..a + |t| + 1], m[a..];
    assert rest[..|t|] == stored[..|t|] == t;
    assert rest[|t|] == stored[|t|];
    TextOf(rest, t);
  }

  /** Following the i-th pointer at esp yields the i-th argument. */
  lemma ArgvRoundTrip(m: seq<int>, argv: Args, p: int, i: nat)
    requires Packed(m, argv, p) && i < |argv|
    ensures var esp := UserAddr(p);
            && esp % 4 == 0 && UserAddr(0) <= esp + 4 * i <= UserAddr(BLOCK - 4)
            && UserAddr(0) <= UserWord(m, esp + 4 * i) < UserAddr(BLOCK)
            && UserText(m, UserWord(m, esp + 4 * i)) == Text(argv[i])
  {
    assert StringStored(m, argv, i) && PointerStored(m, argv, i);
    StringRead(m, argv, i);
  }

  /** The bytes of string `i` with its terminator, and the bytes of the table. */
  predicate InString(argv: Args, i: int, k: int) {
    0 <= i < |argv| && Below(argv, i + 1) <= k <= Below(argv, i + 1) + |Text(argv[i])|
  }

  predicate InTable(argv: Args, k: int) {
    Table(argv) <= k < Table(argv) + 4 * |argv|
  }

  /** No string overlaps another or the table, and all lie in the block. */
  lemma NothingOverlaps(argv: Args, k: int)
    requires Fits(argv)
    ensures forall i, j :: InString(argv, i, k) && InString(argv, j, k) ==> i == j
    ensures forall i :: InString(argv, i, k) ==> !InTable(argv, k) && 0 <= k < BLOCK
  {
    forall i, j | InString(argv, i, k) && InString(argv, j, k) ensures i == j {
      if i < j { BelowFalls(argv, i + 1, j); } else if j < i { BelowFalls(argv, j + 1, i); }
    }
    forall i | InString(argv, i, k) ensures !InTable(argv, k) && 0 <= k < BLOCK {
      BelowFalls(argv, i + 1, |argv|);
    }
  }
}
