/** init_stack of user/spawn.c: the arguments of a new program are laid out by hand on its stack page,
    where user/entry.S finds them. */
module ArgStack {
  import opened MemoryMap
  import opened Wrappers

  const USTACKTOP: nat := 0x3f00_0000 - 4096
  /** Where the page will be in the child. */
  const BASE: nat := 0x3f00_0000 - 4096 - 4096
  const E_NO_MEM: int := 4

  type byte = b: int | 0 <= b < 256

  /** A C string: bytes without the zero at its end. */
  predicate IsString(s: seq<byte>) { 0 !in s }

  /** ROUND for the two sizes that are used. */
  function Round(x: nat, n: nat): (r: nat)
    requires n == 4 || n == 8
    ensures x <= r < x + n && r % n == 0
  {
    if n == 4 then (x + 3) / 4 * 4 else (x + 7) / 8 * 8
  }

  // ---- Little-endian words ----

  function Bytes(v: nat, n: nat): (b: seq<byte>)
    ensures |b| == n
  {
    if n == 0 then [] else [v % 256] + Bytes(v / 256, n - 1)
  }

  function Value(b: seq<byte>): nat {
    if b == [] then 0 else b[0] + 256 * Value(b[1..])
  }

  function Power(n: nat): (p: nat)
    ensures p > 0
  {
    if n == 0 then 1 else 256 * Power(n - 1)
  }

  lemma {:induction false} WordRoundTrip(v: nat, n: nat)
    requires v < Power(n)
    ensures Value(Bytes(v, n)) == v
  {
    if n > 0 {
      assert v / 256 < Power(n - 1);
      WordRoundTrip(v / 256, n - 1);
      assert Bytes(v, n)[1..] == Bytes(v / 256, n - 1);
    }
  }

  // ---- The strings ----

  /** Where string i starts, counted from the first; the total for i = |argv|. */
  function Start(argv: seq<seq<byte>>, i: nat): nat
    requires i <= |argv|
  {
    if i == 0 then 0 else Start(argv, i - 1) + |argv[i - 1]| + 1
  }

  /** The strings one after the other, each with its zero. */
  function Flat(argv: seq<seq<byte>>, i: nat): (f: seq<byte>)
    requires i <= |argv|
    ensures |f| == Start(argv, i)
  {
    if i == 0 then [] else Flat(argv, i - 1) + argv[i - 1] + [0]
  }

  lemma {:induction false} FlatHolds(argv: seq<seq<byte>>, n: nat, i: nat)
    requires i < n <= |argv|
    ensures Start(argv, i) + |argv[i]| + 1 <= Start(argv, n)
    ensures Flat(argv, n)[Start(argv, i)..Start(argv, i) + |argv[i]|] == argv[i]
    ensures Flat(argv, n)[Start(argv, i) + |argv[i]|] == 0
  {
    if i < n - 1 {
      FlatHolds(argv, n - 1, i);
      assert Flat(argv, n)[..Start(argv, n - 1)] == Flat(argv, n - 1);
    }
  }

  // ---- The layout ----

  function Total(argv: seq<seq<byte>>): nat { Start(argv, |argv|) }

  /** The check of init_stack. */
  predicate Fits(argv: seq<seq<byte>>) {
    Round(Total(argv), 8) + 8 * (|argv| + 3) <= BY2PG
  }

  /** Offsets in the page of the strings, of the pointer array and of the header below it. */
  function Strings(argv: seq<seq<byte>>): nat requires Fits(argv) { BY2PG - Total(argv) }

  function Args(argv: seq<seq<byte>>): (a: nat)
    requires Fits(argv)
    ensures 16 <= a && a + 8 * (|argv| + 1) <= Strings(argv)
  {
    BY2PG - Round(Total(argv), 4) - 8 * (|argv| + 1)
  }

  /** The size check refuses exactly what has no room: the strings, a pointer to each with the null behind
      them, and argv and argc.  The stack pointer falls on a multiple of 4, and of 8 exactly when the strings
      leave no more than half a word unused. */
  lemma FitsIffRoom(argv: seq<seq<byte>>)
    ensures Fits(argv) <==> Total(argv) + 8 * (|argv| + 1) + 16 <= BY2PG
    ensures Fits(argv) ==> (BASE + Args(argv) - 16) % 4 == 0
    ensures Fits(argv) ==> ((BASE + Args(argv) - 16) % 8 == 0 <==> Total(argv) % 8 == 0 || Total(argv) % 8 > 4)
  {
    var t := Total(argv);
    hide Start;
    RoundParts(t);
    if Fits(argv) { assert BASE + Args(argv) - 16 == BASE + BY2PG - 16 - 8 * (|argv| + 1) - Round(t, 4); }
  }

  lemma RoundParts(t: nat)
    ensures Round(t, 8) == 8 * (t / 8) + (if t % 8 == 0 then 0 else 8)
    ensures Round(t, 4) == 8 * (t / 8) + (if t % 8 == 0 then 0 else if t % 8 <= 4 then 4 else 8)
  {
  }

  /** The u64 at an offset. */
  predicate WordAt(page: seq<byte>, off: nat, v: nat) {
    off + 8 <= |page| && page[off..off + 8] == Bytes(v, 8)
  }

  ghost predicate LaidOut(page: seq<byte>, argv: seq<seq<byte>>) requires Fits(argv) {
    && |page| == BY2PG
    && WordAt(page, Args(argv) - 16, |argv|)
    && WordAt(page, Args(argv) - 8, BASE + Args(argv))
    && (forall i: nat | i < |argv| :: WordAt(page, Args(argv) + 8 * i, BASE + Strings(argv) + Start(argv, i)))
    && WordAt(page, Args(argv) + 8 * |argv|, 0)
    && page[Strings(argv)..] == Flat(argv, |argv|)
  }

  // ---- Reading it back, as the child does ----

  /** A u64 load; None is a fault. */
  function LoadWord(page: seq<byte>, va: int): Option<nat> {
    if BASE <= va && va + 8 <= BASE + |page| then Some(Value(page[va - BASE..va - BASE + 8])) else None
  }

  function StringFrom(page: seq<byte>, off: nat): Option<seq<byte>>
    decreases |page| - off
  {
    if off >= |page| then None
    else if page[off] == 0 then Some([])
    else match StringFrom(page, off + 1)
      case None => None
      case Some(rest) => Some([page[off]] + rest)
  }

  function LoadString(page: seq<byte>, va: int): Option<seq<byte>> {
    if va < BASE then None else StringFrom(page, va - BASE)
  }

  /** argv[0] to argv[n-1] for the pointer argv. */
  function LoadArgs(page: seq<byte>, argv: int, n: nat): Option<seq<seq<byte>>> {
    if n == 0 then Some([])
    else
      var front, p := LoadArgs(page, argv, n - 1), LoadWord(page, argv + 8 * (n - 1));
      if front.None? || p.None? || LoadString(page, p.value).None? then None
      else Some(front.value + [LoadString(page, p.value).value])
  }

  /** user_start loads argc from sp and argv from sp + 8. */
  function Decode(page: seq<byte>, sp: nat): Option<seq<seq<byte>>> {
    var argc, argv := LoadWord(page, sp), LoadWord(page, sp + 8);
    if argc.None? || argv.None? then None else LoadArgs(page, argv.value, argc.value)
  }

  lemma LoadsWord(page: seq<byte>, off: nat, v: nat)
    requires WordAt(page, off, v) && v < 0x1_0000_0000
    ensures LoadWord(page, BASE + off) == Some(v)
  {
    assert Power(8) == 256 * (256 * (256 * (256 * Power(4)))) && Power(4) == 256 * (256 * (256 * (256 * Power(0))));
    WordRoundTrip(v, 8);
  }

  lemma {:induction false} LoadsString(page: seq<byte>, off: nat, s: seq<byte>)
    requires IsString(s) && off + |s| < |page| && page[off..off + |s|] == s && page[off + |s|] == 0
    ensures StringFrom(page, off) == Some(s)
    decreases |s|
  {
    if s != [] {
      assert page[off] == s[0] && s[0] in s;
      assert page[off + 1..off + 1 + |s[1..]|] == s[1..];
      LoadsString(page, off + 1, s[1..]);
      assert [s[0]] + s[1..] == s;
    }
  }

  lemma LoadsArg(page: seq<byte>, argv: seq<seq<byte>>, i: nat)
    requires Fits(argv) && LaidOut(page, argv) && i < |argv| && IsString(argv[i])
    ensures var p := LoadWord(page, BASE + Args(argv) + 8 * i);
      p.Some? && LoadString(page, p.value) == Some(argv[i])
  {
    hide Flat, StringFrom, LoadWord;
    var at := Strings(argv) + Start(argv, i);
    FlatHolds(argv, |argv|, i);
    LoadsWord(page, Args(argv) + 8 * i, BASE + at);
    var flat := Flat(argv, |argv|);
    assert page[at..at + |argv[i]|] == flat[Start(argv, i)..Start(argv, i) + |argv[i]|];
    assert page[at + |argv[i]|] == flat[Start(argv, i) + |argv[i]|];
    LoadsString(page, at, argv[i]);
  }

  lemma {:induction false} LoadsArgs(page: seq<byte>, argv: seq<seq<byte>>, n: nat)
    requires Fits(argv) && LaidOut(page, argv) && n <= |argv| && forall i | 0 <= i < |argv| :: IsString(argv[i])
    ensures LoadArgs(page, BASE + Args(argv), n) == Some(argv[..n])
  {
    hide LaidOut, LoadWord, LoadString, IsString;
    if n > 0 {
      LoadsArgs(page, argv, n - 1);
      LoadsArg(page, argv, n - 1);
      assert argv[..n] == argv[..n - 1] + [argv[n - 1]];
    }
  }

  /** The child gets back the arguments, and a null pointer after them. */
  lemma StackRoundTrip(page: seq<byte>, argv: seq<seq<byte>>)
    requires Fits(argv) && LaidOut(page, argv) && forall i | 0 <= i < |argv| :: IsString(argv[i])
    ensures Decode(page, BASE + Args(argv) - 16) == Some(argv)
    ensures LoadWord(page, BASE + Args(argv) + 8 * |argv|) == Some(0)
  {
    hide LoadWord, LoadArgs, IsString;
    LoadsWord(page, Args(argv) - 16, |argv|);
    LoadsWord(page, Args(argv) - 8, BASE + Args(argv));
    LoadsArgs(page, argv, |argv|);
    LoadsWord(page, Args(argv) + 8 * |argv|, 0);
    assert argv[..|argv|] == argv;
  }

  // ---- Laying it out ----

  /** A u64 store. */
  method StoreWord(page: array<byte>, off: nat, v: nat)
    requires off + 8 <= page.Length
    modifies page
    ensures page[..] == old(page[..off]) + Bytes(v, 8) + old(page[off + 8..])
  {
    var i, rest := 0, v;
    while i < 8
      invariant 0 <= i <= 8 && Bytes(rest, 8 - i) == Bytes(v, 8)[i..]
      invariant forall k | 0 <= k < i :: page[off + k] == Bytes(v, 8)[k]
      invariant forall k | 0 <= k < page.Length && !(off <= k < off + i) :: page[k] == old(page[k])
    {
      assert Bytes(rest, 8 - i) == [rest % 256] + Bytes(rest / 256, 8 - i - 1);
      assert Bytes(v, 8)[i] == Bytes(v, 8)[i..][0] && Bytes(v, 8)[i + 1..] == Bytes(v, 8)[i..][1..];
      page[off + i] := rest % 256;
      rest := rest / 256;
      i := i + 1;
    }
  }

  lemma Stored(before: seq<byte>, after: seq<byte>, off: nat, v: nat)
    requires off + 8 <= |before| && after == before[..off] + Bytes(v, 8) + before[off + 8..]
    ensures |after| == |before| && WordAt(after, off, v)
    ensures forall at: nat, w: nat | WordAt(before, at, w) && (at + 8 <= off || off + 8 <= at) :: WordAt(after, at, w)
    ensures forall k: nat | off + 8 <= k <= |before| :: after[k..] == before[k..]
  {
    hide Bytes;
    forall at: nat, w: nat | WordAt(before, at, w) && (at + 8 <= off || off + 8 <= at) ensures WordAt(after, at, w) {
      assert after[at..at + 8] == before[at..at + 8];
    }
  }

  /** The copying loops: the strings end up at the top of the page. */
  method CopyStrings(argv: seq<seq<byte>>, page: array<byte>, strings: nat)
    requires page.Length == BY2PG && strings + Total(argv) == BY2PG
    modifies page
    ensures page[strings..] == Flat(argv, |argv|)
  {
    var ctemp, i := strings, 0;
    while i < |argv|
      invariant 0 <= i <= |argv| && ctemp == strings + Start(argv, i) <= BY2PG
      invariant page[strings..ctemp] == Flat(argv, i)
    {
      StartGrows(argv, i + 1, |argv|);
      var str, j := argv[i], 0;
      while j < |str|
        invariant 0 <= j <= |str| && ctemp == strings + Start(argv, i) + j < BY2PG
        invariant page[strings..ctemp] == Flat(argv, i) + str[..j]
      {
        page[ctemp] := str[j];
        ctemp := ctemp + 1;
        j := j + 1;
      }
      page[ctemp] := 0;
      ctemp := ctemp + 1;
      i := i + 1;
    }
  }

  lemma {:induction false} StartGrows(argv: seq<seq<byte>>, i: nat, j: nat)
    requires i <= j <= |argv|
    ensures Start(argv, i) <= Start(argv, j)
  {
    if i < j { StartGrows(argv, i, j - 1); }
  }

  /** The pointer array: args[i] is where string i will be in the child. */
  method StorePointers(argv: seq<seq<byte>>, page: array<byte>, args: nat)
    requires page.Length == BY2PG && Fits(argv) && args == Args(argv)
    modifies page
    ensures forall i: nat | i < |argv| :: WordAt(page[..], args + 8 * i, BASE + Strings(argv) + Start(argv, i))
    ensures WordAt(page[..], args + 8 * |argv|, 0) && page[Strings(argv)..] == old(page[Strings(argv)..])
  {
    hide WordAt;
    var ctemp, i := BASE + Strings(argv), 0;
    while i < |argv|
      invariant 0 <= i <= |argv| && ctemp == BASE + Strings(argv) + Start(argv, i)
      invariant forall k: nat | k < i :: WordAt(page[..], args + 8 * k, BASE + Strings(argv) + Start(argv, k))
      invariant page[Strings(argv)..] == old(page[Strings(argv)..])
    {
      ghost var before := page[..];
      StoreWord(page, args + 8 * i, ctemp);
      Stored(before, page[..], args + 8 * i, ctemp);
      assert page[..][Strings(argv)..] == before[Strings(argv)..];
      ctemp := ctemp + |argv[i]| + 1;
      i := i + 1;
    }
    ghost var before := page[..];
    StoreWord(page, args + 8 * |argv|, 0);
    Stored(before, page[..], args + 8 * |argv|, 0);
    assert page[..][Strings(argv)..] == before[Strings(argv)..];
  }

  /** init_stack; page is what the child finds below USTACKTOP; alloc, map and unmap are the results of its
      three system calls.  A failing allocation is returned as 1, for the comparison is inside the
      assignment; otherwise the first failure is returned. */
  method InitStack(argv: seq<seq<byte>>, alloc: int, mapping: int, unmap: int) returns (r: int, esp: nat, page: array<byte>)
    ensures r == if !Fits(argv) then -E_NO_MEM else if alloc < 0 then 1 else if mapping < 0 then mapping else if unmap < 0 then unmap else 0
    ensures r == 0 ==> Fits(argv) && LaidOut(page[..], argv) && esp == BASE + Args(argv) - 16
  {
    hide WordAt, LaidOut, Flat;
    page := new byte[BY2PG](_ => 0);
    var argc, tot := 0, 0;
    while argc < |argv|
      invariant 0 <= argc <= |argv| && tot == Start(argv, argc)
    {
      tot := tot + |argv[argc]| + 1;
      argc := argc + 1;
    }
    if Round(tot, 8) + 8 * (argc + 3) > BY2PG { return -E_NO_MEM, 0, page; }
    var strings, args := BY2PG - tot, BY2PG - Round(tot, 4) - 8 * (argc + 1);
    if alloc < 0 { return 1, 0, page; }
    CopyStrings(argv, page, strings);
    StorePointers(argv, page, args);
    StoreHeader(argv, page, args);
    esp := BASE + args - 16;
    if mapping < 0 { return mapping, esp, page; }
    if unmap < 0 { return unmap, esp, page; }
    r := 0;
  }

  /** argv and argc, below the pointer array. */
  method StoreHeader(argv: seq<seq<byte>>, page: array<byte>, args: nat)
    requires page.Length == BY2PG && Fits(argv) && args == Args(argv)
    requires forall i: nat | i < |argv| :: WordAt(page[..], args + 8 * i, BASE + Strings(argv) + Start(argv, i))
    requires WordAt(page[..], args + 8 * |argv|, 0) && page[Strings(argv)..] == Flat(argv, |argv|)
    modifies page
    ensures LaidOut(page[..], argv)
  {
    hide WordAt, Flat, Start, Fits;
    ghost var p0 := page[..];
    StoreWord(page, args - 8, BASE + args);
    ghost var p1 := page[..];
    Stored(p0, p1, args - 8, BASE + args);
    StoreWord(page, args - 16, |argv|);
    Stored(p1, page[..], args - 16, |argv|);
    assert page[..][Strings(argv)..] == p1[Strings(argv)..] == p0[Strings(argv)..];
  }
}
