/** usr_load_elf of user/spawn.c: one segment of a program file is laid out in the child's memory,
    page by page, through a window in the parent. */
module Loader {
  import opened MemoryMap
  import opened Wrappers


  type Page = s: seq<bv8> | |s| == 4096 witness Zeros(4096)

  function Zeros(n: nat): (z: seq<bv8>)
    ensures |z| == n && forall i | 0 <= i < n :: z[i] == 0
  {
    seq(n, _ => 0)
  }

  /** A program header of type PT_LOAD. */
  datatype Segment = Segment(va: nat, memsz: nat, filesz: nat, offset: nat)

  /** The pages that overlap the segment, and the first one even if nothing of the segment is in it. */
  predicate Touched(g: Segment, p: nat) {
    p * BY2PG < g.va + g.memsz && g.va < (p + 1) * BY2PG
  }

  /** The byte that belongs at address a. */
  function ImageByte(g: Segment, file: seq<bv8>, a: nat): bv8
    requires g.offset + g.filesz <= |file|
  {
    if g.va <= a < g.va + g.filesz then file[g.offset + (a - g.va)] else 0
  }

  function ImagePage(g: Segment, file: seq<bv8>, p: nat): (r: Page)
    requires g.offset + g.filesz <= |file|
    ensures forall k: nat | k < BY2PG :: r[k] == ImageByte(g, file, p * BY2PG + k)
  {
    seq(4096, k requires 0 <= k < 4096 => ImageByte(g, file, p * BY2PG + k))
  }

  /** Page p holds the image up to address hi (the bytes of the file that lie below hi), zero elsewhere. */
  ghost predicate Holds(g: Segment, file: seq<bv8>, page: Page, p: nat, hi: nat)
    requires g.offset + g.filesz <= |file|
  {
    forall k: nat | k < BY2PG :: page[k] == if p * BY2PG + k < hi then ImageByte(g, file, p * BY2PG + k) else 0
  }

  /** A segment that the code can load: it is not larger in the file than in memory, the file is long
      enough, and int i can count its bytes. */
  predicate Loadable(g: Segment, file: seq<bv8>) {
    g.filesz <= g.memsz < 0x8000_0000 && g.offset + g.filesz <= |file|
  }

  ghost predicate Same(before: map<nat, Page>, now: map<nat, Page>, p: nat) {
    (p in now <==> p in before) && (p in now ==> now[p] == before[p])
  }

  /** Page p of a child that was `before`, when the first i bytes of the segment are laid out. */
  ghost predicate PageDone(g: Segment, file: seq<bv8>, before: map<nat, Page>, now: map<nat, Page>, p: nat, i: nat)
    requires g.offset + g.filesz <= |file|
  {
    if p * BY2PG < g.va + i && g.va < (p + 1) * BY2PG then p in now && Holds(g, file, now[p], p, g.va + i)
    else Same(before, now, p)
  }

  ghost predicate Laid(g: Segment, file: seq<bv8>, before: map<nat, Page>, now: map<nat, Page>, i: nat)
    requires g.offset + g.filesz <= |file|
  {
    forall p: nat :: PageDone(g, file, before, now, p, i)
  }

  /** Laying out more of the segment on page p leaves the pages before and after it as they are. */
  lemma OtherPages(g: Segment, file: seq<bv8>, before: map<nat, Page>, now: map<nat, Page>, q: nat, i: nat, j: nat)
    requires g.offset + g.filesz <= |file| && PageDone(g, file, before, now, q, i)
    requires var p := (g.va + i) / BY2PG;
             q != p && i <= j && g.va + j <= (p + 1) * BY2PG && (i == 0 || (g.va + i) % BY2PG == 0 || i == g.filesz)
    ensures PageDone(g, file, before, now, q, j)
  {
    var p := (g.va + i) / BY2PG;
    if q < p { assert (q + 1) * BY2PG <= p * BY2PG <= g.va + i; } else { assert q * BY2PG >= (p + 1) * BY2PG; }
  }

  /** All pages but the one at byte i are done. */
  ghost predicate LaidAround(g: Segment, file: seq<bv8>, before: map<nat, Page>, now: map<nat, Page>, i: nat)
    requires g.offset + g.filesz <= |file|
  {
    forall q: nat | q != (g.va + i) / BY2PG :: PageDone(g, file, before, now, q, i)
  }

  lemma PageSet(g: Segment, file: seq<bv8>, before: map<nat, Page>, now: map<nat, Page>, i: nat, j: nat, page: Page)
    requires g.offset + g.filesz <= |file| && LaidAround(g, file, before, now, i)
    requires i <= j && g.va + j <= ((g.va + i) / BY2PG + 1) * BY2PG && (i == 0 || (g.va + i) % BY2PG == 0 || i == g.filesz)
    requires g.va + j > (g.va + i) / BY2PG * BY2PG && Holds(g, file, page, (g.va + i) / BY2PG, g.va + j)
    requires i < j || (g.va + i) % BY2PG > 0
    ensures Laid(g, file, before, now[(g.va + i) / BY2PG := page], j)
  {
    hide Holds;
    var p := (g.va + i) / BY2PG;
    var now' := now[p := page];
    forall q: nat ensures PageDone(g, file, before, now', q, j) {
      if q != p {
        assert PageDone(g, file, before, now, q, i);
        OtherPages(g, file, before, now, q, i, j);
      }
    }
  }

  lemma Untouched(g: Segment, file: seq<bv8>, before: map<nat, Page>, now: map<nat, Page>, i: nat, page: Page)
    requires g.offset + g.filesz <= |file| && i <= g.memsz && LaidAround(g, file, before, now, i) && Touched(g, (g.va + i) / BY2PG)
    ensures forall q: nat | !Touched(g, q) :: Same(before, now, q) && Same(before, now[(g.va + i) / BY2PG := page], q)
  {
    hide Holds;
    forall q: nat | !Touched(g, q) ensures Same(before, now, q) && Same(before, now[(g.va + i) / BY2PG := page], q) {
      assert PageDone(g, file, before, now, q, i);
    }
  }

  class Machine {
    const file: seq<bv8>
    var pos: nat                  // fd_offset
    var child: map<nat, Page>     // the child's pages by number
    var window: Option<nat>       // which of them is also mapped at BUFPAGE
    ghost var refused: bool       // some call has failed for want of memory, or of the file

    constructor (file: seq<bv8>, child: map<nat, Page>)
      ensures this.file == file && this.child == child && pos == 0 && window.None? && !refused
    {
      this.file, this.child, pos, window, refused := file, child, 0, None, false;
    }

    /** syscall_mem_alloc(child, va, ...): fails, or maps a fresh zero page. */
    method MemAlloc(va: nat) returns (r: int)
      requires window.None?
      modifies this`child, this`refused
      ensures if r < 0 then refused || va >= KERNBASE else refused == old(refused) && va < KERNBASE
      ensures child == if r < 0 then old(child) else old(child)[va / BY2PG := Zeros(4096)]
    {
      if va >= KERNBASE { return -1; }
      if * { refused := true; return -1; }
      child := child[va / BY2PG := Zeros(4096)];
      r := 0;
    }

    /** syscall_mem_map(child, va, 0, BUFPAGE, ...) */
    method OpenWindow(va: nat) returns (r: int)
      modifies this`window, this`refused
      ensures if r < 0 then refused || va >= KERNBASE || va / BY2PG !in child
              else refused == old(refused) && va < KERNBASE && va / BY2PG in child
      ensures window == if r < 0 then old(window) else Some(va / BY2PG)
    {
      if va >= KERNBASE || va / BY2PG !in child { return -1; }
      if * { refused := true; return -1; }
      window := Some(va / BY2PG);
      r := 0;
    }

    /** syscall_mem_unmap(0, BUFPAGE) */
    method CloseWindow() returns (r: int)
      modifies this`window, this`refused
      ensures window.None? && if r < 0 then refused else refused == old(refused)
    {
      window := None;
      if * { refused := true; return -1; }
      r := 0;
    }

    method Seek(to: nat) returns (r: int)
      modifies this`pos, this`refused
      ensures if r < 0 then refused else pos == to && refused == old(refused)
    {
      if * { refused := true; return -1; }
      pos := to;
      r := 0;
    }

    /** readn: what the file has, at most n bytes; read stores a zero behind them, which may be one byte
        too far. */
    method ReadN(buf: array<bv8>, n: nat) returns (r: int, overrun: bool)
      requires n <= buf.Length
      modifies this`pos, this`refused, buf
      ensures if r < 0 then refused else refused == old(refused)
      ensures r >= 0 && old(pos) + n <= |file| ==> r == n && buf[..n] == file[old(pos)..old(pos) + n]
      ensures overrun <==> r == buf.Length
    {
      if * { refused := true; return -1, false; }
      var i := 0;
      while i < n && pos < |file|
        invariant refused == old(refused)
        invariant 0 <= i <= n && pos == old(pos) + i && (i > 0 ==> pos <= |file|)
        invariant forall j | 0 <= j < i :: buf[j] == file[old(pos) + j]
      {
        buf[i] := file[pos];
        i, pos := i + 1, pos + 1;
      }
      r := i;
      overrun := r == buf.Length;
      if !overrun { buf[r] := 0; }
    }

    /** user_bcopy and user_bzero into the window. */
    method Store(data: seq<bv8>, at: nat)
      requires window.Some? && window.value in child && at + |data| <= BY2PG
      modifies this`child
      ensures child == old(child)[window.value :=
                old(child)[window.value][..at] + data + old(child)[window.value][at + |data|..]]
    {
      var page := child[window.value];
      child := child[window.value := page[..at] + data + page[at + |data|..]];
    }
  
    /** The body of the first part and of the first loop: one page, or its rest, from the file. */
    method FillPage(g: Segment, i: nat, buf: array<bv8>, ghost before: map<nat, Page>)
        returns (r: int, size: nat, overrun: bool)
      requires Loadable(g, file) && i <= g.filesz && buf.Length == BY2PG && window.None?
      requires ((i == 0 && g.va % BY2PG > 0) || ((g.va + i) % BY2PG == 0 && i < g.filesz)) && Touched(g, (g.va + i) / BY2PG)
      requires LaidAround(g, file, before, child, i)
      modifies this, buf
      ensures forall q: nat | !Touched(g, q) :: Same(before, child, q)
      ensures r >= 0 ==> window.None? && Laid(g, file, before, child, i + size)
      ensures r >= 0 ==> (overrun <==> size == BY2PG)
      ensures if r < 0 then refused || g.va + i >= KERNBASE else refused == old(refused) && g.va + i < KERNBASE
      ensures size == if g.filesz - i < BY2PG - (g.va + i) % BY2PG then g.filesz - i else BY2PG - (g.va + i) % BY2PG
    {
      hide Holds, PageDone;
      var offset := (g.va + i) % BY2PG;
      size := if g.filesz - i < BY2PG - offset then g.filesz - i else BY2PG - offset;
      overrun := false;
      ghost var p := (g.va + i) / BY2PG;
      ghost var child0 := child;
      Untouched(g, file, before, child, i, Zeros(4096));
      r := MemAlloc(g.va + i);
      if r < 0 { return; }
      r := Seek(g.offset + i);
      if r < 0 { return; }
      r, overrun := ReadN(buf, size);
      if r < 0 { return; }
      r := OpenWindow(g.va + i);
      if r < 0 { return; }
      Store(buf[..size], offset);
      FilledPage(g, file, child[p], i, size);
      assert child == child0[p := child[p]];
      PageSet(g, file, before, child0, i, i + size, child[p]);
      r := CloseWindow();
    }

    /** The part after the last byte of the file, on the page that it left unfinished. */
    method ZeroRest(g: Segment, i: nat, ghost before: map<nat, Page>) returns (r: int, size: nat)
      requires Loadable(g, file) && i == g.filesz && (g.va + i) % BY2PG > 0 && window.None?
      requires Laid(g, file, before, child, i)
      modifies this
      ensures i + size <= g.memsz && Laid(g, file, before, child, i + size)
      ensures r >= 0 ==> window.None? && (i + size < g.memsz ==> (g.va + i + size) % BY2PG == 0)
      ensures if r < 0 then refused || g.va + i >= KERNBASE else refused == old(refused) && g.va + i < KERNBASE
      ensures size <= BY2PG - (g.va + i) % BY2PG
    {
      var offset := (g.va + i) % BY2PG;
      ghost var p := (g.va + i) / BY2PG;
      assert PageDone(g, file, before, child, p, i);
      size := 0;
      r := OpenWindow(g.va + i);
      if r < 0 { return; }
      size := if g.memsz - i < BY2PG - offset then g.memsz - i else BY2PG - offset;
      ghost var child0 := child;
      Store(Zeros(size), offset);
      assert child == child0[p := child[p]];
      ZeroedPage(g, file, child0[p], i, size);
      PageSet(g, file, before, child0, i, i + size, child[p]);
      r := CloseWindow();
    }

    /** The last loop: whole pages without any byte of the file. */
    method ZeroPages(g: Segment, from: nat, ghost before: map<nat, Page>) returns (r: int)
      requires Loadable(g, file) && g.filesz <= from <= g.memsz && window.None? && LowUpTo(g, from)
      requires Laid(g, file, before, child, from) && (from < g.memsz ==> (g.va + from) % BY2PG == 0)
      modifies this
      ensures window.None? && forall q: nat | !Touched(g, q) :: Same(before, child, q)
      ensures if r < 0 then refused || InKernel(g)
              else refused == old(refused) && LowUpTo(g, g.memsz) && Laid(g, file, before, child, g.memsz)
    {
      hide Holds, PageDone, InKernel, LowUpTo;
      var i := from;
      while i < g.memsz
        invariant from <= i <= g.memsz && window.None? && Laid(g, file, before, child, i)
        invariant i < g.memsz ==> (g.va + i) % BY2PG == 0
        invariant refused == old(refused) && LowUpTo(g, i)
      {
        var size := if BY2PG < g.memsz - i then BY2PG else g.memsz - i;
        ghost var child0 := child;
        r := MemAlloc(g.va + i);
        LaidLeavesOthers(g, file, before, child0, i);
        if r < 0 { if !refused { KernelPage(g, i); } return; }
        LowFurther(g, i, size);
        ZeroPage(g, file, i, size);
        PageSet(g, file, before, child0, i, i + size, Zeros(4096));
        i := i + size;
      }
      LaidLeavesOthers(g, file, before, child, i);
      r := 0;
    }

    /** The first part and the first loop: everything that comes from the file. */
    method FileBytes(g: Segment, buf: array<bv8>, ghost before: map<nat, Page>) returns (r: int, overrun: bool)
      requires Loadable(g, file) && window.None? && child == before && buf.Length == BY2PG
      modifies this, buf
      ensures forall q: nat | !Touched(g, q) :: Same(before, child, q)
      ensures if r < 0 then refused || InKernel(g)
              else refused == old(refused) && window.None? && LowUpTo(g, g.filesz) && Laid(g, file, before, child, g.filesz)
                   && (overrun <==> WholePage(g, g.filesz))
    {
      hide Holds, PageDone, WholePage, InKernel, LowUpTo;
      overrun := false;
      WholeStart(g);
      var over;
      var i, size := 0, 0;
      LaidAtStart(g, file, before);
      if g.va % BY2PG > 0 {
        r, size, over := FillPage(g, i, buf, before);
        if r < 0 { if !refused { KernelPage(g, i); } return; }
        LowFurther(g, i, size);
        WholeStep(g, i, size);
        overrun := overrun || over;
        i := i + size;
      } else {
        LowStart(g);
      }
      while i < g.filesz
        invariant i <= g.filesz && window.None? && Laid(g, file, before, child, i)
        invariant i < g.filesz ==> (g.va + i) % BY2PG == 0
        invariant (overrun <==> WholePage(g, i)) && refused == old(refused) && LowUpTo(g, i)
      {
        r, size, over := FillPage(g, i, buf, before);
        if r < 0 { if !refused { KernelPage(g, i); } return; }
        LowFurther(g, i, size);
        WholeStep(g, i, size);
        overrun := overrun || over;
        i := i + size;
      }
      LaidLeavesOthers(g, file, before, child, i);
      r := 0;
    }

    /** usr_load_elf.  It fails exactly when one of its calls is refused or the segment reaches into the
        kernel's half of the address space.  When it returns without an error, every page that overlaps
        the segment holds the file's bytes at their addresses and zeros everywhere else; other pages are
        never touched.  The zero that read stores falls behind the buffer exactly when some page is filled
        from the file entirely. */
    method LoadElf(g: Segment) returns (r: int, overrun: bool)
      requires Loadable(g, file) && window.None?
      modifies this
      ensures forall q: nat | !Touched(g, q) :: Same(old(child), child, q)
      ensures r >= 0 ==> window.None? && IsLoaded(g, file, child) && (overrun <==> WholePage(g, g.filesz))
      ensures if r < 0 then refused || InKernel(g) else refused == old(refused) && !InKernel(g)
    {
      hide Holds, PageDone, WholePage, InKernel, LowUpTo;
      ghost var before := child;
      var buf := new bv8[BY2PG];
      r, overrun := FileBytes(g, buf, before);
      if r < 0 { return; }
      var i, size := g.filesz, 0;
      if (g.va + i) % BY2PG > 0 {
        r, size := ZeroRest(g, i, before);
        LaidLeavesOthers(g, file, before, child, i + size);
        if r < 0 { if !refused { KernelPage(g, i); } return; }
        LowFurther(g, i, size);
        i := i + size;
      }
      r := ZeroPages(g, i, before);
      if r < 0 { return; }
      AllLaid(g, file, before, child);
      BelowKernel(g);
      r := 0;
    }

    /** The loop of spawn over the program headers: every page holds the image of the last segment that
        touches it, so segments that share no page are all in place. */
    method LoadSegments(gs: seq<Segment>) returns (r: int)
      requires window.None? && (forall i | 0 <= i < |gs| :: Loadable(gs[i], file))
      modifies this
      ensures r >= 0 ==> forall i, p: nat | 0 <= i < |gs| && LastOn(gs, i, p) ::
                p in child && Loadable(gs[i], file) && child[p] == ImagePage(gs[i], file, p)
      ensures r >= 0 ==> forall p: nat | (forall i | 0 <= i < |gs| :: !Touched(gs[i], p)) :: Same(old(child), child, p)
      ensures if r < 0 then refused || exists i :: 0 <= i < |gs| && InKernel(gs[i])
              else refused == old(refused) && forall i | 0 <= i < |gs| :: !InKernel(gs[i])
    {
      hide Touched, ImagePage, Same, InKernel;
      r := 0;
      var n := 0;
      assert gs[..0] == [];
      forall p: nat ensures Same(child, child, p) { Unchanged(child, p); }
      while n < |gs|
        invariant 0 <= n <= |gs| && window.None? && r >= 0
        invariant refused == old(refused) && forall i | 0 <= i < n :: !InKernel(gs[i])
        invariant forall i, p: nat | 0 <= i < n && LastOn(gs[..n], i, p) :: p in child && child[p] == ImagePage(gs[i], file, p)
        invariant forall p: nat | (forall i | 0 <= i < n :: !Touched(gs[i], p)) :: Same(old(child), child, p)
      {
        ghost var before := child;
        var overrun;
        r, overrun := LoadElf(gs[n]);
        if r < 0 { return; }
        forall i, p: nat | 0 <= i < n + 1 && LastOn(gs[..n + 1], i, p)
          ensures p in child && child[p] == ImagePage(gs[i], file, p)
        {
          LastBefore(gs, n, i, p);
          if i < n { assert Same(before, child, p); StaysSame(before, child, p); }
        }
        forall p: nat | (forall i | 0 <= i < n + 1 :: !Touched(gs[i], p)) ensures Same(old(child), child, p) {
          SameTwice(old(child), before, child, p);
        }
        n := n + 1;
      }
      assert gs[..|gs|] == gs;
    }
  }

  /** Some page of the segment is above KERNBASE. */
  ghost predicate InKernel(g: Segment) {
    exists p: nat :: Touched(g, p) && p * BY2PG >= KERNBASE
  }

  lemma KernelPage(g: Segment, i: nat)
    requires g.va + i >= KERNBASE && Touched(g, (g.va + i) / BY2PG)
    ensures InKernel(g)
  {
    assert (g.va + i) / BY2PG * BY2PG >= KERNBASE;
  }

  /** All pages up to i bytes into the segment are below KERNBASE. */
  predicate LowUpTo(g: Segment, i: nat) {
    (i > 0 ==> g.va + i <= KERNBASE) && (g.va % BY2PG > 0 ==> g.va < KERNBASE)
  }

  lemma BelowKernel(g: Segment)
    requires LowUpTo(g, g.memsz)
    ensures !InKernel(g)
  {
  }

  lemma LowStart(g: Segment)
    requires g.va % BY2PG == 0
    ensures LowUpTo(g, 0)
  {
  }

  lemma LowFurther(g: Segment, i: nat, size: nat)
    requires g.va + i < KERNBASE && size <= BY2PG - (g.va + i) % BY2PG
    ensures LowUpTo(g, i + size)
  {
    assert KERNBASE % BY2PG == 0;
    assert g.va + i == BY2PG * ((g.va + i) / BY2PG) + (g.va + i) % BY2PG;
  }

  /** Segment i touches page p, and no later one does. */
  ghost predicate LastOn(gs: seq<Segment>, i: nat, p: nat) {
    i < |gs| && Touched(gs[i], p) && forall j | i < j < |gs| :: !Touched(gs[j], p)
  }

  lemma LastBefore(gs: seq<Segment>, n: nat, i: nat, p: nat)
    requires n < |gs| && LastOn(gs[..n + 1], i, p)
    ensures Touched(gs[i], p) && (i < n ==> LastOn(gs[..n], i, p) && !Touched(gs[n], p))
  {
    assert gs[..n + 1][n] == gs[n];
    forall j | i < j < n ensures !Touched(gs[..n][j], p) { assert gs[..n + 1][j] == gs[..n][j]; }
  }

  lemma Unchanged(child: map<nat, Page>, p: nat)
    ensures Same(child, child, p)
  {
  }

  lemma StaysSame(before: map<nat, Page>, now: map<nat, Page>, p: nat)
    requires Same(before, now, p) && p in before
    ensures p in now && now[p] == before[p]
  {
  }

  lemma SameTwice(a: map<nat, Page>, b: map<nat, Page>, c: map<nat, Page>, p: nat)
    requires Same(a, b, p) && Same(b, c, p)
    ensures Same(a, c, p)
  {
  }

  /** The first i bytes of the segment cover some page entirely. */
  ghost predicate WholePage(g: Segment, i: nat) {
    exists p: nat :: g.va <= p * BY2PG && (p + 1) * BY2PG <= g.va + i
  }

  lemma WholeStart(g: Segment)
    ensures !WholePage(g, 0)
  {
  }

  lemma WholeStep(g: Segment, i: nat, size: nat)
    requires size <= BY2PG - (g.va + i) % BY2PG && (i == 0 || (g.va + i) % BY2PG == 0)
    ensures WholePage(g, i + size) <==> WholePage(g, i) || size == BY2PG
  {
    var q := (g.va + i) / BY2PG;
    if size == BY2PG {
      assert g.va <= q * BY2PG && (q + 1) * BY2PG <= g.va + i + size;
    }
    if WholePage(g, i) {
      var p: nat :| g.va <= p * BY2PG && (p + 1) * BY2PG <= g.va + i;
      assert (p + 1) * BY2PG <= g.va + (i + size);
    }
    if p: nat :| g.va <= p * BY2PG && (p + 1) * BY2PG <= g.va + (i + size) && !((p + 1) * BY2PG <= g.va + i) {
      assert p == q;
    }
  }

  /** The child holds exactly the image of the segment. */
  ghost predicate IsLoaded(g: Segment, file: seq<bv8>, child: map<nat, Page>)
    requires g.offset + g.filesz <= |file|
  {
    forall p: nat | Touched(g, p) :: p in child && child[p] == ImagePage(g, file, p)
  }

  lemma LaidAtStart(g: Segment, file: seq<bv8>, before: map<nat, Page>)
    requires g.offset + g.filesz <= |file|
    ensures if g.va % BY2PG == 0 then Laid(g, file, before, before, 0) else LaidAround(g, file, before, before, 0)
  {
    var p := g.va / BY2PG;
    assert forall q: nat | q != p :: q * BY2PG >= (p + 1) * BY2PG || (q + 1) * BY2PG <= p * BY2PG;
  }

  lemma LaidLeavesOthers(g: Segment, file: seq<bv8>, before: map<nat, Page>, now: map<nat, Page>, i: nat)
    requires g.offset + g.filesz <= |file| && i <= g.memsz && Laid(g, file, before, now, i)
    ensures forall q: nat | !Touched(g, q) :: Same(before, now, q)
  {
    forall q: nat | !Touched(g, q) ensures Same(before, now, q) { assert PageDone(g, file, before, now, q, i); }
  }

  lemma AllLaid(g: Segment, file: seq<bv8>, before: map<nat, Page>, now: map<nat, Page>)
    requires Loadable(g, file) && Laid(g, file, before, now, g.memsz)
    ensures IsLoaded(g, file, now)
  {
    forall p: nat | Touched(g, p) ensures p in now && now[p] == ImagePage(g, file, p) {
      assert PageDone(g, file, before, now, p, g.memsz);
    }
  }

  lemma ZeroedPage(g: Segment, file: seq<bv8>, page: Page, i: nat, size: nat)
    requires Loadable(g, file) && i >= g.filesz && (g.va + i) % BY2PG + size <= BY2PG
    requires Holds(g, file, page, (g.va + i) / BY2PG, g.va + i)
    ensures var off := (g.va + i) % BY2PG;
      Holds(g, file, page[..off] + Zeros(size) + page[off + size..], (g.va + i) / BY2PG, g.va + i + size)
  {
  }

  lemma ZeroPage(g: Segment, file: seq<bv8>, i: nat, size: nat)
    requires Loadable(g, file) && i >= g.filesz && (g.va + i) % BY2PG == 0 && size <= BY2PG
    ensures Holds(g, file, Zeros(4096), (g.va + i) / BY2PG, g.va + i + size)
  {
  }

  /** A zero page with the next bytes of the file at their place. */
  lemma FilledPage(g: Segment, file: seq<bv8>, page: Page, i: nat, size: nat)
    requires Loadable(g, file) && i + size <= g.filesz && (g.va + i) % BY2PG + size <= BY2PG
    requires i == 0 || (g.va + i) % BY2PG == 0
    requires page == Zeros(4096)[..(g.va + i) % BY2PG] + file[g.offset + i..g.offset + i + size] + Zeros(4096)[(g.va + i) % BY2PG + size..]
    ensures Holds(g, file, page, (g.va + i) / BY2PG, g.va + i + size)
  {
    var p, offset := (g.va + i) / BY2PG, (g.va + i) % BY2PG;
    forall k: nat | k < BY2PG ensures page[k] == if p * BY2PG + k < g.va + i + size then ImageByte(g, file, p * BY2PG + k) else 0 {
      assert p * BY2PG + offset == g.va + i;
      if offset <= k < offset + size {
        assert page[k] == file[g.offset + i + (k - offset)];
      }
    }
  }

  /** A later segment keeps an earlier one exactly when the two agree on the pages they share: loading
      replaces a shared page by a fresh one. */
  lemma LaterSegment(g: Segment, h: Segment, file: seq<bv8>, before: map<nat, Page>, after: map<nat, Page>)
    requires Loadable(g, file) && Loadable(h, file) && IsLoaded(g, file, before) && IsLoaded(h, file, after)
    requires forall q: nat | !Touched(h, q) :: Same(before, after, q)
    ensures IsLoaded(g, file, after) <==>
              forall p: nat | Touched(g, p) && Touched(h, p) :: ImagePage(g, file, p) == ImagePage(h, file, p)
  {
    hide Touched, ImagePage;
    forall p: nat | Touched(g, p) && !Touched(h, p) ensures p in after && after[p] == ImagePage(g, file, p) {
      assert Same(before, after, p);
    }
  }
}
