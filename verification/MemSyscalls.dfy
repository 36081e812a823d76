/** The memory system calls of kernel/syscall_all.c and the page-fault path page_out, on raw
    addresses, and every run of them. */
module MemSyscalls {
  import opened MemoryMap
  import opened PageTables
  import opened Pmap
  import opened EnvVm
  import opened Wrappers

  /** GET_L1_INDEX, GET_L2_INDEX and GET_L3_INDEX. */
  function IndexOf(a: nat): Va {
    Va(a / 0x4000_0000 % PTSZ, a / 0x20_0000 % PTSZ, a / 0x1000 % PTSZ)
  }

  /** Below 2^39 the three indices identify the page, so two addresses share a mapping exactly
      when they lie in one page. */
  lemma IndexOfIdentifiesPage(a: nat, b: nat)
    requires a < 0x80_0000_0000 && b < 0x80_0000_0000
    ensures IndexOf(a) == IndexOf(b) <==> a / 0x1000 == b / 0x1000
    ensures PageNumber(IndexOf(a)) == a / 0x1000
  {
    SplitIndex(a);
    SplitIndex(b);
  }

  lemma SplitIndex(a: nat)
    requires a < 0x80_0000_0000
    ensures PageNumber(IndexOf(a)) == a / 0x1000
    ensures a / 0x4000_0000 % PTSZ == a / 0x1000 / PTSZ / PTSZ && a / 0x20_0000 % PTSZ == a / 0x1000 / PTSZ % PTSZ
  {
    var p := a / 0x1000;
    assert a / 0x20_0000 == p / PTSZ;
    assert a / 0x4000_0000 == p / PTSZ / PTSZ;
    assert p / PTSZ / PTSZ < PTSZ;
  }

  /** Addresses the model covers: rejected ones, and those below 2^39 outside the self-map. */
  predicate Covered(a: nat) {
    a >= KERNBASE || (a < 0x80_0000_0000 && IndexOf(a).i != SELF)
  }

  /** va now maps a page that was free before and reads as zero. */
  ghost predicate MapsFresh(m: Mem, m': Mem, r: nat, va: Va, perm: Perm) requires Sized(m) && Sized(m') {
    var e := Translate(m', r, va);
    && e.Entry? && e.perm == perm && e.ppn < NPAGE && !m.vis[e.ppn] && m'.frames[e.ppn] == Empty()
    && Remaps(m, m', r, va, e)
  }

  /** Nothing that any address maps has changed, and no page is left. */
  ghost predicate OutOfMemory(m: Mem, m': Mem) requires Sized(m) && Sized(m') {
    m'.roots == m.roots && !FreeLeft(m') && forall q: nat, w: Va :: Translate(m', q, w) == Translate(m, q, w)
  }

  /** Page p, which was free, has been allocated for nothing; otherwise all is tidy. */
  ghost predicate Leaks(m: Mem, m': Mem, p: nat) requires Sized(m) && Sized(m') {
    && p < NPAGE && !m.vis[p] && Lost(m', p)
    && Tidy(Allocated(m, p), m')
  }

  /** sys_mem_alloc; target is the directory of the environment that envid2env found, if it found one. */
  method SysMemAlloc(pm: PhysMem, target: Option<nat>, va: nat, perm: Perm) returns (r: int)
    requires pm.Good() && (target.Some? ==> target.value in pm.roots) && Covered(va)
    modifies pm.vis, pm.refs, pm.frames
    ensures pm.Good() && DataKept(old(pm.S()), pm.S()) && Released(old(pm.S()), pm.S())
    ensures r == 0 ==> va < KERNBASE && target.Some? && MapsFresh(old(pm.S()), pm.S(), target.value, IndexOf(va), perm)
    ensures r != 0 ==> r == -1 && forall q: nat, w: Va :: Translate(pm.S(), q, w) == Translate(old(pm.S()), q, w)
    ensures r == 0 ==> Tidy(old(pm.S()), pm.S())
    ensures r != 0 ==> if va >= KERNBASE || target.None? || !FreeLeft(old(pm.S())) then pm.S() == old(pm.S())
                       else !FreeLeft(pm.S()) && exists p: nat :: Leaks(old(pm.S()), pm.S(), p)
  {
    hide Tidy, Conserved, CountedIsAllocated, Trees, TablesUnpinned, InBounds, MidAt, GrewTables, Recounts;
    if va >= KERNBASE { return -1; }
    if target.None? { return -1; }
    ghost var m := pm.S();
    var ok, pp := pm.PageAlloc();
    if !ok { return -1; }
    AllocKeepsValid(m, pp);
    AllocIsInvisible(m, pp);
    ghost var a := pm.S();
    ok := pm.PageInsert(target.value, pp, IndexOf(va), perm);
    if !ok {
      InsertLeaks(m, pm.S(), pp);
      return -1;
    }
    HeldIsCounted(pm.S(), Leaf(target.value, IndexOf(va)));
    UsedIsTidy(m, pm.S(), pp);
    return 0;
  }

  lemma InsertLeaks(m: Mem, m': Mem, p: nat)
    requires Sized(m) && Sized(m') && p < NPAGE && !m.vis[p] && m.refs[p] == 0
    requires GrewTables(Allocated(m, p), m') && Tidy(Allocated(m, p), m')
    ensures Leaks(m, m', p) && forall q: nat, w: Va :: Translate(m', q, w) == Translate(Allocated(m, p), q, w)
  {
  }

  lemma UsedIsTidy(m: Mem, m': Mem, p: nat)
    requires Sized(m) && Sized(m') && p < NPAGE && p !in m.roots && !m.vis[p] && m'.refs[p] > 0
    requires Tidy(Allocated(m, p), m')
    ensures Tidy(m, m')
  {
    forall q: nat | q < NPAGE && Lost(m', q) ensures Lost(m, q) {
      assert Lost(Allocated(m, p), q);
    }
  }

  lemma AllocIsInvisible(m: Mem, p: nat)
    requires Valid(m) && p < NPAGE && !m.vis[p]
    ensures m.refs[p] == 0 && p !in m.roots
    ensures var a := Allocated(m, p);
            && (forall q: nat, w: Va :: !RefersTo(a, Leaf(q, w), p))
            && (forall q: nat, w: Va :: Translate(a, q, w) == Translate(m, q, w))
            && (forall q: nat | q < NPAGE && m.vis[q] && !IsTable(m, q) :: !IsTable(a, q))
  {
    AllocKeepsValid(m, p);
    assert !RefersTo(m, Root(p), p) by { Unreferenced(m, p); }
    var a := Allocated(m, p);
    forall q: nat, w: Va ensures Translate(a, q, w) == Translate(m, q, w) {
      assert At(a, Leaf(q, w)) == At(m, Leaf(q, w));
    }
    forall q: nat | q < NPAGE && m.vis[q] && !IsTable(m, q) ensures !IsTable(a, q) {
      assert forall y: Site :: RefersTo(a, y, q) <==> RefersTo(m, y, q);
    }
  }

  method SysMemMap(pm: PhysMem, src: Option<nat>, srcva: nat, dst: Option<nat>, dstva: nat, perm: Perm) returns (r: int)
    requires pm.Good() && (src.Some? ==> src.value in pm.roots) && (dst.Some? ==> dst.value in pm.roots)
    requires Covered(srcva) && Covered(dstva)
    modifies pm.vis, pm.refs, pm.frames
    ensures pm.Good() && DataKept(old(pm.S()), pm.S()) && Released(old(pm.S()), pm.S()) && Tidy(old(pm.S()), pm.S())
    ensures r == 0 ==>
              && srcva < KERNBASE && dstva < KERNBASE && src.Some? && dst.Some?
              && var e := Translate(old(pm.S()), src.value, IndexOf(srcva));
                 e.Entry? && Remaps(old(pm.S()), pm.S(), dst.value, IndexOf(dstva), Entry(e.ppn, perm))
    ensures r != 0 ==> r == -1 && forall q: nat, w: Va :: Translate(pm.S(), q, w) == Translate(old(pm.S()), q, w)
    ensures r != 0 ==> if srcva >= KERNBASE || dstva >= KERNBASE || src.None? || dst.None?
                          || Translate(old(pm.S()), src.value, IndexOf(srcva)).Zero?
                       then pm.S() == old(pm.S()) else !FreeLeft(pm.S())
  {
    TidyNothing(pm.S());
    hide Tidy;
    if srcva >= KERNBASE || dstva >= KERNBASE { return -1; }
    if src.None? { return -1; }
    if dst.None? { return -1; }
    var found, ppage, ppte := pm.PageLookup(src.value, IndexOf(srcva));
    if !found { return -1; }
    MappedIsData(pm.S(), src.value, IndexOf(srcva));
    var ok := pm.PageInsert(dst.value, ppage, IndexOf(dstva), perm);
    return if ok then 0 else -1;
  }

  /** sys_mem_unmap; the result is what it stores in the caller's register 0, None for nothing: on
      success the register keeps the number of the call. */
  method SysMemUnmap(pm: PhysMem, target: Option<nat>, va: nat) returns (reg: Option<int>)
    requires pm.Good() && (target.Some? ==> target.value in pm.roots) && Covered(va)
    modifies pm.vis, pm.refs, pm.frames
    ensures pm.Good() && DataStays(old(pm.S()), pm.S()) && Freed(old(pm.S()), pm.S()) && Tidy(old(pm.S()), pm.S())
    ensures reg == if va >= KERNBASE || target.None? then Some(-1) else None
    ensures reg.None? ==> Remaps(old(pm.S()), pm.S(), target.value, IndexOf(va), Zero)
    ensures reg.Some? ==> pm.S() == old(pm.S())
  {
    if va >= KERNBASE { return Some(-1); }
    if target.None? { return Some(-1); }
    pm.PageRemove(target.value, IndexOf(va));
    return None;
  }

  /** page_out for an address of the running environment; the result is false where the source panics
      for want of memory.  A valid leaf without PTE_USER is overwritten without being released, so the
      counts stay right exactly when the leaf was invalid or a user page. */
  method PageOut(pm: PhysMem, pgdir: nat, va: nat) returns (ok: bool)
    requires pm.Good() && pgdir in pm.roots && 0x1000 <= va < 0x80_0000_0000 && Covered(va)
    modifies pm.vis, pm.refs, pm.frames
    ensures Sized(pm.S()) && DataKept(old(pm.S()), pm.S()) && Released(old(pm.S()), pm.S()) && Tidy(old(pm.S()), pm.S())
    ensures var e := Translate(old(pm.S()), pgdir, IndexOf(va));
      && (pm.Good() <==> e.Zero? || e.perm.user || !ok)
      && (e.Entry? && e.perm.user ==> ok && pm.S() == old(pm.S()))
      && (ok && (e.Zero? || !e.perm.user) ==> MapsFresh(old(pm.S()), pm.S(), pgdir, IndexOf(va), LINK))
      && (ok && e.Entry? && !e.perm.user ==> !Conserved(pm.S()))
    ensures !ok ==> GrewTables(old(pm.S()), pm.S()) && forall q: nat | q < NPAGE :: pm.vis[q]
  {
    hide Conserved, CountedIsAllocated, Trees, TablesUnpinned, InBounds, Tidy;
    var w := IndexOf(va);
    var pte;
    ok, pte := pm.PgdirWalk(pgdir, w, true);
    if !ok { return; }
    var e := pm.frames[pte.t][pte.x];
    if e.Entry? && e.perm.user { return; }
    ghost var m := pm.S();
    if e.Entry? { MappedIsData(m, pgdir, w); }
    var pp;
    ok, pp := pm.PageAlloc();
    if !ok { return; }
    AllocKeepsValid(m, pp);
    AllocIsInvisible(m, pp);
    ghost var a := pm.S();
    assert At(a, Mid(pgdir, w.i, w.j)) == At(m, Mid(pgdir, w.i, w.j));
    if e.Zero? {
      ok := pm.MapEmpty(pgdir, pp, w, LINK);
    } else {
      pm.WriteWord(pte.t, pte.x, Entry(pp, LINK));
      pm.refs[pp] := pm.refs[pp] + 1;
      assert pm.refs[..] == a.refs[pp := a.refs[pp] + 1];
      OverwrittenLeaks(a, pm.S(), pgdir, w, pte.t, pp);
      WriteIsTidy(a, pm.S(), Leaf(pgdir, w), pte.t, pte.x, Entry(pp, LINK));
    }
    UsedIsTidy(m, pm.S(), pp);
    TidyTransitive(old(pm.S()), m, pm.S());
    FreshComposes(old(pm.S()), m, pp, pm.S(), pgdir, w, LINK);
  }

  /** Overwriting a mapping without releasing its page leaves a count with no reference behind it. */
  lemma OverwrittenLeaks(a: Mem, m': Mem, r: nat, va: Va, t: nat, p: nat)
    requires Valid(a) && WordOf(a, Leaf(r, va), t, va.k) && t < NPAGE && Translate(a, r, va).Entry?
    requires p < NPAGE && a.vis[p] && p != Translate(a, r, va).ppn
    requires m' == a.(frames := a.frames[t := a.frames[t][va.k := Entry(p, LINK)]], refs := a.refs[p := a.refs[p] + 1])
    ensures Sized(m') && !Conserved(m') && Remaps(a, m', r, va, Entry(p, LINK)) && DataStays(a, m')
  {
    hide CountedIsAllocated, Trees, TablesUnpinned, InBounds, DataStays, Remaps, MidAt;
    var q, s := Translate(a, r, va).ppn, Leaf(r, va);
    LeafWritten(a, m', r, va, t, Entry(p, LINK));
    HeldIsCounted(a, s);
    assert RefersTo(a, s, q) && !RefersTo(m', s, q);
    assert forall x: Site | x != s :: RefersTo(m', x, q) <==> RefersTo(a, x, q);
    assert Holders(m', q) == Holders(a, q) - {s};
    assert m'.refs[q] == a.refs[q] == a.pinned[q] + |Holders(a, q)|;
  }

  lemma FreshComposes(m0: Mem, m: Mem, p: nat, m': Mem, r: nat, va: Va, perm: Perm)
    requires Sized(m0) && Valid(m) && Sized(m') && GrewTables(m0, m) && p < NPAGE && !m.vis[p]
    requires Remaps(Allocated(m, p), m', r, va, Entry(p, perm)) && DataKept(Allocated(m, p), m')
    ensures MapsFresh(m0, m', r, va, perm) && DataKept(m0, m')
  {
    AllocIsInvisible(m, p);
    AllocKeepsValid(m, p);
  }

  /** Everything that can happen to physical memory: system calls, demand faults, creation and
      teardown of address spaces, and stores by user programs into pages they map. */
  datatype Op =
    | Alloc(target: Option<nat>, va: nat, perm: Perm)
    | Map(src: Option<nat>, srcva: nat, dst: Option<nat>, dstva: nat, perm: Perm)
    | Unmap(target: Option<nat>, va: nat)
    | Fault(pgdir: nat, va: nat)
    | Store(pgdir: nat, va: nat, x: nat, word: Pte)
    | Create
    | Destroy(pgdir: nat)

  /** One word of page p has been stored, and that is all. */
  ghost predicate Stored(m: Mem, m': Mem, p: nat, x: nat, word: Pte) requires Sized(m) {
    p < NPAGE && x < PTSZ && m' == m.(frames := m.frames[p := m.frames[p][x := word]])
  }

  /** Whatever a user program stores in a page it maps, no table and no count changes. */
  method UserStore(pm: PhysMem, pgdir: nat, va: Va, x: nat, word: Pte)
    requires pm.Good() && pgdir in pm.roots && va.InRange() && x < PTSZ && Translate(pm.S(), pgdir, va).Entry?
    modifies pm.vis, pm.refs, pm.frames
    ensures pm.Good() && SameSites(old(pm.S()), pm.S()) && Stored(old(pm.S()), pm.S(), Translate(old(pm.S()), pgdir, va).ppn, x, word)
  {
    MappedIsData(pm.S(), pgdir, va);
    var found, pp, _ := pm.PageLookup(pgdir, va);
    ghost var m := pm.S();
    pm.WriteWord(pp, x, word);
    WriteData(m, pm.S(), pp, m.frames[pp][x := word]);
    SameHolders(m, pm.S());
  }

  /** Whether page p is a directory or a table, found by looking through all address spaces. */
  predicate InTables(m: Mem, p: nat) {
    || p in m.roots
    || (exists r, i: nat | r in m.roots && i < PTSZ :: DirAt(m, r, i).Entry? && DirAt(m, r, i).ppn == p)
    || (exists r, i: nat, j: nat | r in m.roots && i < PTSZ && j < PTSZ :: MidAt(m, r, i, j).Entry? && MidAt(m, r, i, j).ppn == p)
  }

  lemma InTablesIsTable(m: Mem, m': Mem, p: nat)
    requires Sized(m) && m'.frames == m.frames && m'.roots == m.roots
    ensures InTables(m', p) <==> IsTable(m, p)
  {
    assert forall s: Site :: At(m', s) == At(m, s);
    if IsTable(m, p) {
      var s: Site :| !s.Leaf? && RefersTo(m, s, p);
      OccupiedIsPlace(m, s);
      match s {
        case Root(_) =>
        case Dir(r, i) => assert DirAt(m', r, i).ppn == p;
        case Mid(r, i, j) => assert MidAt(m', r, i, j).ppn == p;
        case Leaf(_, _) =>
      }
    }
    if InTables(m', p) {
      if p in m.roots {
        assert RefersTo(m, Root(p), p);
      } else if r, i: nat :| r in m.roots && i < PTSZ && DirAt(m', r, i).Entry? && DirAt(m', r, i).ppn == p {
        assert RefersTo(m, Dir(r, i), p);
      } else {
        var r, i: nat, j: nat :| r in m.roots && i < PTSZ && j < PTSZ && MidAt(m', r, i, j).Entry? && MidAt(m', r, i, j).ppn == p;
        assert RefersTo(m, Mid(r, i, j), p);
      }
    }
  }

  /** A data page stays one exactly until its count drops to zero. */
  ghost predicate DataUntilReleased(m: Mem, m': Mem) requires Sized(m) && Sized(m') {
    forall p: nat | p < NPAGE && IsData(m, p) :: IsData(m', p) <==> !(m.refs[p] > 0 && m'.refs[p] == 0)
  }

  /** Address space r is new and maps the first n pages, as far as memory allows, and nothing else. */
  ghost predicate NewSpace(m: Mem, m': Mem, r: nat, n: nat) requires Sized(m) && Sized(m') {
    && r !in m.roots && m'.roots == m.roots + {r} && OthersKept(m, m', r)
    && MapsBootOnly(m', r, n) && (FreeLeft(m') ==> AllBootMapped(m', r, n))
  }

  predicate Names(m: Mem, target: Option<nat>, va: nat) {
    target.Some? && target.value in m.roots && va < KERNBASE && Covered(va)
  }

  /** What each event does to the address spaces. */
  ghost predicate Does(m: Mem, m': Mem, op: Op, boot: nat) requires Sized(m) && Sized(m') {
    match op
    case Alloc(t, va, perm) =>
      if Names(m, t, va) then MapsFresh(m, m', t.value, IndexOf(va), perm) || OutOfMemory(m, m') else m' == m
    case Map(s, sva, d, dva, perm) =>
      if Names(m, s, sva) && Names(m, d, dva) && Translate(m, s.value, IndexOf(sva)).Entry?
      then Remaps(m, m', d.value, IndexOf(dva), Entry(Translate(m, s.value, IndexOf(sva)).ppn, perm)) || OutOfMemory(m, m')
      else m' == m
    case Unmap(t, va) =>
      if Names(m, t, va) then Remaps(m, m', t.value, IndexOf(va), Zero) else m' == m
    case Fault(r, va) =>
      if Names(m, Some(r), va) && va >= 0x1000 && Translate(m, r, IndexOf(va)).Zero?
      then MapsFresh(m, m', r, IndexOf(va), LINK) || OutOfMemory(m, m')
      else m' == m
    case Store(r, va, x, word) =>
      if Names(m, Some(r), va) && x < PTSZ && Translate(m, r, IndexOf(va)).Entry?
      then Stored(m, m', Translate(m, r, IndexOf(va)).ppn, x, word)
      else m' == m
    case Create =>
      if 0 < boot && !IsData(m, 0) then m' == m
      else (m' == m && !FreeLeft(m)) || exists r: nat :: NewSpace(m, m', r, boot)
    case Destroy(r) =>
      if r in m.roots then m'.roots == m.roots - {r} && Torn(m, m', r) else m' == m
  }

  /** What no event but the named ones does: a store changes contents, and a failed allocation may lose
      the page that it took. */
  ghost predicate Spares(m: Mem, m': Mem, op: Op) requires Sized(m) && Sized(m') {
    && (op.Store? || DataKept(m, m'))
    && (Tidy(m, m') || (op.Alloc? && OutOfMemory(m, m') && exists p: nat :: Leaks(m, m', p)))
    && (SelfMapped(m) ==> SelfMapped(m'))
  }

  lemma SparesTidy(m: Mem, m': Mem, op: Op)
    requires Sized(m) && Sized(m') && m'.roots <= m.roots && DataKept(m, m') && Tidy(m, m')
    ensures Spares(m, m', op)
  {
  }

  lemma SparesCreation(m: Mem, m': Mem, op: Op)
    requires Sized(m) && Sized(m') && DataKept(m, m') && Tidy(m, m') && (SelfMapped(m) ==> SelfMapped(m'))
    ensures Spares(m, m', op)
  {
  }

  lemma SparesNothing(m: Mem, op: Op)
    requires Sized(m)
    ensures Spares(m, m, op)
  {
  }

  lemma SparesLeak(m: Mem, m': Mem, op: Op, p: nat)
    requires Sized(m) && Sized(m') && op.Alloc? && OutOfMemory(m, m') && DataKept(m, m') && Leaks(m, m', p) && Valid(m)
    ensures Spares(m, m', op)
  {
    AllocIsInvisible(m, p);
  }

  lemma StoredSpares(m: Mem, m': Mem, op: Op, p: nat, x: nat, word: Pte)
    requires Sized(m) && Sized(m') && op.Store? && Stored(m, m', p, x, word) && !IsTable(m, p)
    ensures Spares(m, m', op)
  {
    forall r: nat | r in m.roots ensures r != p { NotTable(m, p, Root(r)); }
  }

  lemma TornKeepsData(m: Mem, m': Mem, r: nat)
    requires Sized(m) && Sized(m') && Torn(m, m', r)
    ensures DataKept(m, m')
  {
    forall p: nat | p < NPAGE && !IsTable(m, p) ensures !IsTable(m', p) {
      forall s: Site | !s.Leaf? ensures !RefersTo(m', s, p) {
        NotTable(m, p, s);
        assert At(m', s) == At(m, s) || At(m', s).Zero?;
      }
    }
  }

  /** One event: what it does to the address spaces, what it spares, and which pages it releases. */
  ghost predicate Happens(m: Mem, m': Mem, op: Op, boot: nat) requires Sized(m) && Sized(m') {
    Does(m, m', op, boot) && Spares(m, m', op) && DataUntilReleased(m, m')
  }

  method OnAlloc(pm: PhysMem, op: Op, boot: nat)
    requires pm.Good() && op.Alloc?
    modifies pm.vis, pm.refs, pm.frames
    ensures pm.Good() && Happens(old(pm.S()), pm.S(), op, boot)
  {
    hide Conserved, CountedIsAllocated, Trees, TablesUnpinned, InBounds, Tidy, Spares, SelfMapped, MapsFresh;
    ghost var m := pm.S();
    SparesNothing(m, op);
    if (op.target.Some? ==> op.target.value in pm.roots) && Covered(op.va) {
      var ret := SysMemAlloc(pm, op.target, op.va, op.perm);
      if ret == 0 {
        SparesTidy(m, pm.S(), op);
      } else if pm.S() != m {
        ghost var p: nat :| Leaks(m, pm.S(), p);
        SparesLeak(m, pm.S(), op, p);
      }
    }
  }

  method OnMap(pm: PhysMem, op: Op, boot: nat)
    requires pm.Good() && op.Map?
    modifies pm.vis, pm.refs, pm.frames
    ensures pm.Good() && Happens(old(pm.S()), pm.S(), op, boot)
  {
    hide Conserved, CountedIsAllocated, Trees, TablesUnpinned, InBounds, Tidy, Spares, SelfMapped;
    ghost var m := pm.S();
    SparesNothing(m, op);
    if (op.src.Some? ==> op.src.value in pm.roots) && (op.dst.Some? ==> op.dst.value in pm.roots)
      && Covered(op.srcva) && Covered(op.dstva)
    {
      var _ := SysMemMap(pm, op.src, op.srcva, op.dst, op.dstva, op.perm);
      SparesTidy(m, pm.S(), op);
    }
  }

  method OnUnmap(pm: PhysMem, op: Op, boot: nat)
    requires pm.Good() && op.Unmap?
    modifies pm.vis, pm.refs, pm.frames
    ensures pm.Good() && Happens(old(pm.S()), pm.S(), op, boot)
  {
    hide Conserved, CountedIsAllocated, Trees, TablesUnpinned, InBounds, Tidy, Spares, SelfMapped;
    ghost var m := pm.S();
    SparesNothing(m, op);
    if (op.target.Some? ==> op.target.value in pm.roots) && Covered(op.va) {
      var _ := SysMemUnmap(pm, op.target, op.va);
      SparesTidy(m, pm.S(), op);
    }
  }

  /** A demand fault on a valid page without PTE_USER, which would break the invariant, is skipped. */
  method OnFault(pm: PhysMem, op: Op, boot: nat)
    requires pm.Good() && op.Fault?
    modifies pm.vis, pm.refs, pm.frames
    ensures pm.Good() && Happens(old(pm.S()), pm.S(), op, boot)
  {
    hide Conserved, CountedIsAllocated, Trees, TablesUnpinned, InBounds, Tidy, Spares, SelfMapped, MapsFresh;
    ghost var m := pm.S();
    SparesNothing(m, op);
    if op.pgdir in pm.roots && 0x1000 <= op.va < 0x80_0000_0000 && Covered(op.va) {
      var found, _, pte := pm.PageLookup(op.pgdir, IndexOf(op.va));
      if !found || pm.frames[pte.t][pte.x].perm.user {
        var _ := PageOut(pm, op.pgdir, op.va);
        SparesTidy(m, pm.S(), op);
      }
    }
  }

  method OnStore(pm: PhysMem, op: Op, boot: nat)
    requires pm.Good() && op.Store?
    modifies pm.vis, pm.refs, pm.frames
    ensures pm.Good() && Happens(old(pm.S()), pm.S(), op, boot)
  {
    hide Conserved, CountedIsAllocated, Trees, TablesUnpinned, InBounds, Tidy, Spares, SelfMapped;
    ghost var m := pm.S();
    SparesNothing(m, op);
    if op.pgdir in pm.roots && op.va < 0x80_0000_0000 && Covered(op.va) && op.x < PTSZ {
      var found, pp, _ := pm.PageLookup(op.pgdir, IndexOf(op.va));
      if found {
        MappedIsData(m, op.pgdir, IndexOf(op.va));
        UserStore(pm, op.pgdir, IndexOf(op.va), op.x, op.word);
        SameTables(m, pm.S());
        StoredSpares(m, pm.S(), op, pp, op.x, op.word);
      }
    }
  }

  method OnDestroy(pm: PhysMem, op: Op, boot: nat)
    requires pm.Good() && op.Destroy?
    modifies pm, pm.vis, pm.refs, pm.frames
    ensures pm.Good() && Happens(old(pm.S()), pm.S(), op, boot)
  {
    hide Conserved, CountedIsAllocated, Trees, TablesUnpinned, InBounds, Tidy, Spares, SelfMapped;
    ghost var m := pm.S();
    SparesNothing(m, op);
    if op.pgdir in pm.roots {
      EnvFree(pm, op.pgdir);
      TornTables(m, pm.S(), op.pgdir);
      TornKeepsData(m, pm.S(), op.pgdir);
      SparesTidy(m, pm.S(), op);
    }
  }

  /** Creation when page 0 is no longer a data page would break the invariant; it is refused and reported. */
  method OnCreate(pm: PhysMem, op: Op, boot: nat) returns (refused: bool)
    requires pm.Good() && op.Create?
    requires boot <= NPAGE && forall p: nat | 0 < p < boot :: pm.pinned[p] > 0
    modifies pm, pm.vis, pm.refs, pm.frames
    ensures pm.Good() && Happens(old(pm.S()), pm.S(), op, boot)
    ensures refused <==> 0 < boot && !IsData(old(pm.S()), 0)
  {
    hide Conserved, CountedIsAllocated, Trees, TablesUnpinned, InBounds, Tidy, Spares, SelfMapped, MapsBootOnly, AllBootMapped;
    refused := false;
    ghost var m := pm.S();
    SparesNothing(m, op);
    var now := Mem(pm.vis[..], pm.refs[..], pm.frames[..], [], pm.roots);
    InTablesIsTable(m, now, 0);
    if 0 < boot && (!pm.vis[0] || InTables(now, 0)) { return true; }
    forall p: nat | 0 < p < boot ensures pm.vis[p] && !IsTable(pm.S(), p) {
      PinnedIsData(pm.S(), p);
    }
    var ok, r := EnvSetupVm(pm, boot);
    if ok {
      SparesCreation(m, pm.S(), op);
      assert NewSpace(m, pm.S(), r, boot);
    }
  }

  /** One event; one that cannot occur in this state (a dead address space, an address outside
      the model, a store through no mapping) is skipped. */
  method Execute(pm: PhysMem, op: Op, boot: nat) returns (refused: bool)
    requires pm.Good()
    requires boot <= NPAGE && forall p: nat | 0 < p < boot :: pm.pinned[p] > 0
    modifies pm, pm.vis, pm.refs, pm.frames
    ensures pm.Good() && Happens(old(pm.S()), pm.S(), op, boot)
    ensures refused <==> op.Create? && 0 < boot && !IsData(old(pm.S()), 0)
  {
    hide Happens;
    refused := false;
    match op
    case Alloc(_, _, _) => OnAlloc(pm, op, boot);
    case Map(_, _, _, _, _) => OnMap(pm, op, boot);
    case Unmap(_, _) => OnUnmap(pm, op, boot);
    case Fault(_, _) => OnFault(pm, op, boot);
    case Store(_, _, _, _) => OnStore(pm, op, boot);
    case Destroy(_) => OnDestroy(pm, op, boot);
    case Create => refused := OnCreate(pm, op, boot);
  }

  /** The address space in which the event may change a mapping. */
  predicate Changes(op: Op, r: nat) {
    match op
    case Alloc(t, _, _) => t == Some(r)
    case Map(_, _, d, _, _) => d == Some(r)
    case Unmap(t, _) => t == Some(r)
    case Fault(q, _) => q == r
    case Destroy(q) => q == r
    case _ => false
  }

  /** Isolation: an event changes no mapping of any other address space, and no word that one maps, unless
      it is a store through a mapping of the same page. */
  lemma Isolation(m: Mem, m': Mem, op: Op, boot: nat, r: nat, va: Va)
    requires Valid(m) && Sized(m') && Happens(m, m', op, boot) && !Changes(op, r) && r in m.roots && va.InRange()
    ensures Translate(m', r, va) == Translate(m, r, va) && r in m'.roots
    ensures var e := Translate(m, r, va);
      e.Entry? && !(op.Store? && Translate(m, op.pgdir, IndexOf(op.va)).Entry? && Translate(m, op.pgdir, IndexOf(op.va)).ppn == e.ppn)
      ==> e.ppn < NPAGE && m'.frames[e.ppn] == m.frames[e.ppn]
  {
    hide Conserved, CountedIsAllocated, Trees, TablesUnpinned, InBounds, Tidy, Covered;
    if Translate(m, r, va).Entry? {
      MappedIsData(m, r, va);
      HeldIsCounted(m, Leaf(r, va));
    }
    if op.Destroy? && op.pgdir in m.roots {
      assert At(m', Leaf(r, va)) == At(m, Leaf(r, va));
    }
    if op.Store? && Names(m, Some(op.pgdir), op.va) && op.x < PTSZ && Translate(m, op.pgdir, IndexOf(op.va)).Entry? {
      MappedIsData(m, op.pgdir, IndexOf(op.va));
      StoreIsNoTable(m, m', Translate(m, op.pgdir, IndexOf(op.va)).ppn, op.x, op.word, r, va);
    }
  }

  lemma StoreIsNoTable(m: Mem, m': Mem, p: nat, x: nat, word: Pte, r: nat, va: Va)
    requires Valid(m) && Stored(m, m', p, x, word) && !IsTable(m, p) && r in m.roots
    ensures Translate(m', r, va) == Translate(m, r, va)
  {
    WriteData(m, m', p, m.frames[p][x := word]);
    assert At(m', Leaf(r, va)) == At(m, Leaf(r, va));
  }

  lemma SameTables(m: Mem, m': Mem)
    requires Sized(m) && Sized(m') && SameSites(m, m') && m'.refs == m.refs && m'.vis == m.vis
    ensures DataUntilReleased(m, m')
  {
    forall p: nat ensures IsTable(m', p) <==> IsTable(m, p) {
      assert forall s: Site :: RefersTo(m', s, p) <==> RefersTo(m, s, p);
    }
  }

  lemma TornTables(m: Mem, m': Mem, r: nat)
    requires Sized(m) && Sized(m') && Torn(m, m', r)
    ensures DataUntilReleased(m, m')
  {
    TornKeepsData(m, m', r);
  }

  /** Page 0 lost its last reference in this step. */
  predicate LosesPageZero(m: Mem, m': Mem) {
    m.refs != [] && m'.refs != [] && m.refs[0] > 0 && m'.refs[0] == 0
  }

  lemma PageZeroStays(m: Mem, m': Mem)
    requires Sized(m) && Sized(m') && DataUntilReleased(m, m')
    ensures IsData(m, 0) && !LosesPageZero(m, m') ==> IsData(m', 0)
  {
  }

  /** No step of the run does. */
  ghost predicate KeepsPageZero(states: seq<Mem>) {
    var n := |states| - 1;
    n < 1 || (KeepsPageZero(states[..n]) && !LosesPageZero(states[n - 1], states[n]))
  }

  lemma KeepsMore(states: seq<Mem>, m: Mem)
    requires states != []
    ensures KeepsPageZero(states + [m]) <==> KeepsPageZero(states) && !LosesPageZero(states[|states| - 1], m)
  {
    assert (states + [m])[..|states|] == states;
  }

  /** The states of a run and which of its events were refused: all states are valid, every directory maps
      itself, each state comes from the one before by the effect of its event, and exactly the creations
      that found page 0 not to be a data page were refused. */
  ghost predicate History(states: seq<Mem>, ops: seq<Op>, refused: seq<bool>, boot: nat)
    ensures History(states, ops, refused, boot) ==> |states| == |ops| + 1 == |refused| + 1
  {
    && |states| == |ops| + 1 == |refused| + 1
    && (forall i | 0 <= i <= |ops| :: Valid(states[i]) && SelfMapped(states[i]))
    && (forall i | 0 <= i < |ops| :: Happens(states[i], states[i + 1], ops[i], boot))
    && (forall i | 0 <= i < |ops| :: refused[i] <==> ops[i].Create? && 0 < boot && !IsData(states[i], 0))
    && (0 < boot && KeepsPageZero(states) ==> forall i | 0 <= i <= |ops| :: IsData(states[i], 0))
  }

  lemma HistoryMore(states: seq<Mem>, ops: seq<Op>, refused: seq<bool>, boot: nat, op: Op, no: bool, m: Mem)
    requires History(states, ops, refused, boot) && Valid(m) && Happens(states[|ops|], m, op, boot)
    requires no <==> op.Create? && 0 < boot && !IsData(states[|ops|], 0)
    ensures History(states + [m], ops + [op], refused + [no], boot)
  {
    hide Valid, IsData, KeepsPageZero, LosesPageZero, DataUntilReleased, Does, SelfMapped;
    KeepsMore(states, m);
    PageZeroStays(states[|ops|], m);
  }

  method RunFrom(pm: PhysMem, boot: nat, ops: seq<Op>) returns (refused: seq<bool>, ghost states: seq<Mem>)
    requires pm.Good() && (0 < boot ==> IsData(pm.S(), 0)) && SelfMapped(pm.S())
    requires boot <= NPAGE && forall p: nat | 0 < p < boot :: pm.pinned[p] > 0
    modifies pm, pm.vis, pm.refs, pm.frames
    ensures pm.Good() && History(states, ops, refused, boot) && states[|ops|] == pm.S() && states[0] == old(pm.S())
  {
    hide IsData, Happens, SelfMapped;
    refused, states := [], [pm.S()];
    assert ops[..0] == [];
    for n := 0 to |ops|
      invariant pm.Good() && History(states, ops[..n], refused, boot) && states[n] == pm.S() && states[0] == old(pm.S())
    {
      hide Valid, History;
      var no := Execute(pm, ops[n], boot);
      HistoryMore(states, ops[..n], refused, boot, ops[n], no, pm.S());
      refused, states := refused + [no], states + [pm.S()];
      assert ops[..n + 1] == ops[..n] + [ops[n]];
    }
    assert ops[..|ops|] == ops;
  }

  /** From boot, in every state of every run, each count equals the references there are and counted
      pages are allocated.  Creation is refused only after page 0 has lost its last reference. */
  method Run(initEnd: nat, imgEnd: nat, ops: seq<Op>) returns (pm: PhysMem, refused: seq<bool>, ghost states: seq<Mem>)
    requires initEnd <= NPAGE
    ensures History(states, ops, refused, initEnd) && states[|ops|] == pm.S()
    ensures states[0].roots == {} && states[0].refs == states[0].pinned
    ensures forall p: nat | p < NPAGE :: states[0].pinned[p] == BootCount(initEnd, imgEnd, p)
    ensures forall p: nat | p < NPAGE :: states[0].vis[p] <==> p < initEnd || p < imgEnd || p >= DEVICES
    ensures Conserved(pm.S()) && CountedIsAllocated(pm.S())
    ensures KeepsPageZero(states) ==> forall i | 0 <= i < |ops| :: !refused[i]
  {
    pm := new PhysMem(initEnd, imgEnd);
    BootDataZero(pm.S(), initEnd);
    refused, states := RunFrom(pm, initEnd, ops);
  }

  lemma BootDataZero(m: Mem, initEnd: nat)
    requires Sized(m) && m.roots == {} && (0 < initEnd ==> m.vis[0])
    ensures 0 < initEnd ==> IsData(m, 0)
  {
    assert forall s: Site :: At(m, s).Zero?;
  }

  // ---- The run that page 0 breaks ----

  lemma {:induction false} IntervalSize(s: set<nat>, lo: nat, hi: nat)
    requires lo <= hi && forall p: nat | lo <= p < hi :: p in s
    ensures |s| >= hi - lo
    decreases hi - lo
  {
    if lo < hi { IntervalSize(s - {hi - 1}, lo, hi - 1); }
  }

  /** The only reference to page 0 in a system with one new address space. */
  lemma OnlyMapping(m: Mem, r: nat, n: nat)
    requires Valid(m) && m.roots == {r} && 0 < n <= NPAGE && m.pinned[0] == 0
    requires MapsBootOnly(m, r, n) && Translate(m, r, BootVa(0)) == Entry(0, BOOT) && BootPages(m, n)
    ensures m.refs[0] == 1 && Holders(m, 0) == {Leaf(r, BootVa(0))}
  {
    forall s: Site ensures RefersTo(m, s, 0) <==> s == Leaf(r, BootVa(0)) {
      if RefersTo(m, s, 0) {
        if s.Leaf? {
          assert Translate(m, s.r, s.va).Entry? && DirAt(m, s.r, s.va.i).Entry?;
        } else {
          NotTable(m, 0, s);
        }
      }
    }
    assert Holders(m, 0) == {Leaf(r, BootVa(0))};
  }

  lemma LastMappingGone(m: Mem, m': Mem, r: nat)
    requires Valid(m) && Valid(m') && m.pinned[0] == 0 && Holders(m, 0) == {Leaf(r, BootVa(0))}
    requires m'.pinned == m.pinned && Remaps(m, m', r, BootVa(0), Zero) && DataStays(m, m') && Freed(m, m') && !IsTable(m, 0)
    ensures !m'.vis[0]
  {
    assert Leaf(r, BootVa(0)) in Holders(m, 0);
    forall s: Site ensures !RefersTo(m', s, 0) {
      if s.Leaf? {
        assert Translate(m', s.r, s.va) == if s == Leaf(r, BootVa(0)) then Zero else Translate(m, s.r, s.va);
        assert s == Leaf(r, BootVa(0)) || s !in Holders(m, 0);
      } else {
        NotTable(m', 0, s);
      }
    }
    assert Holders(m', 0) == {};
  }

  /** From boot: one environment is created and unmaps address 0, which was the only counted reference
      to page 0.  The next page directory is page 0, and creation maps it for the user at address 0. */
  method DirectoryBecomesUserPage(initEnd: nat, imgEnd: nat) returns (pm: PhysMem)
    requires 0 < initEnd <= imgEnd && imgEnd + 2 * initEnd + 8 < DEVICES
    ensures 0 in pm.roots && Translate(pm.S(), 0, BootVa(0)) == Entry(0, BOOT) && Sized(pm.S()) && !Trees(pm.S())
  {
    hide Conserved, CountedIsAllocated, TablesUnpinned, Trees, InBounds;
    pm := new PhysMem(initEnd, imgEnd);
    ghost var m0 := pm.S();
    IntervalSize(FreePages(m0), imgEnd, DEVICES);
    BootDataZero(m0, initEnd);
    forall p: nat | 0 < p < initEnd ensures m0.vis[p] && !IsTable(m0, p) { PinnedIsData(m0, p); }
    var ok, first := EnvSetupVm(pm, initEnd);
    ghost var m1 := pm.S();
    assert BootVa(0) == IndexOf(0);
    OnlyMapping(m1, first, initEnd);
    var _ := SysMemUnmap(pm, Some(first), 0);
    ghost var m2 := pm.S();
    LastMappingGone(m1, m2, first);
    FreeingSpendsNothing(m1, m2);
    var again, second, inserted := CreateFirst(pm);
  }
}
