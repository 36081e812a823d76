/** Creation and teardown of address spaces, as in kernel/env.c. */
module EnvVm {
  import opened MemoryMap
  import opened PageTables
  import opened Pmap

  /** The permission of the boot image in every address space: PTE_RW | PTE_USER | PTE_LIBRARY. */
  const BOOT: Perm := Perm(true, false, true)

  /** The address i << 12 for a physical page number i. */
  function BootVa(i: nat): (va: Va)
    ensures i < NPAGE ==> va.InRange()
  {
    Va(i / (PTSZ * PTSZ), i / PTSZ % PTSZ, i % PTSZ)
  }

  /** The page number that a virtual address has: VPN(va). */
  function PageNumber(va: Va): nat {
    (va.i * PTSZ + va.j) * PTSZ + va.k
  }

  lemma PageNumberOfBootVa(p: nat)
    ensures PageNumber(BootVa(p)) == p
  {
    assert p == PTSZ * (p / PTSZ) + p % PTSZ;
    assert p / PTSZ == PTSZ * (p / PTSZ / PTSZ) + p / PTSZ % PTSZ;
    assert p / (PTSZ * PTSZ) == p / PTSZ / PTSZ;
  }

  /** The first n pages are allocated and none of them is a table. */
  ghost predicate BootPages(m: Mem, n: nat) requires Sized(m) {
    forall p: nat | p < n && p < NPAGE :: m.vis[p] && !IsTable(m, p)
  }

  /** Address space r maps nothing but the first n pages, each at its own number. */
  ghost predicate MapsBootOnly(m: Mem, r: nat, n: nat) {
    forall w: Va | Translate(m, r, w).Entry? ::
      PageNumber(w) < n && w == BootVa(PageNumber(w)) && Translate(m, r, w) == Entry(PageNumber(w), BOOT)
  }

  ghost predicate AllBootMapped(m: Mem, r: nat, n: nat) {
    forall p: nat | p < n :: Translate(m, r, BootVa(p)) == Entry(p, BOOT)
  }

  ghost predicate FreeLeft(m: Mem) requires Sized(m) {
    exists q: nat :: q < NPAGE && !m.vis[q]
  }

  /** Spaces other than r translate in m' as they did in m. */
  ghost predicate OthersKept(m: Mem, m': Mem, r: nat) {
    forall q: nat, w: Va | q != r :: Translate(m', q, w) == Translate(m, q, w)
  }

  /** Pages that were allocated still are, and none has lost a reference. */
  ghost predicate OnlyGained(m: Mem, m': Mem) requires Sized(m) && Sized(m') {
    forall p: nat | p < NPAGE && m.vis[p] :: m'.vis[p] && m'.refs[p] >= m.refs[p]
  }

  /** Every directory maps itself in its own slot, which is how programs read their page tables. */
  ghost predicate SelfMapped(m: Mem) requires Sized(m) {
    forall r: nat | r in m.roots :: m.frames[r][SELF] == Entry(r, LINK)
  }

  /** env_setup_vm up to its last loop: an address space that maps nothing. */
  method BeginSpace(pm: PhysMem) returns (ok: bool, pgdir: nat)
    requires pm.Good()
    modifies pm, pm.vis, pm.refs, pm.frames
    ensures pm.Good() && OnlyGained(old(pm.S()), pm.S()) && Spent(old(pm.S()), pm.S(), 1) && Tidy(old(pm.S()), pm.S())
    ensures ok ==> pgdir < NPAGE && pm.S().frames[pgdir][SELF] == Entry(pgdir, LINK)
    ensures ok ==> pgdir !in old(pm.roots) && pm.roots == old(pm.roots) + {pgdir} && pgdir < NPAGE && !old(pm.vis[pgdir])
    ensures ok ==> OnlyAt(old(pm.S()), pm.S(), Root(pgdir), Entry(pgdir, LINK))
    ensures ok ==> forall q: nat | q < pgdir :: old(pm.vis[q])
    ensures DataKept(old(pm.S()), pm.S())
    ensures !ok ==> pm.S() == old(pm.S()) && |FreePages(pm.S())| == 0 && !FreeLeft(pm.S())
  {
    hide Conserved, CountedIsAllocated, TablesUnpinned, Trees, InBounds, FreePages;
    ok, pgdir := pm.PageAlloc();
    if !ok { NoneFree(pm.S()); return; }
    NewDirectory(pm, pgdir, old(pm.S()));
    hide Tidy;
    AllocationSpendsOne(old(pm.S()), pm.S(), pgdir);
  }

  /** A new address space that maps the boot image; n is the number of boot pages. */
  method EnvSetupVm(pm: PhysMem, n: nat) returns (ok: bool, pgdir: nat)
    requires pm.Good() && n <= NPAGE && BootPages(pm.S(), n)
    modifies pm, pm.vis, pm.refs, pm.frames
    ensures pm.Good() && BootPages(pm.S(), n) && OnlyGained(old(pm.S()), pm.S()) && Spent(old(pm.S()), pm.S(), 1 + 2 * n)
    ensures DataKept(old(pm.S()), pm.S()) && Tidy(old(pm.S()), pm.S()) && (SelfMapped(old(pm.S())) ==> SelfMapped(pm.S()))
    ensures forall q: nat | q < NPAGE && IsData(old(pm.S()), q) :: IsData(pm.S(), q)
    ensures ok ==> pgdir !in old(pm.roots) && pm.roots == old(pm.roots) + {pgdir}
    ensures ok ==> MapsBootOnly(pm.S(), pgdir, n) && OthersKept(old(pm.S()), pm.S(), pgdir)
    ensures ok && FreeLeft(pm.S()) ==> AllBootMapped(pm.S(), pgdir, n)
    ensures |FreePages(old(pm.S()))| > 1 + 2 * n ==> ok && AllBootMapped(pm.S(), pgdir, n)
    ensures !ok ==> pm.S() == old(pm.S()) && !FreeLeft(pm.S())
  {
    hide Conserved, CountedIsAllocated, TablesUnpinned, Trees, InBounds, BootVa, PageNumber, FreePages, Tidy, SelfMapped, OnlyAt;
    ghost var m0 := pm.S();
    ok, pgdir := BeginSpace(pm);
    if !ok { return; }
    ghost var m := pm.S();
    NewSpaceIsEmpty(m0, m, pgdir);
    TidyNothing(m);
    for i := 0 to n
      invariant pm.Good() && BootPages(pm.S(), n) && pm.roots == m.roots
      invariant forall q: nat | q < NPAGE && IsData(m0, q) :: IsData(pm.S(), q)
      invariant OthersKept(m, pm.S(), pgdir) && MapsBootOnly(pm.S(), pgdir, i)
      invariant FreeLeft(pm.S()) ==> AllBootMapped(pm.S(), pgdir, i)
      invariant OnlyGained(m0, pm.S()) && Spent(m0, pm.S(), 1 + 2 * i) && Tidy(m, pm.S()) && DataKept(m0, pm.S())
      invariant |FreePages(m0)| > 1 + 2 * n ==> AllBootMapped(pm.S(), pgdir, i)
    {
      ghost var m1 := pm.S();
      PageNumberOfBootVa(i);
      var inserted := pm.PageInsert(pgdir, i, BootVa(i), BOOT);
      BootStep(m, m1, pm.S(), pgdir, i, inserted);
      TidyTransitive(m, m1, pm.S());
    }
    TidyTransitive(m0, m, pm.S());
    NewSelfMap(m0, m, pm.S(), pgdir);
  }

  /** env_setup_vm up to and including its first insertion, that of page 0, which boot has allocated but
      not counted.  Whatever has become of page 0, the insertion keeps the invariant exactly when the
      page is still allocated and no table; otherwise a table is left mapped for the user. */
  method CreateFirst(pm: PhysMem) returns (ok: bool, pgdir: nat, inserted: bool)
    requires pm.Good()
    modifies pm, pm.vis, pm.refs, pm.frames
    ensures !ok || !inserted ==> pm.Good()
    ensures ok && inserted ==> (pm.Good() <==> IsData(old(pm.S()), 0))
    ensures ok && inserted ==> Sized(pm.S()) && Translate(pm.S(), pgdir, BootVa(0)) == Entry(0, BOOT)
    ensures ok && inserted && !IsData(old(pm.S()), 0) ==> !Trees(pm.S())
    ensures ok && !old(pm.vis[0]) ==> pgdir == 0
    ensures |FreePages(old(pm.S()))| > 2 ==> ok && inserted
  {
    hide Conserved, CountedIsAllocated, TablesUnpinned, InBounds, BootVa, FreePages;
    ghost var m0 := pm.S();
    inserted := false;
    ok, pgdir := BeginSpace(pm);
    if !ok { return; }
    ghost var m := pm.S();
    PageZero(m0, m, pgdir);
    NewSpaceIsEmpty(m0, m, pgdir);
    inserted := pm.PageInsert(pgdir, 0, BootVa(0), BOOT);
  }

  /** After a directory was created, page 0 is a table exactly if it was no data page before. */
  lemma PageZero(m0: Mem, m: Mem, pgdir: nat)
    requires Valid(m0) && Valid(m) && OnlyAt(m0, m, Root(pgdir), Entry(pgdir, LINK)) && pgdir !in m0.roots
    requires forall q: nat | q < pgdir :: q < NPAGE && m0.vis[q]
    requires OnlyGained(m0, m) && (IsData(m0, 0) ==> !IsTable(m, 0))
    ensures m.vis[0] && (IsTable(m, 0) <==> !IsData(m0, 0)) && (!m0.vis[0] ==> pgdir == 0)
  {
    if !m0.vis[0] {
      assert RefersTo(m, Root(pgdir), 0);
      HeldIsCounted(m, Root(pgdir));
    } else if IsTable(m0, 0) {
      var s: Site :| !s.Leaf? && RefersTo(m0, s, 0);
      assert At(m0, Root(pgdir)).Zero?;
      assert RefersTo(m, s, 0);
    }
  }

  lemma NewSpaceIsEmpty(m: Mem, m': Mem, r: nat)
    requires r !in m.roots && OnlyAt(m, m', Root(r), Entry(r, LINK))
    ensures forall w: Va :: Translate(m', r, w).Zero?
    ensures OthersKept(m, m', r)
  {
    forall q: nat, w: Va ensures Translate(m', q, w) == Translate(m, q, w) {
      assert At(m', Leaf(q, w)) == At(m, Leaf(q, w));
    }
  }

  lemma NewSelfMap(m0: Mem, m: Mem, m': Mem, r: nat)
    requires Sized(m0) && Sized(m) && Sized(m') && m.roots == m'.roots == m0.roots + {r} && Tidy(m0, m) && Tidy(m, m')
    requires m.frames[r][SELF] == Entry(r, LINK)
    ensures SelfMapped(m0) ==> SelfMapped(m')
  {
  }

  /** One round of the loop of env_setup_vm, whose result the source ignores. */
  lemma BootStep(m0: Mem, m: Mem, m': Mem, r: nat, i: nat, inserted: bool)
    requires Sized(m) && Sized(m') && OthersKept(m0, m, r) && MapsBootOnly(m, r, i)
    requires if inserted then Remaps(m, m', r, BootVa(i), Entry(i, BOOT)) else GrewTables(m, m')
    ensures OthersKept(m0, m', r) && MapsBootOnly(m', r, i + 1)
    ensures inserted && AllBootMapped(m, r, i) ==> AllBootMapped(m', r, i + 1)
  {
    PageNumberOfBootVa(i);
    forall p: nat | p < i ensures BootVa(p) != BootVa(i) {
      PageNumberOfBootVa(p);
    }
  }

  method NewDirectory(pm: PhysMem, pgdir: nat, ghost m: Mem)
    requires Valid(m) && pgdir < NPAGE && !m.vis[pgdir] && pm.S() == Allocated(m, pgdir)
    modifies pm, pm.refs, pm.frames
    ensures pm.Good() && pm.roots == m.roots + {pgdir} && pgdir !in m.roots
    ensures OnlyAt(m, pm.S(), Root(pgdir), Entry(pgdir, LINK))
    ensures pm.frames[pgdir][SELF] == Entry(pgdir, LINK) && Tidy(m, pm.S())
    ensures pm.refs[..] == m.refs[pgdir := m.refs[pgdir] + 1] && pm.vis[..] == m.vis[pgdir := true]
    ensures DataKept(m, pm.S())
  {
    pm.refs[pgdir] := pm.refs[pgdir] + 1;
    assert pm.refs[..] == m.refs[pgdir := m.refs[pgdir] + 1];
    for i := 0 to PTSZ
      invariant pm.S() == Allocated(m, pgdir).(refs := m.refs[pgdir := m.refs[pgdir] + 1])
    {
      pm.WriteWord(pgdir, i, Zero);
      assert Empty()[i := Zero] == Empty();
      assert pm.frames[..] == Allocated(m, pgdir).frames;
    }
    pm.WriteWord(pgdir, SELF, Entry(pgdir, LINK));
    pm.roots := pm.roots + {pgdir};
    NewRootKeepsValid(m, pm.S(), pgdir, LINK);
  }

  /** The page-table part of env_free: every reference held by the tree of pgdir goes, and no other. */
  method EnvFree(pm: PhysMem, pgdir: nat)
    requires pm.Good() && pgdir in pm.roots
    modifies pm, pm.vis, pm.refs, pm.frames
    ensures pm.Good() && pm.roots == old(pm.roots) - {pgdir}
    ensures Torn(old(pm.S()), pm.S(), pgdir) && Tidy(old(pm.S()), pm.S())
  {
    hide Conserved, CountedIsAllocated, TablesUnpinned, Trees, InBounds, Tidy;
    ghost var m0 := pm.S();
    ClearSelf(m0, pgdir);
    assert RefersTo(m0, Root(pgdir), pgdir);
    pm.WriteWord(pgdir, SELF, Zero);
    ghost var m1 := pm.S();
    TidyNothing(m1);
    for i := 0 to PTSZ
      invariant pm.Good() && pm.roots == m0.roots && Torn(m0, pm.S(), pgdir) && Tidy(m1, pm.S())
      invariant pm.frames[pgdir][SELF].Zero?
      invariant forall d: nat | d < i :: DirAt(pm.S(), pgdir, d).Zero?
    {
      if pm.frames[pgdir][i].Entry? {
        ghost var m := pm.S();
        FreeDir(pm, pgdir, i);
        TornTransitive(m0, m, pm.S(), pgdir);
        TidyTransitive(m1, m, pm.S());
        forall d: nat | d < i + 1 ensures DirAt(pm.S(), pgdir, d).Zero? {
          assert At(pm.S(), Dir(pgdir, d)) == At(m, Dir(pgdir, d)) || At(pm.S(), Dir(pgdir, d)).Zero?;
        }
      }
    }
    ghost var m := pm.S();
    HeldIsCounted(m, Root(pgdir));
    pm.PageDecref(pgdir);
    pm.roots := pm.roots - {pgdir};
    DropRootKeepsValid(m, pm.S(), pgdir);
    TornStep(m, pm.S(), Root(pgdir));
    TornTransitive(m0, m, pm.S(), pgdir);
    ClearedIsTidy(m0, m1, m, pm.S(), pgdir);
  }

  lemma ClearedIsTidy(m0: Mem, m1: Mem, m: Mem, m': Mem, r: nat)
    requires Sized(m0) && Sized(m1) && Sized(m) && Sized(m') && r < NPAGE && Tidy(m1, m) && Freed(m, m')
    requires m1 == m0.(frames := m0.frames[r := m0.frames[r][SELF := Zero]])
    requires m.roots == m0.roots && m'.roots == m0.roots - {r} && m'.frames == m.frames
    ensures Tidy(m0, m')
  {
    forall p: nat | p < NPAGE && Lost(m', p) ensures Lost(m0, p) {
      assert Lost(m, p) && Lost(m1, p);
    }
  }

  /** The body of the outer loop of env_free, for a directory entry that is present. */
  method FreeDir(pm: PhysMem, pgdir: nat, i: nat)
    requires pm.Good() && pgdir in pm.roots && i < PTSZ && i != SELF && pm.frames[pgdir][i].Entry?
    modifies pm.vis, pm.refs, pm.frames
    ensures pm.Good() && Torn(old(pm.S()), pm.S(), pgdir) && Tidy(old(pm.S()), pm.S())
    ensures DirAt(pm.S(), pgdir, i).Zero?
    ensures pm.frames[pgdir][SELF] == old(pm.frames[pgdir][SELF])
  {
    hide Conserved, CountedIsAllocated, TablesUnpinned, Tidy;
    ghost var m0 := pm.S();
    var pa1 := pm.frames[pgdir][i].ppn;
    assert At(m0, Root(pgdir)).Entry? && At(m0, Dir(pgdir, i)).Entry?;
    assert pa1 != pgdir && pa1 < NPAGE;
    TidyNothing(m0);
    for j := 0 to PTSZ
      invariant pm.Good() && pm.roots == m0.roots && Torn(m0, pm.S(), pgdir) && Tidy(m0, pm.S())
      invariant pm.frames[pgdir] == m0.frames[pgdir]
      invariant forall n: nat | n < j :: MidAt(pm.S(), pgdir, i, n).Zero?
    {
      if pm.frames[pa1][j].Entry? {
        ghost var m := pm.S();
        FreeMid(pm, pgdir, i, j);
        TornTransitive(m0, m, pm.S(), pgdir);
        TidyTransitive(m0, m, pm.S());
        forall n: nat | n < j + 1 ensures MidAt(pm.S(), pgdir, i, n).Zero? {
          assert At(pm.S(), Mid(pgdir, i, n)) == At(m, Mid(pgdir, i, n)) || At(pm.S(), Mid(pgdir, i, n)).Zero?;
        }
      }
    }
    ghost var m := pm.S();
    Unlink(pm, Dir(pgdir, i), pgdir, i);
    TornTransitive(m0, m, pm.S(), pgdir);
    TidyTransitive(m0, m, pm.S());
  }

  /** Clears the table word of an emptied table and releases the table. */
  method Unlink(pm: PhysMem, ghost s: Site, t: nat, x: nat)
    requires pm.Good() && (s.Dir? || s.Mid?) && t < NPAGE && x < PTSZ
    requires WordOf(pm.S(), s, t, x) && At(pm.S(), s).Entry? && EmptyBelow(pm.S(), s)
    modifies pm.vis, pm.refs, pm.frames
    ensures pm.Good() && Torn(old(pm.S()), pm.S(), s.r) && At(pm.S(), s).Zero? && Tidy(old(pm.S()), pm.S())
    ensures forall p: nat | p < NPAGE && p != t :: pm.frames[p] == old(pm.frames[p])
    ensures forall y: nat | y < PTSZ && y != x :: pm.frames[t][y] == old(pm.frames[t][y])
  {
    ghost var m := pm.S();
    HeldIsCounted(m, s);
    var pa := pm.frames[t][x].ppn;
    pm.WriteWord(t, x, Zero);
    pm.PageDecref(pa);
    WordIsNotSelf(m, s, t, x);
    UnlinkKeepsValid(m, pm.S(), s, t, x);
    TornStep(m, pm.S(), s);
  }

  /** The body of the middle loop: the leaf table of (i, j) is emptied, unlinked and released. */
  method FreeMid(pm: PhysMem, pgdir: nat, i: nat, j: nat)
    requires pm.Good() && pgdir in pm.roots && i < PTSZ && i != SELF && j < PTSZ
    requires MidAt(pm.S(), pgdir, i, j).Entry?
    modifies pm.vis, pm.refs, pm.frames
    ensures pm.Good() && Torn(old(pm.S()), pm.S(), pgdir) && Tidy(old(pm.S()), pm.S())
    ensures MidAt(pm.S(), pgdir, i, j).Zero?
    ensures pm.frames[pgdir] == old(pm.frames[pgdir])
  {
    hide Conserved, CountedIsAllocated, TablesUnpinned, Tidy;
    ghost var m0 := pm.S();
    ghost var link := MidAt(m0, pgdir, i, j);
    var pa1 := pm.frames[pgdir][i].ppn;
    var pa2 := pm.frames[pa1][j].ppn;
    assert At(m0, Root(pgdir)).Entry? && At(m0, Dir(pgdir, i)).Entry? && At(m0, Mid(pgdir, i, j)).Entry?;
    assert pa2 < NPAGE && pa1 < NPAGE && pa1 != pgdir && pa2 != pgdir;
    TidyNothing(m0);
    for k := 0 to PTSZ
      invariant pm.Good() && pm.roots == m0.roots && Torn(m0, pm.S(), pgdir) && Tidy(m0, pm.S())
      invariant pm.frames[pgdir] == m0.frames[pgdir] && MidAt(pm.S(), pgdir, i, j) == link
      invariant forall n: nat | n < k :: Translate(pm.S(), pgdir, Va(i, j, n)).Zero?
    {
      if pm.frames[pa2][k].Entry? {
        ghost var m := pm.S();
        pm.PageRemove(pgdir, Va(i, j, k));
        TornStep(m, pm.S(), Leaf(pgdir, Va(i, j, k)));
        TornTransitive(m0, m, pm.S(), pgdir);
        TidyTransitive(m0, m, pm.S());
        forall n: nat | n < k + 1 ensures Translate(pm.S(), pgdir, Va(i, j, n)).Zero? {
          assert At(pm.S(), Leaf(pgdir, Va(i, j, n))) == if n == k then Zero else At(m, Leaf(pgdir, Va(i, j, n)));
        }
        assert At(pm.S(), Mid(pgdir, i, j)) == At(m, Mid(pgdir, i, j));
      }
    }
    ghost var m := pm.S();
    Unlink(pm, Mid(pgdir, i, j), pa1, j);
    TornTransitive(m0, m, pm.S(), pgdir);
    TidyTransitive(m0, m, pm.S());
  }
}
