/** The physical page allocator and the page-table operations of mm/pmap.c, updating the
    bitmap, the reference counts and the page-table words in place. */
module Pmap {
  import opened MemoryMap
  import opened PageTables

  /** Where pgdir_walk leaves *ppte: a null pointer, or word x of the table in page t. */
  datatype PtePtr = NoPte | PtePtr(t: nat, x: nat)

  const DEVICES: nat := 0x3F000   // PERIPHERAL_BASE >> 12

  /** The references that the two loops of init_boot_pt count; page 0 is skipped by the first. */
  function BootCount(initEnd: nat, imgEnd: nat, p: nat): nat {
    (if 0 < p < initEnd then 1 else 0) + (if initEnd <= p < imgEnd || p >= DEVICES then 1 else 0)
  }

  class PhysMem {
    const vis: array<bool>      // Kern_vis, one flag per bit
    const refs: array<nat>      // pages[].ref
    const frames: array<Frame>  // the pages themselves, as words
    ghost const pinned: seq<nat>
    var roots: set<nat>         // pages used as e->pgdir

    /** The state left by boot: pages below initEnd and imgEnd hold the boot code, the kernel and
        its tables; pages from PERIPHERAL_BASE on are devices.  Page 0 is allocated but not counted. */
    constructor (initEnd: nat, imgEnd: nat)
      ensures Good() && roots == {} && pinned == refs[..] && fresh(vis) && fresh(refs) && fresh(frames)
      ensures forall p: nat | p < NPAGE :: vis[p] <==> p < initEnd || p < imgEnd || p >= DEVICES
      ensures forall p: nat | p < NPAGE :: pinned[p] == BootCount(initEnd, imgEnd, p)
      ensures 0 < initEnd ==> vis[0] && pinned[0] == 0
    {
      var v := new bool[NPAGE](i => i < initEnd || i < imgEnd || i >= DEVICES);
      var c := new nat[NPAGE](i => if i >= 0 then BootCount(initEnd, imgEnd, i) else 0);
      var f := new Frame[NPAGE](_ => Empty());
      vis, refs, frames := v, c, f;
      pinned, roots := c[..], {};
      new;
      BootIsValid(S());
    }

    ghost function S(): Mem
      reads this, vis, refs, frames
    {
      Mem(vis[..], refs[..], frames[..], pinned, roots)
    }

    ghost predicate Good()
      reads this, vis, refs, frames
    {
      Valid(S())
    }

    method WriteWord(t: nat, x: nat, e: Pte)
      requires t < frames.Length && x < |frames[t]|
      modifies frames
      ensures S() == old(S().(frames := S().frames[t := S().frames[t][x := e]]))
    {
      frames[t] := frames[t][x := e];
      assert frames[..] == old(frames[..])[t := old(frames[t])[x := e]];
    }

    /** The first free page in bit order, zeroed and marked allocated. */
    method PageAlloc() returns (ok: bool, pp: nat)
      requires Sized(S())
      modifies vis, frames
      ensures ok ==> pp < NPAGE && !old(vis[pp]) && S() == Allocated(old(S()), pp)
      ensures ok ==> forall q | 0 <= q < pp :: old(vis[q])
      ensures !ok ==> S() == old(S()) && forall q | 0 <= q < NPAGE :: vis[q]
    {
      for i := 0 to NPAGE / 64
        invariant S() == old(S())
        invariant forall q | 0 <= q < 64 * i :: vis[q]
      {
        if exists q | 64 * i <= q < 64 * (i + 1) :: !vis[q] {
          for j := 0 to 64
            invariant S() == old(S())
            invariant forall q | 0 <= q < 64 * i + j :: vis[q]
          {
            if !vis[64 * i + j] {
              pp := 64 * i + j;
              frames[pp] := Empty();
              vis[pp] := true;
              assert vis[..] == old(vis[..])[pp := true];
              assert frames[..] == old(frames[..])[pp := Empty()];
              return true, pp;
            }
          }
        }
      }
      return false, 0;
    }

    method PageFree(pp: nat)
      requires Sized(S()) && pp < NPAGE
      modifies vis
      ensures S() == old(S()).(vis := old(vis[..])[pp := old(vis[pp]) && refs[pp] > 0])
    {
      if refs[pp] > 0 {
        assert vis[..] == old(vis[..])[pp := old(vis[pp])];
        return;
      }
      vis[pp] := false;
      assert vis[..] == old(vis[..])[pp := false];
    }

    method PageDecref(pp: nat)
      requires Sized(S()) && pp < NPAGE && refs[pp] > 0
      modifies vis, refs
      ensures var c := old(refs[pp]) - 1;
              S() == old(S()).(refs := old(refs[..])[pp := c], vis := old(vis[..])[pp := old(vis[pp]) && c > 0])
    {
      refs[pp] := refs[pp] - 1;
      assert refs[..] == old(refs[..])[pp := old(refs[pp]) - 1];
      PageFree(pp);
    }

    /** Allocates a page and links it at the empty table word x of page t, which is site s. */
    method LinkTable(t: nat, x: nat, ghost s: Site) returns (ok: bool)
      requires Good() && !s.Leaf? && WordOf(S(), s, t, x) && At(S(), s).Zero?
      requires t < NPAGE && x < PTSZ
      modifies vis, refs, frames
      ensures Good() && GrewTables(old(S()), S())
      ensures ok ==> At(S(), s).Entry? && OnlyAt(old(S()), S(), s, At(S(), s)) && S().frames[t][x] == At(S(), s)
      ensures Spent(old(S()), S(), 1) && Tidy(old(S()), S())
      ensures !ok ==> S() == old(S()) && forall q | 0 <= q < NPAGE :: vis[q]
    {
      ghost var m := S();
      var pp;
      ok, pp := PageAlloc();
      if !ok { return; }
      hide Tidy;
      AllocationSpendsOne(m, S(), pp);
      Unreferenced(m, pp);
      WriteWord(t, x, Entry(pp, LINK));
      refs[pp] := refs[pp] + 1;
      assert refs[..] == m.refs[pp := m.refs[pp] + 1];
      LinkKeepsValid(m, S(), s, t, x, pp);
      LinkIsTidy(m, S(), s, t, x, pp);
      assert At(S(), s) == Entry(pp, LINK);
    }

    method PgdirWalk(pgdir: nat, va: Va, create: bool) returns (ok: bool, ppte: PtePtr)
      requires Good() && pgdir in roots && va.InRange()
      modifies vis, refs, frames
      ensures Good() && GrewTables(old(S()), S())
      ensures !create || MidAt(old(S()), pgdir, va.i, va.j).Entry? ==> ok && S() == old(S())
      ensures ok && (create || MidAt(old(S()), pgdir, va.i, va.j).Entry?) ==> ppte.PtePtr?
      ensures ppte.PtePtr? ==> WordOf(S(), Leaf(pgdir, va), ppte.t, ppte.x) && ppte.t < NPAGE && ppte.x < PTSZ
      ensures ok && !create && MidAt(S(), pgdir, va.i, va.j).Zero? ==> ppte.NoPte?
      ensures !ok ==> create && MidAt(old(S()), pgdir, va.i, va.j).Zero? && forall q | 0 <= q < NPAGE :: vis[q]
      ensures Spent(old(S()), S(), 2) && (!ok ==> |FreePages(old(S()))| < 2) && Tidy(old(S()), S())
    {
      hide Conserved, Trees, TablesUnpinned, CountedIsAllocated, FreePages;
      var addr: nat := pgdir;
      var level: nat := 0;
      while level < 2
        invariant 0 <= level <= 2 && addr < NPAGE
        invariant Good() && GrewTables(old(S()), S()) && Spent(old(S()), S(), level) && Tidy(old(S()), S())
        invariant !create ==> S() == old(S())
        invariant level == 0 ==> addr == pgdir && S() == old(S())
        invariant MidAt(old(S()), pgdir, va.i, va.j).Entry? ==> S() == old(S())
        invariant level == 1 ==> MidAt(S(), pgdir, va.i, va.j) == MidAt(old(S()), pgdir, va.i, va.j)
        invariant level == 1 ==> WordOf(S(), Mid(pgdir, va.i, va.j), addr, va.j)
        invariant level == 2 ==> WordOf(S(), Leaf(pgdir, va), addr, va.k)
      {
        level := level + 1;
        var x := if level == 1 then va.i else va.j;
        ghost var s := if level == 1 then Dir(pgdir, va.i) else Mid(pgdir, va.i, va.j);
        assert WordOf(S(), s, addr, x) && At(S(), s) == frames[addr][x];
        if frames[addr][x].Zero? {
          if !create {
            return true, NoPte;
          }
          ghost var m := S();
          var linked := LinkTable(addr, x, s);
          GrewTablesTransitive(old(S()), m, S());
          if !linked {
            NoneFree(S());
            return false, NoPte;
          }
          assert At(S(), s).Entry?;
          assert level == 1 ==> At(S(), Mid(pgdir, va.i, va.j)) == At(m, Mid(pgdir, va.i, va.j));
        }
        addr := frames[addr][x].ppn;
      }
      ppte := PtePtr(addr, va.k);
      ok := true;
    }

    method PageLookup(pgdir: nat, va: Va) returns (found: bool, pp: nat, ppte: PtePtr)
      requires Good() && pgdir in roots && va.InRange()
      modifies vis, refs, frames
      ensures Good() && S() == old(S())
      ensures found <==> Translate(S(), pgdir, va).Entry?
      ensures found ==> pp == Translate(S(), pgdir, va).ppn && ppte.PtePtr?
                        && WordOf(S(), Leaf(pgdir, va), ppte.t, ppte.x) && ppte.t < NPAGE
    {
      var _, pte := PgdirWalk(pgdir, va, false);
      if pte.NoPte? || frames[pte.t][pte.x].Zero? {
        return false, 0, NoPte;
      }
      return true, frames[pte.t][pte.x].ppn, pte;
    }

    /** Deletes va from the address space. */
    method PageRemove(pgdir: nat, va: Va)
      requires Good() && pgdir in roots && va.InRange()
      modifies vis, refs, frames
      ensures Good() && OnlyAt(old(S()), S(), Leaf(pgdir, va), Zero) && Remaps(old(S()), S(), pgdir, va, Zero)
      ensures DataStays(old(S()), S()) && Recounts(old(S()), S(), Translate(old(S()), pgdir, va), Zero)
      ensures Freed(old(S()), S()) && Tidy(old(S()), S())
      ensures forall r | r in roots :: frames[r] == old(frames[r])
      ensures forall p: nat :: IsTable(S(), p) <==> IsTable(old(S()), p)
      ensures MidAt(old(S()), pgdir, va.i, va.j).Entry? ==> MidAt(S(), pgdir, va.i, va.j).Entry?
    {
      hide Conserved, Trees, TablesUnpinned, CountedIsAllocated, InBounds;
      var found, ppage, pte := PageLookup(pgdir, va);
      if !found {
        assert At(S(), Leaf(pgdir, va)).Zero?;
        return;
      }
      HeldIsCounted(S(), Leaf(pgdir, va));
      assert RefersTo(S(), Mid(pgdir, va.i, va.j), pte.t);
      refs[ppage] := refs[ppage] - 1;
      assert refs[..] == old(refs[..])[ppage := old(refs[ppage]) - 1];
      PageFree(ppage);
      WriteWord(pte.t, pte.x, Zero);
      UnmapKeepsValid(old(S()), S(), pgdir, va, pte.t);
      LeafTableIsNotRoot(old(S()), pgdir, va, pte.t, pte.x);
    }

    /** Updates va in the address space; on failure the address space is as it was.  The invariant is
        kept exactly when the page is no table; the source does not look. */
    method PageInsert(pgdir: nat, pp: nat, va: Va, perm: Perm) returns (ok: bool)
      requires Good() && pgdir in roots && va.InRange()
      requires pp < NPAGE && vis[pp]
      modifies vis, refs, frames
      ensures Sized(S()) && DataKept(old(S()), S())
      ensures ok ==> (Good() <==> !IsTable(old(S()), pp)) && (IsTable(old(S()), pp) ==> !Trees(S()))
      ensures !ok ==> Good() && |FreePages(old(S()))| < 2
      ensures Released(old(S()), S()) && Spent(old(S()), S(), 2) && Tidy(old(S()), S())
      ensures ok ==> Remaps(old(S()), S(), pgdir, va, Entry(pp, perm))
      ensures ok ==> Recounts(old(S()), S(), Translate(old(S()), pgdir, va), Entry(pp, perm))
      ensures Translate(old(S()), pgdir, va).Zero? ==> forall p | 0 <= p < NPAGE && old(vis[p]) :: vis[p]
      ensures !ok ==> GrewTables(old(S()), S()) && Translate(old(S()), pgdir, va).Zero? && forall q | 0 <= q < NPAGE :: vis[q]
    {
      hide Conserved, Trees, TablesUnpinned, CountedIsAllocated, InBounds, GrewTables, DirAt, FreePages, Released, Tidy;
      ghost var m := S();
      var _, pte := PgdirWalk(pgdir, va, false);
      if pte.PtePtr? && frames[pte.t][pte.x].Entry? {
        assert RefersTo(m, Mid(pgdir, va.i, va.j), pte.t);
        MappedIsData(m, pgdir, va);
        if frames[pte.t][pte.x].ppn != pp {
          PageRemove(pgdir, va);
          ghost var m1 := S();
          FreeingSpendsNothing(m, m1);
          ok := MapEmpty(pgdir, pp, va, perm);
          ReplaceComposes(m, m1, S(), pgdir, va, Entry(pp, perm));
          TidyTransitive(m, m1, S());
          ReleasedThenMapped(m, m1, S(), pp);
          return;
        } else {
          WriteWord(pte.t, pte.x, Entry(pp, perm));
          WriteIsTidy(m, S(), Leaf(pgdir, va), pte.t, pte.x, Entry(pp, perm));
          RemapKeepsValid(m, S(), pgdir, va, pte.t, Entry(pp, perm));
          FreeingSpendsNothing(m, S());
          GainedIsReleased(m, S());
          return true;
        }
      }
      ok := MapEmpty(pgdir, pp, va, perm);
      GainedIsReleased(m, S());
    }

    /** The second half of page_insert: va is not mapped; its tables are created if need be. */
    method MapEmpty(pgdir: nat, pp: nat, va: Va, perm: Perm) returns (ok: bool)
      requires Good() && pgdir in roots && va.InRange() && Translate(S(), pgdir, va).Zero?
      requires pp < NPAGE && vis[pp]
      modifies vis, refs, frames
      ensures Sized(S()) && DataKept(old(S()), S())
      ensures ok ==> (Good() <==> !IsTable(old(S()), pp)) && (IsTable(old(S()), pp) ==> !Trees(S()))
      ensures !ok ==> Good() && |FreePages(old(S()))| < 2
      ensures Spent(old(S()), S(), 2) && Tidy(old(S()), S()) && forall p | 0 <= p < NPAGE && old(vis[p]) :: refs[p] >= old(refs[p])
      ensures ok ==> Remaps(old(S()), S(), pgdir, va, Entry(pp, perm)) && Recounts(old(S()), S(), Zero, Entry(pp, perm))
      ensures MidAt(old(S()), pgdir, va.i, va.j).Entry? ==>
                ok && DataStays(old(S()), S()) && refs[..] == old(refs[..])[pp := old(refs[pp]) + 1] && vis[..] == old(vis[..])
      ensures forall p | 0 <= p < NPAGE && old(vis[p]) :: vis[p]
      ensures !ok ==> GrewTables(old(S()), S()) && forall q | 0 <= q < NPAGE :: vis[q]
    {
      hide Conserved, CountedIsAllocated, Trees, TablesUnpinned, InBounds, FreePages, Tidy;
      var pte;
      ok, pte := PgdirWalk(pgdir, va, true);
      if !ok {
        return;
      }
      ghost var m := S();
      TableStays(old(S()), m, pp);
      WriteWord(pte.t, pte.x, Entry(pp, perm));
      refs[pp] := refs[pp] + 1;
      assert refs[..] == m.refs[pp := m.refs[pp] + 1];
      MapValidIffData(m, S(), pgdir, va, pte.t, Entry(pp, perm));
      FreeingSpendsNothing(m, S());
      WriteIsTidy(m, S(), Leaf(pgdir, va), pte.t, pte.x, Entry(pp, perm));
      TidyTransitive(old(S()), m, S());
      GrowComposes(old(S()), m, S(), pgdir, va, Entry(pp, perm));
    }
  }
}
