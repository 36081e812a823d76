/** user/fork.c as code: the fault handler and the fork loop, in terms of the system calls they make. */
module UserFork {
  import opened CowFork
  import opened MemoryMap

  const SLOT: int := PTSZ * PTSZ   // pages under one directory entry

  /** Page numbers that the loop of fork looks at. */
  predicate Visited(va: Va) {
    0 <= va < PTSZ * SLOT && va / SLOT != SELF
  }

  /** The child of an eager fork: the boot image, overlaid with the parent's pages below page n. */
  function Copied(base: map<Va, Cell>, parent: map<Va, Cell>, n: Va): map<Va, Cell> {
    base + map va | va in parent && va < n && va != XSTACK :: parent[va]
  }

  /** What fork promises: the child has a copy of every private page of the parent, shares its
      library pages, and has a zero exception stack; nobody else sees any difference. */
  ghost function EagerFork(v: Eager, base: map<Va, Cell>, p: Env, c: Env): Eager
    requires p in v
  {
    v[c := Copied(base, v[p], PTSZ * SLOT)[XSTACK := Private(Zeros())]]
  }

  ghost function BootCells(s: Lazy): map<Va, Cell> {
    map va | va in s.boot :: Shared(s.boot[va], Bytes(s, s.boot[va]))
  }

  /** user_bcopy: between aligned buffers words while four bytes are left; then bytes. */
  method UserBcopy(src: seq<int>, dst: seq<int>, len: nat, aligned: bool) returns (r: seq<int>)
    requires len <= |src| && len <= |dst|
    ensures r == src[..len] + dst[len..]
  {
    r := dst;
    var i: nat := 0;
    while aligned && i + 3 < len
      invariant i <= len && |r| == |dst|
      invariant (forall x | 0 <= x < i :: r[x] == src[x]) && forall x | i <= x < |dst| :: r[x] == dst[x]
    {
      r := r[i := src[i]][i + 1 := src[i + 1]][i + 2 := src[i + 2]][i + 3 := src[i + 3]];
      i := i + 4;
    }
    while i < len
      invariant i <= len && |r| == |dst|
      invariant (forall x | 0 <= x < i :: r[x] == src[x]) && forall x | i <= x < |dst| :: r[x] == dst[x]
    {
      r := r[i := src[i]];
      i := i + 1;
    }
  }

  class Machine {
    var frame: map<Page, Data>
    var space: map<Env, map<Va, Entry>>
    var tmp: map<Env, Copy>
    var pending: map<Env, Dup>
    var asleep: map<Env, Env>
    const boot: map<Va, Page>

    constructor (frame: map<Page, Data>, space: map<Env, map<Va, Entry>>, boot: map<Va, Page>)
      ensures S() == Lazy(frame, space, map[], map[], map[], boot)
    {
      this.frame, this.space, this.boot := frame, space, boot;
      tmp, pending, asleep := map[], map[], map[];
    }

    function S(): Lazy reads this {
      Lazy(frame, space, tmp, pending, asleep, boot)
    }

    /** The handler for a store to a read-only page; q is the page that the allocator picks. */
    method Pgfault(e: Env, va: Va, q: Page) returns (panicked: bool)
      requires Inv(S()) && Runs(S(), e) && e !in tmp && Maps(S(), e, va) && Fresh(S(), q)
      requires forall p | p in frame :: |frame[p]| == BY2PG
      modifies this
      ensures Inv(S()) && View(S()) == old(View(S()))
      ensures panicked == !old(Ent(S(), e, va).ro)
      ensures panicked ==> S() == old(S())
      ensures !panicked ==> Maps(S(), e, va) && Ent(S(), e, va) == Entry(q, false, false) && e !in tmp
    {
      if !space[e][va].ro {
        return true;
      }
      ghost var s := S();
      var was := Bytes(S(), space[e][va].page);
      assert Maps(s, e, va) && s.space[e][va].page in s.frame;
      var copy := UserBcopy(was, Zeros(), BY2PG, true);
      assert copy == was;
      frame := frame[q := copy];
      tmp := tmp[e := Copy(q, va, false)];
      assert S() == Step(s, FaultCopy(e, va, q));
      StepKeepsInv(s, FaultCopy(e, va, q));
      StepSimulates(s, FaultCopy(e, va, q));
      s := S();
      space := space[e := space[e][va := Entry(q, false, false)]];
      tmp := tmp[e := Copy(q, va, true)];
      assert S() == Step(s, FaultMap(e));
      StepKeepsInv(s, FaultMap(e));
      StepSimulates(s, FaultMap(e));
      s := S();
      tmp := tmp - {e};
      assert S() == Step(s, FaultUnmap(e));
      StepKeepsInv(s, FaultUnmap(e));
      StepSimulates(s, FaultUnmap(e));
      return false;
    }

    /** One page of the fork loop. */
    method Duppage(p: Env, c: Env, va: Va)
      requires Inv(S()) && Forking(S(), p, c) && c in space && Maps(S(), p, va)
      modifies this
      ensures Inv(S()) && Forking(S(), p, c) && S().boot == old(S().boot) && c in space
      ensures space.Keys == old(space.Keys) && space[p].Keys == old(space[p].Keys)
      ensures forall q | Fresh(old(S()), q) :: Fresh(S(), q)
      ensures View(S()) == if va == XSTACK then old(View(S())) else EagerStep(old(View(S())), ECopy(p, c, va))
    {
      if va == XSTACK {
        return;
      }
      ghost var s := S();
      var t := space[p][va];
      space := space[c := space[c][va := Entry(t.page, t.ro || !t.lib, t.lib)]];
      if !t.lib && !t.ro {
        pending := pending[p := Dup(c, va)];
      }
      assert S() == Step(s, DupChild(p, va, c));
      FirstCall(s, p, va, c);
      hide Inv, Step, View, EagerStep, Fresh;
      if !t.lib && !t.ro {
        ghost var s1 := S();
        space := space[p := space[p][va := t.(ro := true)]];
        pending := pending - {p};
        SecondCall(s, s1, S(), p, va, c);
        PageReused(s1, S(), p, va, p);
      }
    }

    /** The fork loop has dealt with the pages below n. */
    ghost predicate Progress(v: Eager, base: map<Va, Cell>, p: Env, c: Env, q: Page, n: Va)
      reads this
    {
      && Inv(S()) && Forking(S(), p, c) && c in space && Fresh(S(), q) && p in v && p != c
      && (forall va :: va in space[p] <==> va in v[p])
      && View(S()) == v[c := Copied(base, v[p], n)]
    }

    /** The body of the innermost loop of fork. */
    method Visit(p: Env, c: Env, va: Va, ghost v: Eager, ghost base: map<Va, Cell>, ghost q: Page)
      requires Progress(v, base, p, c, q, va)
      modifies this
      ensures Progress(v, base, p, c, q, va + 1)
    {
      hide Inv, View, Fresh;
      if va in space[p] {
        Duppage(p, c, va);
        CopyOne(v, base, p, c, va);
      } else {
        assert Copied(base, v[p], va + 1) == Copied(base, v[p], va);
      }
    }

    /** The triple loop of fork. */
    method CopyPages(p: Env, c: Env, ghost v: Eager, ghost base: map<Va, Cell>, ghost q: Page)
      requires Progress(v, base, p, c, q, 0) && forall va | va in v[p] :: Visited(va)
      modifies this
      ensures Progress(v, base, p, c, q, PTSZ * SLOT)
    {
      hide Inv, View, Fresh, Copied;
      for i := 0 to PTSZ
        invariant Progress(v, base, p, c, q, i * SLOT)
      {
        if i == SELF {
          SkipSelf(base, v[p]);
        } else {
          for j := 0 to PTSZ
            invariant Progress(v, base, p, c, q, i * SLOT + j * PTSZ)
          {
            for k := 0 to PTSZ
              invariant Progress(v, base, p, c, q, i * SLOT + j * PTSZ + k)
            {
              Visit(p, c, i * SLOT + j * PTSZ + k, v, base, q);
            }
          }
        }
      }
    }

    /** fork, without interruption by other environments and without the parent's own stores to its stack
        and the faults they cause; c is the slot that env_alloc gives the child and q the page for its
        exception stack.  With them, the child's copy of a page is what the parent has there when duppage
        is done with that page, as CowRuns.CowSimulatesEagerCopy says. */
    method Fork(p: Env, c: Env, q: Page)
      requires Inv(S()) && Runs(S(), p) && p !in tmp && p !in pending && c !in space
      requires Fresh(S(), q) && forall va | va in space[p] :: Visited(va)
      modifies this
      ensures Inv(S()) && Runs(S(), p) && Runs(S(), c)
      ensures View(S()) == EagerFork(old(View(S())), BootCells(old(S())), p, c)
    {
      hide Inv, View, Fresh, Copied, BootCells;
      ghost var s := S();
      ghost var v, base := View(s), BootCells(s);
      space := space[c := map va | va in boot :: Entry(boot[va], false, true)];
      asleep := asleep[c := p];
      Begin(s, S(), p, c, q);
      CopyPages(p, c, v, base, q);
      s := S();
      frame := frame[q := Zeros()];
      space := space[c := space[c][XSTACK := Entry(q, false, false)]];
      End(s, S(), p, c, q);
      s := S();
      asleep := asleep - {c};
      Start(s, S(), p, c);
    }
  }

  lemma CopyOne(v: Eager, base: map<Va, Cell>, p: Env, c: Env, va: Va)
    requires p in v && p != c && va in v[p]
    ensures var w := v[c := Copied(base, v[p], va)];
            v[c := Copied(base, v[p], va + 1)] == if va == XSTACK then w else EagerStep(w, ECopy(p, c, va))
  {
    if va == XSTACK {
      assert Copied(base, v[p], va + 1) == Copied(base, v[p], va);
    } else {
      assert Copied(base, v[p], va + 1) == Copied(base, v[p], va)[va := v[p][va]];
    }
  }

  lemma SkipSelf(base: map<Va, Cell>, parent: map<Va, Cell>)
    requires forall va | va in parent :: Visited(va)
    ensures Copied(base, parent, SELF * SLOT) == Copied(base, parent, (SELF + 1) * SLOT)
  {
  }

  lemma Begin(s: Lazy, s': Lazy, p: Env, c: Env, q: Page)
    requires Inv(s) && Enabled(s, NewEnv(p, c)) && p !in s.pending && Fresh(s, q)
    requires s' == s.(space := s.space[c := map va | va in s.boot :: Entry(s.boot[va], false, true)], asleep := s.asleep[c := p])
    requires forall va | va in s.space[p] :: Visited(va)
    ensures Inv(s') && Forking(s', p, c) && Fresh(s', q) && p in View(s)
    ensures View(s') == View(s)[c := Copied(BootCells(s), View(s)[p], 0)]
    ensures forall va :: va in s'.space[p] <==> va in View(s)[p]
    ensures forall va | va in View(s)[p] :: Visited(va)
  {
    BeginState(s, s', p, c, q);
    assert forall va :: va in s.space[p] <==> va in ViewOf(s, p);
    hide Inv, Fresh, ViewOf;
    BeginView(s, s', p, c);
  }

  lemma BeginState(s: Lazy, s': Lazy, p: Env, c: Env, q: Page)
    requires Inv(s) && Enabled(s, NewEnv(p, c)) && p !in s.pending && Fresh(s, q)
    requires s' == s.(space := s.space[c := map va | va in s.boot :: Entry(s.boot[va], false, true)], asleep := s.asleep[c := p])
    ensures Inv(s') && Forking(s', p, c) && Fresh(s', q) && p != c
  {
    hide Backed, Cow, LibraryWritable, Copies, Pendings;
    StepKeepsInv(s, NewEnv(p, c));
    NewEnvSites(s, p, c);
  }

  lemma BeginView(s: Lazy, s': Lazy, p: Env, c: Env)
    requires Inv(s) && Enabled(s, NewEnv(p, c))
    requires p in View(s) && forall va | va in View(s)[p] :: 0 <= va
    requires s' == s.(space := s.space[c := map va | va in s.boot :: Entry(s.boot[va], false, true)], asleep := s.asleep[c := p])
    ensures View(s') == View(s)[c := Copied(BootCells(s), View(s)[p], 0)]
  {
    hide Backed, Cow, LibraryWritable, Copies, Pendings, ViewOf;
    NewEnvView(s, p, c);
    assert Copied(BootCells(s), View(s)[p], 0) == BootCells(s);
  }

  lemma End(s: Lazy, s': Lazy, p: Env, c: Env, q: Page)
    requires Inv(s) && Enabled(s, ExceptionStack(p, c, q))
    requires s' == SetEntry(s.(frame := s.frame[q := Zeros()]), c, XSTACK, Entry(q, false, false))
    ensures Inv(s') && Forking(s', p, c) && c in View(s)
    ensures View(s') == View(s)[c := View(s)[c][XSTACK := Private(Zeros())]]
  {
    StepKeepsInv(s, ExceptionStack(p, c, q));
    FreshView(s, s', c, XSTACK, q, false);
  }

  lemma Start(s: Lazy, s': Lazy, p: Env, c: Env)
    requires Inv(s) && Forking(s, p, c) && s' == s.(asleep := s.asleep - {c})
    ensures Inv(s') && View(s') == View(s)
  {
    StepKeepsInv(s, Wake(p, c));
    StepSimulates(s, Wake(p, c));
  }

  /** Mapping a page that is mapped already uses up no fresh page. */
  lemma PageReused(s: Lazy, s': Lazy, p: Env, va: Va, e: Env)
    requires Maps(s, p, va) && e in s.space && s'.tmp == s.tmp && s'.boot == s.boot
    requires exists t: Entry :: t.page == Ent(s, p, va).page && s'.space == s.space[e := s.space[e][va := t]]
    ensures forall q | Fresh(s, q) :: Fresh(s', q)
  {
    var t: Entry :| t.page == Ent(s, p, va).page && s'.space == s.space[e := s.space[e][va := t]];
    PutIntro(s, s', e, va, t);
  }

  lemma FirstCall(s: Lazy, p: Env, va: Va, c: Env)
    requires Inv(s) && Enabled(s, DupChild(p, va, c))
    ensures var s' := Step(s, DupChild(p, va, c)); var half := !Ent(s, p, va).lib && !Ent(s, p, va).ro;
            && Inv(s') && Maps(s', p, va) && Ent(s', p, va) == Ent(s, p, va)
            && (forall q | Fresh(s, q) :: Fresh(s', q))
            && (if half then s'.pending == s.pending[p := Dup(c, va)] else s'.pending == s.pending)
            && View(s') == EagerStep(View(s), if half then EDrop(c, va) else ECopy(p, c, va))
  {
    StepKeepsInv(s, DupChild(p, va, c));
    StepSimulates(s, DupChild(p, va, c));
    PageReused(s, Step(s, DupChild(p, va, c)), p, va, c);
    hide Inv, View, Fresh;
    var x := Visible(s, DupChild(p, va, c))[0];
    assert EagerRun(View(s), [x]) == EagerRun(EagerStep(View(s), x), []);
  }

  lemma SecondCall(s: Lazy, s1: Lazy, s2: Lazy, p: Env, va: Va, c: Env)
    requires Inv(s) && Enabled(s, DupChild(p, va, c)) && Inv(s1) && s1 == Step(s, DupChild(p, va, c))
    requires s1.pending == s.pending[p := Dup(c, va)] && Maps(s1, p, va)
    requires View(s1) == EagerStep(View(s), EDrop(c, va))
    requires s2 == SetEntry(s1, p, va, Ent(s1, p, va).(ro := true)).(pending := s1.pending - {p})
    ensures Inv(s2) && View(s2) == EagerStep(View(s), ECopy(p, c, va))
  {
    hide Backed, Cow, LibraryWritable, Copies, Pendings, View, EagerStep;
    ParentSees(s, p, va, c);
    SelfStep(s1, s2, p, va, c);
    StepKeepsInv(s1, DupSelf(p));
    DupSelfView(s1, p);
    DropThenCopy(View(s), p, c, va);
  }

  lemma SelfStep(s1: Lazy, s2: Lazy, p: Env, va: Va, c: Env)
    requires Inv(s1) && p in s1.pending && p !in s1.tmp && s1.pending[p] == Dup(c, va) && Maps(s1, p, va)
    requires s2 == SetEntry(s1, p, va, Ent(s1, p, va).(ro := true)).(pending := s1.pending - {p})
    ensures s2 == Step(s1, DupSelf(p))
  {
  }

  lemma ParentSees(s: Lazy, p: Env, va: Va, c: Env)
    requires Inv(s) && Forking(s, p, c) && Maps(s, p, va)
    ensures p in View(s) && c in View(s) && va in View(s)[p] && p != c
  {
  }

  lemma DropThenCopy(v: Eager, p: Env, c: Env, va: Va)
    requires p in v && c in v && p != c && va in v[p]
    ensures EagerStep(EagerStep(v, EDrop(c, va)), ECopy(p, c, va)) == EagerStep(v, ECopy(p, c, va))
  {
    assert (v[c] - {va})[va := v[p][va]] == v[c][va := v[p][va]];
  }
}
