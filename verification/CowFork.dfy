/** Copy-on-write fork of user/fork.c as a transition system over all environments, split at the
    system calls that user code issues, and its specification: the machine in which fork copies
    every private page at once and pages marked PTE_LIBRARY are shared. */
module CowFork {
  import opened MemoryMap

  type Env = int
  type Page = int
  type Va = int          // a page number, va >> 12
  type Data = seq<int>   // the contents of a page

  const XSTACK: Va := 0x7f0_0000 - 1   // UXSTACKTOP - BY2PG
  const TMP: Va := 0x3f000 - 1         // USTACKTOP, where the fault handler builds its copy

  function Zeros(): (d: Data)
    ensures |d| == BY2PG
  {
    seq(BY2PG, _ => 0)
  }

  datatype Entry = Entry(page: Page, ro: bool, lib: bool)

  /** A page being copied by the fault handler of an environment, and whether it has already
      been mapped at the faulting address. */
  datatype Copy = Copy(page: Page, va: Va, mapped: bool)

  /** A page that fork has mapped in the child but not yet marked read-only in the parent. */
  datatype Dup = Dup(child: Env, va: Va)

  datatype Lazy = Lazy(
    frame: map<Page, Data>,
    space: map<Env, map<Va, Entry>>,
    tmp: map<Env, Copy>,       // what each fault handler in progress has at TMP
    pending: map<Env, Dup>,    // per parent, the page between the two calls of duppage
    asleep: map<Env, Env>,     // a child that is not runnable yet, and its parent
    boot: map<Va, Page>)       // what env_alloc maps in every new environment

  predicate Maps(s: Lazy, e: Env, va: Va) {
    e in s.space && va in s.space[e]
  }

  function Ent(s: Lazy, e: Env, va: Va): Entry
    requires Maps(s, e, va)
  {
    s.space[e][va]
  }

  function Bytes(s: Lazy, p: Page): Data {
    if p in s.frame then s.frame[p] else Zeros()
  }

  /** No mapping of any kind refers to page q. */
  ghost predicate Fresh(s: Lazy, q: Page) {
    && (forall e, va | Maps(s, e, va) :: Ent(s, e, va).page != q)
    && (forall e | e in s.tmp :: s.tmp[e].page != q)
    && q !in s.boot.Values
  }

  predicate HalfDuplicated(s: Lazy, p: Env, c: Env, va: Va) {
    p in s.pending && s.pending[p] == Dup(c, va)
  }

  /** The two sites of a page between the two calls of duppage. */
  predicate PendingPair(s: Lazy, e: Env, va: Va, f: Env, wa: Va) {
    va == wa && (HalfDuplicated(s, e, f, va) || HalfDuplicated(s, f, e, va))
  }

  /** A page reachable through two private mappings is read-only in both; a page is either
      shared as a library page or private, never both. */
  ghost predicate Cow(s: Lazy) {
    forall e, va, f, wa | Maps(s, e, va) && Maps(s, f, wa) && Ent(s, e, va).page == Ent(s, f, wa).page ::
      && Ent(s, e, va).lib == Ent(s, f, wa).lib
      && ((e == f && va == wa) || Ent(s, e, va).lib || (Ent(s, e, va).ro && Ent(s, f, wa).ro) || PendingPair(s, e, va, f, wa))
  }

  ghost predicate LibraryWritable(s: Lazy) {
    forall e, va | Maps(s, e, va) && Ent(s, e, va).lib :: !Ent(s, e, va).ro
  }

  ghost predicate Backed(s: Lazy) {
    && (forall e, va | Maps(s, e, va) :: Ent(s, e, va).page in s.frame)
    && (forall va | va in s.boot :: s.boot[va] in s.frame)
    && (forall e, va | Maps(s, e, va) && Ent(s, e, va).page in s.boot.Values :: Ent(s, e, va).lib)
    && (forall e | e in s.space :: TMP !in s.space[e])
    && TMP !in s.boot
  }

  /** A copy is private to its handler until it is mapped, and then to the faulting address. */
  ghost predicate Copies(s: Lazy) {
    forall e | e in s.tmp ::
      var t := s.tmp[e];
      && t.page in s.frame && t.page !in s.boot.Values
      && e !in s.asleep
      && Maps(s, e, t.va)
      && (forall f | f in s.tmp && s.tmp[f].page == t.page :: f == e)
      && (forall f, wa | Maps(s, f, wa) && Ent(s, f, wa).page == t.page :: t.mapped && f == e && wa == t.va)
      && (if t.mapped then Ent(s, e, t.va) == Entry(t.page, false, false)
          else Ent(s, e, t.va).ro && !Ent(s, e, t.va).lib && Bytes(s, t.page) == Bytes(s, Ent(s, e, t.va).page))
  }

  ghost predicate Pendings(s: Lazy) {
    forall p | p in s.pending ::
      var c, va := s.pending[p].child, s.pending[p].va;
      && c in s.asleep && s.asleep[c] == p && p !in s.asleep
      && Maps(s, p, va) && Maps(s, c, va)
      && !Ent(s, p, va).ro && !Ent(s, p, va).lib
      && Ent(s, c, va) == Entry(Ent(s, p, va).page, true, false)
  }

  ghost predicate Inv(s: Lazy) {
    Backed(s) && Cow(s) && LibraryWritable(s) && Copies(s) && Pendings(s)
    && forall c | c in s.asleep :: c in s.space
  }

  /** New environments, which map the boot pages as library pages and nothing else. */
  ghost predicate BootOnly(s: Lazy) {
    && s.tmp == map[] && s.pending == map[] && s.asleep == map[]
    && TMP !in s.boot && (forall va | va in s.boot :: s.boot[va] in s.frame)
    && (forall e | e in s.space :: s.space[e] == map va | va in s.boot :: Entry(s.boot[va], false, true))
  }

  lemma BootIsDisciplined(s: Lazy)
    requires BootOnly(s)
    ensures Inv(s)
  {
    forall e, va | Maps(s, e, va) ensures va in s.boot && Ent(s, e, va) == Entry(s.boot[va], false, true) {}
  }

  // ---- The machine that copies eagerly ----

  /** What one page of one environment is: bytes of its own, or a shared object. */
  datatype Cell = Private(data: Data) | Shared(id: Page, data: Data)

  type Eager = map<Env, map<Va, Cell>>

  /** What every environment sees.  A page counts as copied to the child when duppage is done with it. */
  ghost function View(s: Lazy): Eager {
    map e | e in s.space :: ViewOf(s, e)
  }

  ghost function ViewOf(s: Lazy, e: Env): map<Va, Cell>
    requires e in s.space
  {
    map va | va in s.space[e] && !Incomplete(s, e, va) :: CellAt(s, e, va)
  }

  function CellAt(s: Lazy, e: Env, va: Va): Cell
    requires Maps(s, e, va)
  {
    var t := Ent(s, e, va);
    if t.lib then Shared(t.page, Bytes(s, t.page)) else Private(Bytes(s, t.page))
  }

  ghost predicate Incomplete(s: Lazy, e: Env, va: Va) {
    e in s.asleep && HalfDuplicated(s, s.asleep[e], e, va)
  }

  datatype EagerOp =
    | EWrite(e: Env, va: Va, off: nat, b: int)   // a store
    | EZero(e: Env, va: Va)                      // a zero page appears
    | ENew(c: Env, boot: map<Va, Cell>)          // a new environment
    | EShare(e: Env, va: Va, id: Page)           // a zero page appears that can be shared
    | EAlias(e: Env, va: Va, f: Env, wa: Va)     // a shared page appears at one more place
    | EDrop(c: Env, va: Va)                      // a page of a child under construction goes away
    | ECopy(p: Env, c: Env, va: Va)              // fork copies or shares one page

  function Poke(d: Data, off: nat, b: int): Data {
    if off < |d| then d[off := b] else d
  }

  function Stored(was: Cell, target: Cell, here: bool, off: nat, b: int): Cell {
    match was
    case Private(d) => if here then Private(Poke(d, off, b)) else was
    case Shared(id, d) => if target.Shared? && target.id == id then Shared(id, Poke(d, off, b)) else was
  }

  ghost function EagerStep(v: Eager, op: EagerOp): Eager {
    match op
    case EWrite(e, va, off, b) =>
      if e in v && va in v[e] then
        map f | f in v :: (map wa | wa in v[f] :: Stored(v[f][wa], v[e][va], f == e && wa == va, off, b))
      else v
    case EZero(e, va) =>
      if e in v then v[e := v[e][va := Private(Zeros())]] else v
    case EShare(e, va, id) =>
      if e in v then v[e := v[e][va := Shared(id, Zeros())]] else v
    case EAlias(e, va, f, wa) =>
      if e in v && va in v[e] && f in v then v[f := v[f][wa := v[e][va]]] else v
    case ENew(c, boot) => v[c := boot]
    case EDrop(c, va) =>
      if c in v then v[c := v[c] - {va}] else v
    case ECopy(p, c, va) =>
      if p in v && c in v && va in v[p] then v[c := v[c][va := v[p][va]]] else v
  }

  // ---- The steps of the lazy machine ----

  datatype Op =
    | Write(e: Env, va: Va, off: nat, b: int)   // a store to a writable page
    | Demand(e: Env, va: Va, q: Page)           // page_out of an unmapped page
    | AllocLibrary(e: Env, va: Va, q: Page)     // syscall_mem_alloc with PTE_LIBRARY
    | MapLibrary(e: Env, va: Va, f: Env, wa: Va) // syscall_mem_map of a library page
    | FaultCopy(e: Env, va: Va, q: Page)        // pgfault: syscall_mem_alloc at TMP, then user_bcopy
    | FaultMap(e: Env)                          // pgfault: syscall_mem_map over the faulting page
    | FaultUnmap(e: Env)                        // pgfault: syscall_mem_unmap of TMP
    | NewEnv(p: Env, c: Env)                    // fork: syscall_env_alloc
    | DupChild(p: Env, va: Va, c: Env)          // duppage: the map call for the child
    | DupSelf(p: Env)                           // duppage: the map call for the parent
    | ExceptionStack(p: Env, c: Env, q: Page)   // fork: the child's own exception stack
    | Wake(p: Env, c: Env)                      // fork: the child becomes runnable

  /** e may run user code: it exists, and is not a child still under construction. */
  predicate Runs(s: Lazy, e: Env) {
    e in s.space && e !in s.asleep
  }

  /** p is in its fork loop, building c. */
  predicate Forking(s: Lazy, p: Env, c: Env) {
    Runs(s, p) && p !in s.tmp && p !in s.pending && c in s.asleep && s.asleep[c] == p
  }

  ghost predicate Enabled(s: Lazy, op: Op) {
    match op
    case Write(e, va, _, _) => Runs(s, e) && Maps(s, e, va) && !Ent(s, e, va).ro
    case Demand(e, va, q) => Runs(s, e) && !Maps(s, e, va) && va != TMP && Fresh(s, q)
    case AllocLibrary(e, va, q) => Runs(s, e) && !Maps(s, e, va) && va != TMP && Fresh(s, q)
    case MapLibrary(e, va, f, wa) =>
      Runs(s, e) && Maps(s, e, va) && Ent(s, e, va).lib && f in s.space && !Maps(s, f, wa) && wa != TMP
    case FaultCopy(e, va, q) => Runs(s, e) && e !in s.tmp && Maps(s, e, va) && Ent(s, e, va).ro && Fresh(s, q)
    case FaultMap(e) => e in s.tmp && !s.tmp[e].mapped
    case FaultUnmap(e) => e in s.tmp && s.tmp[e].mapped
    case NewEnv(p, c) => Runs(s, p) && p !in s.tmp && c !in s.space
    case DupChild(p, va, c) => Forking(s, p, c) && Maps(s, p, va) && va != XSTACK
    case DupSelf(p) => p in s.pending && p !in s.tmp
    case ExceptionStack(p, c, q) => Forking(s, p, c) && Fresh(s, q)
    case Wake(p, c) => Forking(s, p, c)
  }

  /** syscall_mem_map of a page into slot va of environment e. */
  function SetEntry(s: Lazy, e: Env, va: Va, t: Entry): Lazy
    requires e in s.space
  {
    s.(space := s.space[e := s.space[e][va := t]])
  }

  /** The first call of duppage, with the permission word `pte` that fork read. */
  function MapChild(s: Lazy, p: Env, c: Env, va: Va, pte: Entry): Lazy
    requires Maps(s, p, va) && c in s.space
  {
    var t := Entry(Ent(s, p, va).page, pte.ro || !pte.lib, pte.lib);
    var s' := SetEntry(s, c, va, t);
    if pte.lib || pte.ro then s' else s'.(pending := s'.pending[p := Dup(c, va)])
  }

  ghost function Step(s: Lazy, op: Op): Lazy
    requires Inv(s) && Enabled(s, op)
  {
    match op
    case Write(e, va, off, b) =>
      var p := Ent(s, e, va).page;
      s.(frame := s.frame[p := Poke(Bytes(s, p), off, b)])
    case Demand(e, va, q) =>
      SetEntry(s.(frame := s.frame[q := Zeros()]), e, va, Entry(q, false, false))
    case AllocLibrary(e, va, q) =>
      SetEntry(s.(frame := s.frame[q := Zeros()]), e, va, Entry(q, false, true))
    case MapLibrary(e, va, f, wa) =>
      SetEntry(s, f, wa, Ent(s, e, va))
    case FaultCopy(e, va, q) =>
      s.(frame := s.frame[q := Bytes(s, Ent(s, e, va).page)], tmp := s.tmp[e := Copy(q, va, false)])
    case FaultMap(e) =>
      var t := s.tmp[e];
      SetEntry(s, e, t.va, Entry(t.page, false, false)).(tmp := s.tmp[e := t.(mapped := true)])
    case FaultUnmap(e) =>
      s.(tmp := s.tmp - {e})
    case NewEnv(p, c) =>
      s.(space := s.space[c := map va | va in s.boot :: Entry(s.boot[va], false, true)], asleep := s.asleep[c := p])
    case DupChild(p, va, c) =>
      MapChild(s, p, c, va, Ent(s, p, va))
    case DupSelf(p) =>
      var va := s.pending[p].va;
      SetEntry(s, p, va, Ent(s, p, va).(ro := true)).(pending := s.pending - {p})
    case ExceptionStack(p, c, q) =>
      SetEntry(s.(frame := s.frame[q := Zeros()]), c, XSTACK, Entry(q, false, false))
    case Wake(p, c) =>
      s.(asleep := s.asleep - {c})
  }

  /** What the eager machine does meanwhile; most of the lazy steps are invisible to it. */
  ghost function Visible(s: Lazy, op: Op): seq<EagerOp>
    requires Inv(s) && Enabled(s, op)
  {
    match op
    case Write(e, va, off, b) => [EWrite(e, va, off, b)]
    case Demand(e, va, _) => [EZero(e, va)]
    case AllocLibrary(e, va, q) => [EShare(e, va, q)]
    case MapLibrary(e, va, f, wa) => [EAlias(e, va, f, wa)]
    case NewEnv(p, c) => [ENew(c, map va | va in s.boot :: Shared(s.boot[va], Bytes(s, s.boot[va])))]
    case DupChild(p, va, c) => if Ent(s, p, va).lib || Ent(s, p, va).ro then [ECopy(p, c, va)] else [EDrop(c, va)]
    case DupSelf(p) => [ECopy(p, s.pending[p].child, s.pending[p].va)]
    case ExceptionStack(p, c, _) => [EZero(c, XSTACK)]
    case _ => []
  }

  ghost function EagerRun(v: Eager, ops: seq<EagerOp>): Eager
    decreases |ops|
  {
    if ops == [] then v else EagerRun(EagerStep(v, ops[0]), ops[1..])
  }

  // ---- Each step keeps the invariant ----

  /** s' differs from s in the mappings of one site, which now holds t. */
  ghost predicate Put(s: Lazy, s': Lazy, e: Env, va: Va, t: Entry) {
    && e in s.space && s'.space == s.space[e := s.space[e][va := t]]
    && (forall f, wa :: Maps(s', f, wa) <==> Maps(s, f, wa) || (f == e && wa == va))
    && (forall f, wa | Maps(s', f, wa) :: Ent(s', f, wa) == if f == e && wa == va then t else Ent(s, f, wa))
  }

  ghost predicate SameMaps(s: Lazy, s': Lazy) {
    && s'.space == s.space
    && (forall f, wa :: Maps(s', f, wa) <==> Maps(s, f, wa))
    && (forall f, wa | Maps(s, f, wa) :: Ent(s', f, wa) == Ent(s, f, wa))
  }

  lemma PutIntro(s: Lazy, s': Lazy, e: Env, va: Va, t: Entry)
    requires e in s.space && s'.space == s.space[e := s.space[e][va := t]]
    ensures Put(s, s', e, va, t)
  {
  }

  lemma PutBacked(s: Lazy, s': Lazy, e: Env, va: Va, t: Entry)
    requires Backed(s) && Put(s, s', e, va, t) && va != TMP && s'.boot == s.boot
    requires s.frame.Keys <= s'.frame.Keys && t.page in s'.frame && (t.page in s.boot.Values ==> t.lib)
    ensures Backed(s')
  {
  }

  /** Mapping t at (e, va) keeps the sharing discipline if t agrees with every other mapping of its page. */
  lemma PutCow(s: Lazy, s': Lazy, e: Env, va: Va, t: Entry)
    requires Cow(s) && LibraryWritable(s) && Put(s, s', e, va, t) && (t.lib ==> !t.ro)
    requires forall f, wa | Maps(s, f, wa) && Ent(s, f, wa).page == t.page && !(f == e && wa == va) ::
               Ent(s, f, wa).lib == t.lib && (t.lib || (t.ro && Ent(s, f, wa).ro) || PendingPair(s', e, va, f, wa))
    requires forall f, wa, g, xa | PendingPair(s, f, wa, g, xa) && !(f == e && wa == va) && !(g == e && xa == va) ::
               PendingPair(s', f, wa, g, xa)
    ensures Cow(s') && LibraryWritable(s')
  {
  }

  /** The copies in progress are not disturbed by a mapping of some other page. */
  lemma PutCopies(s: Lazy, s': Lazy, e: Env, va: Va, t: Entry)
    requires Copies(s) && Backed(s) && Put(s, s', e, va, t)
    requires s'.tmp == s.tmp && s'.asleep == s.asleep && s'.boot == s.boot
    requires e in s.tmp ==> va != s.tmp[e].va
    requires forall f | f in s.tmp :: s.tmp[f].page != t.page
    requires forall p | p in s.frame && p != t.page :: p in s'.frame && s'.frame[p] == s.frame[p]
    requires forall f | f in s.tmp && !s.tmp[f].mapped && Maps(s, f, s.tmp[f].va) ::
               Bytes(s', Ent(s, f, s.tmp[f].va).page) == Bytes(s, Ent(s, f, s.tmp[f].va).page)
    ensures Copies(s')
  {
    assert forall f | f in s.tmp && Maps(s, f, s.tmp[f].va) :: Ent(s', f, s.tmp[f].va) == Ent(s, f, s.tmp[f].va);
  }

  lemma WriteInv(s: Lazy, e: Env, va: Va, off: nat, b: int)
    requires Inv(s) && Enabled(s, Write(e, va, off, b))
    ensures Inv(Step(s, Write(e, va, off, b)))
  {
    var s' := Step(s, Write(e, va, off, b));
    assert SameMaps(s, s');
    assert Cow(s') && Backed(s') && Pendings(s');
    hide Step, Backed, Pendings;
  }

  lemma FreshPutInv(s: Lazy, s': Lazy, e: Env, va: Va, q: Page, lib: bool)
    requires Inv(s) && e in s.space && Fresh(s, q) && va != TMP
    requires e in s.tmp ==> va != s.tmp[e].va
    requires forall p | p in s.pending :: !(e == p && va == s.pending[p].va) && !(e == s.pending[p].child && va == s.pending[p].va)
    requires s' == SetEntry(s.(frame := s.frame[q := Zeros()]), e, va, Entry(q, false, lib))
    ensures Inv(s')
  {
    PutIntro(s, s', e, va, Entry(q, false, lib));
    PutCow(s, s', e, va, Entry(q, false, lib));
    PutCopies(s, s', e, va, Entry(q, false, lib));
    PutBacked(s, s', e, va, Entry(q, false, lib));
    hide Cow, LibraryWritable, Copies, Backed;
  }

  lemma DemandInv(s: Lazy, e: Env, va: Va, q: Page)
    requires Inv(s) && Enabled(s, Demand(e, va, q))
    ensures Inv(Step(s, Demand(e, va, q)))
  {
    FreshPutInv(s, Step(s, Demand(e, va, q)), e, va, q, false);
  }

  lemma AllocLibraryInv(s: Lazy, e: Env, va: Va, q: Page)
    requires Inv(s) && Enabled(s, AllocLibrary(e, va, q))
    ensures Inv(Step(s, AllocLibrary(e, va, q)))
  {
    FreshPutInv(s, Step(s, AllocLibrary(e, va, q)), e, va, q, true);
  }

  lemma MapLibraryInv(s: Lazy, e: Env, va: Va, f: Env, wa: Va)
    requires Inv(s) && Enabled(s, MapLibrary(e, va, f, wa))
    ensures Inv(Step(s, MapLibrary(e, va, f, wa)))
  {
    var s', t := Step(s, MapLibrary(e, va, f, wa)), Ent(s, e, va);
    PutIntro(s, s', f, wa, t);
    PutCow(s, s', f, wa, t);
    PutCopies(s, s', f, wa, t);
    PutBacked(s, s', f, wa, t);
    hide Cow, LibraryWritable, Copies, Backed;
  }

  lemma ExceptionStackInv(s: Lazy, p: Env, c: Env, q: Page)
    requires Inv(s) && Enabled(s, ExceptionStack(p, c, q))
    ensures Inv(Step(s, ExceptionStack(p, c, q)))
  {
    FreshPutInv(s, Step(s, ExceptionStack(p, c, q)), c, XSTACK, q, false);
  }

  lemma FaultCopyInv(s: Lazy, e: Env, va: Va, q: Page)
    requires Inv(s) && Enabled(s, FaultCopy(e, va, q))
    ensures Inv(Step(s, FaultCopy(e, va, q)))
  {
    var s' := Step(s, FaultCopy(e, va, q));
    assert SameMaps(s, s');
    assert Cow(s') && LibraryWritable(s') && Backed(s') && Pendings(s');
    assert !Ent(s, e, va).lib;
    hide Cow, LibraryWritable, Pendings, Step;
    assert Copies(s');
  }

  lemma FaultMapInv(s: Lazy, e: Env)
    requires Inv(s) && Enabled(s, FaultMap(e))
    ensures Inv(Step(s, FaultMap(e)))
  {
    var s' := Step(s, FaultMap(e));
    var t := s.tmp[e];
    var n := Entry(t.page, false, false);
    PutIntro(s, s', e, t.va, n);
    PutCow(s, s', e, t.va, n);
    PutBacked(s, s', e, t.va, n);
    hide Cow, LibraryWritable, Backed, PendingPair;
    assert Pendings(s');
    hide Pendings;
  }

  lemma FaultUnmapInv(s: Lazy, e: Env)
    requires Inv(s) && Enabled(s, FaultUnmap(e))
    ensures Inv(Step(s, FaultUnmap(e)))
  {
    var s' := Step(s, FaultUnmap(e));
    assert SameMaps(s, s');
  }

  lemma NewEnvSites(s: Lazy, p: Env, c: Env)
    requires Inv(s) && Enabled(s, NewEnv(p, c))
    ensures var s' := Step(s, NewEnv(p, c));
            && (forall f, wa :: Maps(s', f, wa) <==> Maps(s, f, wa) || (f == c && wa in s.boot))
            && (forall f, wa | Maps(s', f, wa) :: Ent(s', f, wa) == if f == c then Entry(s.boot[wa], false, true) else Ent(s, f, wa))
            && Cow(s') && LibraryWritable(s')
  {
    var s' := Step(s, NewEnv(p, c));
    assert forall f, wa :: Maps(s', f, wa) <==> Maps(s, f, wa) || (f == c && wa in s.boot);
  }

  lemma NewEnvInv(s: Lazy, p: Env, c: Env)
    requires Inv(s) && Enabled(s, NewEnv(p, c))
    ensures Inv(Step(s, NewEnv(p, c)))
  {
    var s' := Step(s, NewEnv(p, c));
    NewEnvSites(s, p, c);
    hide Cow, LibraryWritable;
    assert Backed(s') && Pendings(s');
    hide Pendings;
    assert Copies(s');
  }

  /** The first call of duppage on a library page or on one that is already read-only. */
  lemma DupWholeInv(s: Lazy, p: Env, va: Va, c: Env)
    requires Inv(s) && Enabled(s, DupChild(p, va, c)) && (Ent(s, p, va).lib || Ent(s, p, va).ro)
    ensures Inv(Step(s, DupChild(p, va, c)))
  {
    var s' := Step(s, DupChild(p, va, c));
    var t := Ent(s, p, va);
    assert t == Entry(t.page, t.ro, t.lib);
    PutIntro(s, s', c, va, t);
    PutCow(s, s', c, va, t);
    PutCopies(s, s', c, va, t);
    PutBacked(s, s', c, va, t);
    hide Cow, LibraryWritable, Copies, Backed, PendingPair;
  }

  /** The first call of duppage on a writable private page. */
  lemma DupHalfInv(s: Lazy, p: Env, va: Va, c: Env)
    requires Inv(s) && Enabled(s, DupChild(p, va, c)) && !Ent(s, p, va).lib && !Ent(s, p, va).ro
    ensures Inv(Step(s, DupChild(p, va, c)))
  {
    var s' := Step(s, DupChild(p, va, c));
    var t := Entry(Ent(s, p, va).page, true, false);
    PutIntro(s, s', c, va, t);
    assert HalfDuplicated(s', p, c, va);
    PutCow(s, s', c, va, t);
    PutCopies(s, s', c, va, t);
    PutBacked(s, s', c, va, t);
    hide Cow, LibraryWritable, Copies, Backed, PendingPair;
  }

  lemma DupSelfInv(s: Lazy, p: Env)
    requires Inv(s) && Enabled(s, DupSelf(p))
    ensures Inv(Step(s, DupSelf(p)))
  {
    var s' := Step(s, DupSelf(p));
    var va := s.pending[p].va;
    var t := Ent(s, p, va).(ro := true);
    PutIntro(s, s', p, va, t);
    PutCow(s, s', p, va, t);
    PutCopies(s, s', p, va, t);
    PutBacked(s, s', p, va, t);
    hide Cow, LibraryWritable, Copies, Backed, PendingPair;
  }

  lemma WakeInv(s: Lazy, p: Env, c: Env)
    requires Inv(s) && Enabled(s, Wake(p, c))
    ensures Inv(Step(s, Wake(p, c)))
  {
    var s' := Step(s, Wake(p, c));
    assert SameMaps(s, s');
  }

  // ---- Each step is what the eager machine does ----

  /** A page that a running environment can write is, if private, seen by it alone. */
  lemma WritableIsOwned(s: Lazy, e: Env, va: Va, f: Env, wa: Va)
    requires Inv(s) && Runs(s, e) && Maps(s, e, va) && !Ent(s, e, va).ro
    requires Maps(s, f, wa) && !Incomplete(s, f, wa) && Ent(s, f, wa).page == Ent(s, e, va).page
    ensures Ent(s, f, wa).lib == Ent(s, e, va).lib && (Ent(s, e, va).lib || (f == e && wa == va))
  {
  }

  lemma WriteView(s: Lazy, e: Env, va: Va, off: nat, b: int)
    requires Inv(s) && Enabled(s, Write(e, va, off, b))
    ensures View(Step(s, Write(e, va, off, b))) == EagerStep(View(s), EWrite(e, va, off, b))
  {
    var s' := Step(s, Write(e, va, off, b));
    var v, p := View(s), Ent(s, e, va).page;
    forall f | f in s.space ensures ViewOf(s', f) == map wa | wa in v[f] :: Stored(v[f][wa], v[e][va], f == e && wa == va, off, b) {
      forall wa | wa in s.space[f] && !Incomplete(s, f, wa)
        ensures CellAt(s', f, wa) == Stored(CellAt(s, f, wa), CellAt(s, e, va), f == e && wa == va, off, b)
      {
        if Ent(s, f, wa).page == p { WritableIsOwned(s, e, va, f, wa); }
      }
    }
  }

  /** Two states whose sites agree, up to one, see the same but for that one. */
  lemma SiteView(s: Lazy, s': Lazy, e: Env, va: Va)
    requires s'.space.Keys == s.space.Keys && e in s.space
    requires forall f, wa | !(f == e && wa == va) :: Maps(s', f, wa) == Maps(s, f, wa) && Incomplete(s', f, wa) == Incomplete(s, f, wa)
    requires forall f, wa | !(f == e && wa == va) && Maps(s, f, wa) && !Incomplete(s, f, wa) :: CellAt(s', f, wa) == CellAt(s, f, wa)
    ensures View(s') == View(s)[e := if Maps(s', e, va) && !Incomplete(s', e, va) then ViewOf(s, e)[va := CellAt(s', e, va)]
                                     else ViewOf(s, e) - {va}]
  {
    hide CellAt, Incomplete;
    forall f | f in s.space
      ensures ViewOf(s', f) == if f != e then ViewOf(s, f)
                               else if Maps(s', e, va) && !Incomplete(s', e, va) then ViewOf(s, e)[va := CellAt(s', e, va)]
                               else ViewOf(s, e) - {va}
    {
      assert forall wa :: wa in s.space[f] <==> Maps(s, f, wa);
      assert forall wa :: wa in s'.space[f] <==> Maps(s', f, wa);
    }
  }

  lemma PutView(s: Lazy, s': Lazy, e: Env, va: Va, t: Entry)
    requires Put(s, s', e, va, t) && s'.asleep == s.asleep
    requires forall f, wa | f in s.space && !(f == e && wa == va) :: Incomplete(s', f, wa) == Incomplete(s, f, wa)
    requires !Incomplete(s', e, va) && forall c | c in s.asleep :: c in s.space
    requires forall f, wa | Maps(s, f, wa) && !(f == e && wa == va) && !Incomplete(s, f, wa) ::
               Bytes(s', Ent(s, f, wa).page) == Bytes(s, Ent(s, f, wa).page)
    ensures View(s') == View(s)[e := ViewOf(s, e)[va := CellAt(s', e, va)]]
  {
    SiteView(s, s', e, va);
  }

  lemma SameView(s: Lazy, s': Lazy)
    requires SameMaps(s, s')
    requires forall f, wa | Maps(s, f, wa) :: Incomplete(s', f, wa) == Incomplete(s, f, wa)
    requires forall f, wa | Maps(s, f, wa) :: Bytes(s', Ent(s, f, wa).page) == Bytes(s, Ent(s, f, wa).page)
    ensures View(s') == View(s)
  {
    forall f | f in s.space ensures ViewOf(s', f) == ViewOf(s, f) {
      forall wa | Maps(s, f, wa) ensures CellAt(s', f, wa) == CellAt(s, f, wa) {
      }
    }
  }

  lemma FreshView(s: Lazy, s': Lazy, e: Env, va: Va, q: Page, lib: bool)
    requires Inv(s) && e in s.space && Fresh(s, q) && !Incomplete(s, e, va)
    requires s' == SetEntry(s.(frame := s.frame[q := Zeros()]), e, va, Entry(q, false, lib))
    ensures View(s') == EagerStep(View(s), if lib then EShare(e, va, q) else EZero(e, va))
  {
    PutIntro(s, s', e, va, Entry(q, false, lib));
    PutView(s, s', e, va, Entry(q, false, lib));
  }

  lemma MapLibraryView(s: Lazy, e: Env, va: Va, f: Env, wa: Va)
    requires Inv(s) && Enabled(s, MapLibrary(e, va, f, wa))
    ensures View(Step(s, MapLibrary(e, va, f, wa))) == EagerStep(View(s), EAlias(e, va, f, wa))
  {
    var s', t := Step(s, MapLibrary(e, va, f, wa)), Ent(s, e, va);
    assert !Incomplete(s, f, wa) && !Incomplete(s, e, va);
    PutIntro(s, s', f, wa, t);
    PutView(s, s', f, wa, t);
  }

  /** A fault that maps its finished copy over the shared page changes nothing that can be seen. */
  lemma FaultMapView(s: Lazy, e: Env)
    requires Inv(s) && Enabled(s, FaultMap(e))
    ensures View(Step(s, FaultMap(e))) == View(s)
  {
    var s', t := Step(s, FaultMap(e)), s.tmp[e];
    var n := Entry(t.page, false, false);
    PutIntro(s, s', e, t.va, n);
    PutView(s, s', e, t.va, n);
    assert CellAt(s', e, t.va) == CellAt(s, e, t.va);
    assert ViewOf(s, e)[t.va := CellAt(s, e, t.va)] == ViewOf(s, e);
  }

  lemma NewEnvView(s: Lazy, p: Env, c: Env)
    requires Inv(s) && Enabled(s, NewEnv(p, c))
    ensures var boot := map va | va in s.boot :: Shared(s.boot[va], Bytes(s, s.boot[va]));
            View(Step(s, NewEnv(p, c))) == EagerStep(View(s), ENew(c, boot))
  {
    var s' := Step(s, NewEnv(p, c));
    NewEnvSites(s, p, c);
    assert forall f, wa | f in s.space :: Incomplete(s', f, wa) == Incomplete(s, f, wa);
    assert !(c in s.pending) && !HalfDuplicated(s', p, c, p) && forall wa :: !Incomplete(s', c, wa);
    hide Inv, Cow, LibraryWritable, Copies, Pendings, Backed, Incomplete;
    assert forall wa :: wa in s.boot <==> Maps(s', c, wa);
    assert ViewOf(s', c) == map va | va in s.boot :: Shared(s.boot[va], Bytes(s, s.boot[va]));
    forall f | f in s.space ensures ViewOf(s', f) == ViewOf(s, f) {
      forall wa | Maps(s, f, wa) ensures CellAt(s', f, wa) == CellAt(s, f, wa) && Incomplete(s', f, wa) == Incomplete(s, f, wa) {
      }
    }
  }

  lemma DupWholeView(s: Lazy, p: Env, va: Va, c: Env)
    requires Inv(s) && Enabled(s, DupChild(p, va, c)) && (Ent(s, p, va).lib || Ent(s, p, va).ro)
    ensures View(Step(s, DupChild(p, va, c))) == EagerStep(View(s), ECopy(p, c, va))
  {
    var s', t := Step(s, DupChild(p, va, c)), Ent(s, p, va);
    assert t == Entry(t.page, t.ro, t.lib);
    PutIntro(s, s', c, va, t);
    PutView(s, s', c, va, t);
  }

  /** Between the two calls the page does not count as copied. */
  lemma DupHalfView(s: Lazy, p: Env, va: Va, c: Env)
    requires Inv(s) && Enabled(s, DupChild(p, va, c)) && !Ent(s, p, va).lib && !Ent(s, p, va).ro
    ensures View(Step(s, DupChild(p, va, c))) == EagerStep(View(s), EDrop(c, va))
  {
    var s' := Step(s, DupChild(p, va, c));
    var t := Entry(Ent(s, p, va).page, true, false);
    PutIntro(s, s', c, va, t);
    assert Incomplete(s', c, va);
    SiteView(s, s', c, va);
  }

  lemma DupSelfView(s: Lazy, p: Env)
    requires Inv(s) && Enabled(s, DupSelf(p))
    ensures View(Step(s, DupSelf(p))) == EagerStep(View(s), ECopy(p, s.pending[p].child, s.pending[p].va))
  {
    var s', c, va := Step(s, DupSelf(p)), s.pending[p].child, s.pending[p].va;
    var t := Ent(s, p, va).(ro := true);
    PutIntro(s, s', p, va, t);
    assert Incomplete(s, c, va) && !Incomplete(s', c, va) && !Incomplete(s, p, va);
    hide Inv, Cow, LibraryWritable, Copies, Pendings, Backed;
    assert CellAt(s', c, va) == CellAt(s, p, va);
    SiteView(s, s', c, va);
  }

  lemma FaultCopyView(s: Lazy, e: Env, va: Va, q: Page)
    requires Inv(s) && Enabled(s, FaultCopy(e, va, q))
    ensures View(Step(s, FaultCopy(e, va, q))) == View(s)
  {
    SameView(s, Step(s, FaultCopy(e, va, q)));
  }

  // ---- Simulation ----

  lemma StepKeepsInv(s: Lazy, op: Op)
    requires Inv(s) && Enabled(s, op)
    ensures Inv(Step(s, op))
  {
    hide Inv;
    match op
    case Write(e, va, off, b) => WriteInv(s, e, va, off, b);
    case Demand(e, va, q) => DemandInv(s, e, va, q);
    case AllocLibrary(e, va, q) => AllocLibraryInv(s, e, va, q);
    case MapLibrary(e, va, f, wa) => MapLibraryInv(s, e, va, f, wa);
    case FaultCopy(e, va, q) => FaultCopyInv(s, e, va, q);
    case FaultMap(e) => FaultMapInv(s, e);
    case FaultUnmap(e) => FaultUnmapInv(s, e);
    case NewEnv(p, c) => NewEnvInv(s, p, c);
    case DupChild(p, va, c) =>
      if Ent(s, p, va).lib || Ent(s, p, va).ro { DupWholeInv(s, p, va, c); } else { DupHalfInv(s, p, va, c); }
    case DupSelf(p) => DupSelfInv(s, p);
    case ExceptionStack(p, c, q) => ExceptionStackInv(s, p, c, q);
    case Wake(p, c) => WakeInv(s, p, c);
  }

  lemma OneOp(v: Eager, x: EagerOp)
    ensures EagerRun(v, [x]) == EagerStep(v, x) && EagerRun(v, []) == v
  {
    hide EagerStep;
    assert EagerRun(EagerStep(v, x), []) == EagerStep(v, x);
  }

  lemma StepSimulates(s: Lazy, op: Op)
    requires Inv(s) && Enabled(s, op)
    ensures View(Step(s, op)) == EagerRun(View(s), Visible(s, op))
  {
    hide Cow, LibraryWritable, Copies, Backed, View, EagerStep, EagerRun;
    var s' := Step(s, op);
    var seen := Visible(s, op);
    OneOp(View(s), if seen == [] then EDrop(0, 0) else seen[0]);
    match op
    case Write(e, va, off, b) => WriteView(s, e, va, off, b);
    case Demand(e, va, q) => FreshView(s, s', e, va, q, false);
    case AllocLibrary(e, va, q) => FreshView(s, s', e, va, q, true);
    case MapLibrary(e, va, f, wa) => MapLibraryView(s, e, va, f, wa);
    case FaultCopy(e, va, q) => FaultCopyView(s, e, va, q);
    case FaultMap(e) => FaultMapView(s, e);
    case FaultUnmap(e) => SameView(s, s');
    case NewEnv(p, c) => NewEnvView(s, p, c);
    case DupChild(p, va, c) =>
      if Ent(s, p, va).lib || Ent(s, p, va).ro { DupWholeView(s, p, va, c); } else { DupHalfView(s, p, va, c); }
    case DupSelf(p) => DupSelfView(s, p);
    case ExceptionStack(p, c, q) => FreshView(s, s', c, XSTACK, q, false);
    case Wake(p, c) => SameView(s, s');
  }

  lemma {:induction false} EagerRunAppend(v: Eager, a: seq<EagerOp>, b: seq<EagerOp>)
    ensures EagerRun(v, a + b) == EagerRun(EagerRun(v, a), b)
    decreases |a|
  {
    if a == [] {
      assert a + b == b;
    } else {
      assert (a + b)[0] == a[0] && (a + b)[1..] == a[1..] + b;
      EagerRunAppend(EagerStep(v, a[0]), a[1..], b);
    }
  }
}
