/** What programs read while copy-on-write is at work: the bytes at their own addresses, step by step,
    without a word about physical pages. */
module CowReads {
  import opened CowFork
  import opened MemoryMap
  import opened Wrappers

  /** The byte that e reads at offset k of page va. */
  function Reads(s: Lazy, e: Env, va: Va, k: nat): Option<int> {
    if Maps(s, e, va) && k < |Bytes(s, Ent(s, e, va).page)| then Some(Bytes(s, Ent(s, e, va).page)[k]) else None
  }

  /** The same address, or two mappings of one library page. */
  predicate Together(s: Lazy, e: Env, va: Va, f: Env, wa: Va)
    requires Maps(s, e, va) && Maps(s, f, wa)
  {
    (e == f && va == wa) || (Ent(s, e, va).lib && Ent(s, f, wa).lib && Ent(s, e, va).page == Ent(s, f, wa).page)
  }

  ghost predicate StoredByte(s: Lazy, s': Lazy, e: Env, va: Va, off: nat, b: int, f: Env, wa: Va, k: nat)
    requires Maps(s, e, va)
  {
    && (Maps(s', f, wa) <==> Maps(s, f, wa))
    && (Maps(s, f, wa) && !Incomplete(s, f, wa) ==>
          Reads(s', f, wa, k) ==
            if Together(s, e, va, f, wa) && k == off && Reads(s, f, wa, k).Some? then Some(b) else Reads(s, f, wa, k))
  }

  /** The page that a step adds or replaces, if it is page wa of f. */
  predicate Gains(s: Lazy, op: Op, f: Env, wa: Va) {
    match op
    case Demand(e, va, _) => f == e && wa == va
    case AllocLibrary(e, va, _) => f == e && wa == va
    case MapLibrary(_, _, g, ga) => f == g && wa == ga
    case NewEnv(_, c) => f == c && wa in s.boot
    case DupChild(_, va, c) => f == c && wa == va
    case ExceptionStack(_, c, _) => f == c && wa == XSTACK
    case _ => false
  }

  /** The bytes of a page that a step adds. */
  ghost function Gained(s: Lazy, op: Op, wa: Va, k: nat): Option<int> {
    match op
    case MapLibrary(e, va, _, _) => Reads(s, e, va, k)
    case NewEnv(_, _) => if wa in s.boot && k < |Bytes(s, s.boot[wa])| then Some(Bytes(s, s.boot[wa])[k]) else None
    case DupChild(p, va, _) => Reads(s, p, va, k)
    case _ => if k < BY2PG then Some(0) else None
  }

  /** A store changes the byte at its own address, and where its page is shared as a library page;
      demand, sharing, fork and the fault handler change no byte that any environment could read before.
      New pages are zero, or read as what they were mapped or copied from. */
  lemma StepReads(s: Lazy, op: Op, f: Env, wa: Va, k: nat)
    requires Inv(s) && Enabled(s, op)
    ensures var s' := Step(s, op);
      && (Maps(s', f, wa) <==> Maps(s, f, wa) || Gains(s, op, f, wa))
      && (Gains(s, op, f, wa) ==> Reads(s', f, wa, k) == Gained(s, op, wa, k))
      && (Maps(s, f, wa) && !Gains(s, op, f, wa) && !Incomplete(s, f, wa) ==>
            Reads(s', f, wa, k) ==
              if op.Write? && Together(s, op.e, op.va, f, wa) && k == op.off && Reads(s, f, wa, k).Some? then Some(op.b)
              else Reads(s, f, wa, k))
  {
    hide Cow, Copies, Pendings, LibraryWritable;
    match op
    case Write(e, va, off, b) => if Maps(s, f, wa) && !Incomplete(s, f, wa) { StoreReads(s, e, va, off, b, f, wa, k); }
    case NewEnv(_, _) => NewEnvReads(s, op, f, wa, k);
    case Demand(_, _, _) => FreshReads(s, op, f, wa, k);
    case AllocLibrary(_, _, _) => FreshReads(s, op, f, wa, k);
    case ExceptionStack(_, _, _) => FreshReads(s, op, f, wa, k);
    case FaultCopy(_, _, _) => FreshReads(s, op, f, wa, k);
    case FaultMap(e) => FaultMapReads(s, e, f, wa, k);
    case DupSelf(p) => DupSelfReads(s, p, f, wa, k);
    case MapLibrary(_, _, _, _) => RemappedReads(s, op, f, wa, k);
    case DupChild(_, _, _) => RemappedReads(s, op, f, wa, k);
    case _ =>
  }

  lemma DupSelfReads(s: Lazy, p: Env, f: Env, wa: Va, k: nat)
    requires Inv(s) && Enabled(s, DupSelf(p))
    ensures var s' := Step(s, DupSelf(p));
      (Maps(s', f, wa) <==> Maps(s, f, wa)) && (Maps(s, f, wa) ==> Reads(s', f, wa, k) == Reads(s, f, wa, k))
  {
    hide Cow, LibraryWritable, Backed, Copies;
  }

  lemma RemappedReads(s: Lazy, op: Op, f: Env, wa: Va, k: nat)
    requires Inv(s) && Enabled(s, op) && (op.MapLibrary? || op.DupChild?)
    ensures var s' := Step(s, op);
      && (Maps(s', f, wa) <==> Maps(s, f, wa) || Gains(s, op, f, wa))
      && (Gains(s, op, f, wa) ==> Reads(s', f, wa, k) == Gained(s, op, wa, k))
      && (Maps(s, f, wa) && !Gains(s, op, f, wa) ==> Reads(s', f, wa, k) == Reads(s, f, wa, k))
  {
    hide Cow, LibraryWritable, Backed, Copies, Pendings;
    var s' := Step(s, op);
    match op
    case MapLibrary(e, va, h, ha) => PutIntro(s, s', h, ha, Ent(s, e, va));
    case DupChild(p, va, c) =>
      var t := Ent(s, p, va);
      PutIntro(s, s', c, va, Entry(t.page, t.ro || !t.lib, t.lib));
  }

  /** Two mappings of one library page. */
  predicate Shared(s: Lazy, e: Env, va: Va, f: Env, wa: Va) {
    Maps(s, e, va) && Maps(s, f, wa) && Ent(s, e, va).lib && Together(s, e, va, f, wa)
  }

  /** Which other pages a page that a step adds is shared with. */
  ghost predicate Joins(s: Lazy, op: Op, wa: Va, g: Env, ga: Va) {
    match op
    case MapLibrary(e, va, _, _) => Shared(s, e, va, g, ga)
    case DupChild(p, va, _) => Shared(s, p, va, g, ga)
    case NewEnv(_, _) => wa in s.boot && Maps(s, g, ga) && Ent(s, g, ga).page == s.boot[wa]
    case _ => false
  }

  /** Library pages stay shared with whatever they are shared with, in the child as in its parent, and no
      other page ever becomes shared. */
  lemma StepSharing(s: Lazy, op: Op, f: Env, wa: Va, g: Env, ga: Va)
    requires Inv(s) && Enabled(s, op) && Maps(s, g, ga) && !Gains(s, op, g, ga)
    ensures var s' := Step(s, op);
      && (Maps(s, f, wa) && !Gains(s, op, f, wa) ==> (Shared(s', f, wa, g, ga) <==> Shared(s, f, wa, g, ga)))
      && (Gains(s, op, f, wa) ==> (Shared(s', f, wa, g, ga) <==> Joins(s, op, wa, g, ga)))
  {
    hide LibraryWritable, Cow, Backed, Copies, Pendings, Step, Shared;
    match op
    case FaultMap(e) => if Maps(s, f, wa) { OwnSharing(s, op, f, wa, g, ga); }
    case DupSelf(p) => if Maps(s, f, wa) { OwnSharing(s, op, f, wa, g, ga); }
    case NewEnv(_, _) => NewEnvSharing(s, op, f, wa, g, ga);
    case Demand(_, _, _) => FreshSharing(s, op, f, wa, g, ga);
    case AllocLibrary(_, _, _) => FreshSharing(s, op, f, wa, g, ga);
    case ExceptionStack(_, _, _) => FreshSharing(s, op, f, wa, g, ga);
    case FaultCopy(_, _, _) => FreshSharing(s, op, f, wa, g, ga);
    case MapLibrary(_, _, _, _) => GainedSharing(s, op, f, wa, g, ga);
    case DupChild(_, _, _) => GainedSharing(s, op, f, wa, g, ga);
    case _ => SameSharing(s, op, f, wa, g, ga);
  }

  lemma SameSharing(s: Lazy, op: Op, f: Env, wa: Va, g: Env, ga: Va)
    requires Inv(s) && Enabled(s, op) && (op.Write? || op.FaultUnmap? || op.Wake?)
    ensures !Gains(s, op, f, wa) && (Shared(Step(s, op), f, wa, g, ga) <==> Shared(s, f, wa, g, ga))
  {
    hide LibraryWritable, Cow, Backed, Copies, Pendings;
  }

  lemma OwnSharing(s: Lazy, op: Op, f: Env, wa: Va, g: Env, ga: Va)
    requires Inv(s) && Enabled(s, op) && Maps(s, g, ga) && Maps(s, f, wa) && (op.FaultMap? || op.DupSelf?)
    ensures Shared(Step(s, op), f, wa, g, ga) <==> Shared(s, f, wa, g, ga)
  {
    hide LibraryWritable, Cow, Backed;
  }

  lemma GainedSharing(s: Lazy, op: Op, f: Env, wa: Va, g: Env, ga: Va)
    requires Inv(s) && Enabled(s, op) && Maps(s, g, ga) && !Gains(s, op, g, ga) && (op.MapLibrary? || op.DupChild?)
    ensures var s' := Step(s, op);
      && (Maps(s, f, wa) && !Gains(s, op, f, wa) ==> (Shared(s', f, wa, g, ga) <==> Shared(s, f, wa, g, ga)))
      && (Gains(s, op, f, wa) ==> (Shared(s', f, wa, g, ga) <==> Joins(s, op, wa, g, ga)))
  {
    hide Copies, LibraryWritable, Cow, Pendings, Backed;
    var s' := Step(s, op);
    match op
    case MapLibrary(e, va, h, ha) => PutIntro(s, s', h, ha, Ent(s, e, va));
    case DupChild(p, va, c) =>
      var t := Ent(s, p, va);
      PutIntro(s, s', c, va, Entry(t.page, t.ro || !t.lib, t.lib));

  }

  lemma FreshSharing(s: Lazy, op: Op, f: Env, wa: Va, g: Env, ga: Va)
    requires Inv(s) && Enabled(s, op) && Maps(s, g, ga) && !Gains(s, op, g, ga)
    requires (op.Demand? || op.AllocLibrary? || op.ExceptionStack? || op.FaultCopy?)
    ensures var s' := Step(s, op);
      && (Maps(s, f, wa) && !Gains(s, op, f, wa) ==> (Shared(s', f, wa, g, ga) <==> Shared(s, f, wa, g, ga)))
      && (Gains(s, op, f, wa) ==> (Shared(s', f, wa, g, ga) <==> Joins(s, op, wa, g, ga)))
  {
    hide Copies, LibraryWritable, Cow, Pendings, Backed;
  }

  lemma NewEnvSharing(s: Lazy, op: Op, f: Env, wa: Va, g: Env, ga: Va)
    requires Inv(s) && Enabled(s, op) && Maps(s, g, ga) && !Gains(s, op, g, ga) && op.NewEnv?
    ensures var s' := Step(s, op);
      && (Maps(s, f, wa) && !Gains(s, op, f, wa) ==> (Shared(s', f, wa, g, ga) <==> Shared(s, f, wa, g, ga)))
      && (Gains(s, op, f, wa) ==> (Shared(s', f, wa, g, ga) <==> Joins(s, op, wa, g, ga)))
  {
    hide Copies, LibraryWritable, Cow, Pendings;
  }

  lemma FreshReads(s: Lazy, op: Op, f: Env, wa: Va, k: nat)
    requires Inv(s) && Enabled(s, op) && (op.Demand? || op.AllocLibrary? || op.ExceptionStack? || op.FaultCopy?)
    ensures var s' := Step(s, op);
      && (Maps(s', f, wa) <==> Maps(s, f, wa) || Gains(s, op, f, wa))
      && (Gains(s, op, f, wa) ==> Reads(s', f, wa, k) == if k < BY2PG then Some(0) else None)
      && (Maps(s, f, wa) && !Gains(s, op, f, wa) ==> Reads(s', f, wa, k) == Reads(s, f, wa, k))
  {
    hide Cow, Copies, Pendings, LibraryWritable, Backed;
  }

  lemma NewEnvReads(s: Lazy, op: Op, f: Env, wa: Va, k: nat)
    requires Inv(s) && Enabled(s, op) && op.NewEnv?
    ensures var s' := Step(s, op);
      && (Maps(s', f, wa) <==> Maps(s, f, wa) || Gains(s, op, f, wa))
      && (Gains(s, op, f, wa) ==> Reads(s', f, wa, k) == Gained(s, op, wa, k))
      && (Maps(s, f, wa) && !Gains(s, op, f, wa) ==> Reads(s', f, wa, k) == Reads(s, f, wa, k))
  {
    hide Inv;
  }

  /** The handler's copy has the bytes of the page that it replaces. */
  lemma FaultMapReads(s: Lazy, e: Env, f: Env, wa: Va, k: nat)
    requires Inv(s) && Enabled(s, FaultMap(e))
    ensures var s' := Step(s, FaultMap(e));
      (Maps(s', f, wa) <==> Maps(s, f, wa)) && (Maps(s, f, wa) ==> Reads(s', f, wa, k) == Reads(s, f, wa, k))
  {
    hide Cow, Pendings, LibraryWritable, Backed;
  }

  lemma StoreReads(s: Lazy, e: Env, va: Va, off: nat, b: int, f: Env, wa: Va, k: nat)
    requires Inv(s) && Enabled(s, Write(e, va, off, b)) && Maps(s, f, wa) && !Incomplete(s, f, wa)
    ensures Reads(Step(s, Write(e, va, off, b)), f, wa, k) ==
              if Together(s, e, va, f, wa) && k == off && Reads(s, f, wa, k).Some? then Some(b) else Reads(s, f, wa, k)
  {
    hide Copies, LibraryWritable;
  }

  /** A store by a running environment to a page it maps always goes through: at once if the page is
      writable, and otherwise after its fault handler has run, for which one unused page is enough. */
  ghost function StoreRun(s: Lazy, e: Env, va: Va, off: nat, b: int, q: Page): seq<Op>
    requires Maps(s, e, va)
  {
    var store := [Write(e, va, off, b)] + [];
    if Ent(s, e, va).ro then [FaultCopy(e, va, q)] + ([FaultMap(e)] + ([FaultUnmap(e)] + store)) else store
  }

  /** The state after ops, if each of them is possible in its turn. */
  ghost function After(s: Lazy, ops: seq<Op>): Option<Lazy>
    requires Inv(s)
    decreases |ops|
  {
    if ops == [] then Some(s)
    else if !Enabled(s, ops[0]) then None
    else
      StepKeepsInv(s, ops[0]);
      After(Step(s, ops[0]), ops[1..])
  }

  /** Afterwards the writer reads the byte that it stored, and so does everyone who shares the page as a
      library page; every other byte that any environment reads is as before. */
  lemma StoreGoesThrough(s: Lazy, e: Env, va: Va, off: nat, b: int, q: Page)
    requires Inv(s) && Runs(s, e) && e !in s.tmp && Maps(s, e, va) && Fresh(s, q)
    ensures After(s, StoreRun(s, e, va, off, b, q)).Some?
    ensures var s' := After(s, StoreRun(s, e, va, off, b, q)).value;
      forall f, wa, k: nat :: StoredByte(s, s', e, va, off, b, f, wa, k)
  {
    var w := Write(e, va, off, b);
    if !Ent(s, e, va).ro {
      OneStep(s, w, []);
      forall f, wa, k: nat ensures StoredByte(s, Step(s, w), e, va, off, b, f, wa, k) { StepReads(s, w, f, wa, k); }
    } else {
      HandledStore(s, e, va, off, b, q);
    }
  }

  lemma OneStep(s: Lazy, op: Op, rest: seq<Op>)
    requires Inv(s) && Enabled(s, op)
    ensures Inv(Step(s, op)) && After(s, [op] + rest) == After(Step(s, op), rest)
  {
    StepKeepsInv(s, op);
    hide Inv, Step, Enabled;
    assert ([op] + rest)[1..] == rest;
  }

  lemma HandledStore(s: Lazy, e: Env, va: Va, off: nat, b: int, q: Page)
    requires Inv(s) && Runs(s, e) && e !in s.tmp && Maps(s, e, va) && Ent(s, e, va).ro && Fresh(s, q)
    ensures After(s, StoreRun(s, e, va, off, b, q)).Some?
    ensures var s' := After(s, StoreRun(s, e, va, off, b, q)).value;
      forall f, wa, k: nat :: StoredByte(s, s', e, va, off, b, f, wa, k)
  {
    hide Inv;
    var a, c, d, w := FaultCopy(e, va, q), FaultMap(e), FaultUnmap(e), Write(e, va, off, b);
    OneStep(s, a, [c] + ([d] + ([w] + [])));
    var s1 := Step(s, a);
    OneStep(s1, c, [d] + ([w] + []));
    var s2 := Step(s1, c);
    OneStep(s2, d, [w] + []);
    var s3 := Step(s2, d);
    OneStep(s3, w, []);
    ReadOnlyIsPrivate(s, e, va);
    forall f, wa, k: nat ensures StoredByte(s, Step(s3, w), e, va, off, b, f, wa, k) {
      StepReads(s, a, f, wa, k);
      StepReads(s1, c, f, wa, k);
      StepReads(s2, d, f, wa, k);
      StepReads(s3, w, f, wa, k);
    }
  }

  lemma ReadOnlyIsPrivate(s: Lazy, e: Env, va: Va)
    requires Inv(s) && Maps(s, e, va) && Ent(s, e, va).ro
    ensures !Ent(s, e, va).lib
  {
  }

  // ---- The same of the machine that copies eagerly ----

  function ByteOf(c: Cell, k: nat): Option<int> {
    if k < |c.data| then Some(c.data[k]) else None
  }

  predicate SameObject(v: Eager, e: Env, va: Va, f: Env, wa: Va)
    requires e in v && va in v[e] && f in v && wa in v[f]
  {
    (e == f && va == wa) || (v[e][va].Shared? && v[f][wa].Shared? && v[e][va].id == v[f][wa].id)
  }

  /** There too a store changes one byte of one page, or of one shared object wherever it is mapped. */
  lemma EagerStoreIsLocal(v: Eager, e: Env, va: Va, off: nat, b: int, f: Env, wa: Va, k: nat)
    requires e in v && va in v[e] && f in v && wa in v[f]
    ensures var v' := EagerStep(v, EWrite(e, va, off, b));
      && f in v' && wa in v'[f] && v'[f].Keys == v[f].Keys
      && (v'[f][wa].Shared? <==> v[f][wa].Shared?) && (v[f][wa].Shared? ==> v'[f][wa].id == v[f][wa].id)
      && ByteOf(v'[f][wa], k) ==
           if SameObject(v, e, va, f, wa) && k == off && ByteOf(v[f][wa], k).Some? then Some(b) else ByteOf(v[f][wa], k)
  {
  }

  /** The view that both machines agree on is what programs read: the pages they map, but for one that fork
      is still duplicating, with their bytes and with whom they are shared. */
  lemma ViewIsWhatIsRead(s: Lazy, e: Env, va: Va, f: Env, wa: Va, k: nat)
    ensures var v := View(s);
      && v.Keys == s.space.Keys
      && (e in v && va in v[e] <==> Maps(s, e, va) && !Incomplete(s, e, va))
      && (e in v && va in v[e] ==> ByteOf(v[e][va], k) == Reads(s, e, va, k))
      && (e in v && va in v[e] && f in v && wa in v[f] ==> (SameObject(v, e, va, f, wa) <==> Together(s, e, va, f, wa)))
  {
  }
}
