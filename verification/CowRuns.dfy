/** Runs of the copy-on-write machine with the page-table word that fork reads before it calls duppage:
    reading the word and the first call of duppage are two steps, and anything may come between. */
module CowRuns {
  import opened CowFork

  /** What fork has read (user/fork.c:114) for the page it is about to duplicate: PTE_RO and PTE_LIBRARY. */
  datatype Word = Word(child: Env, va: Va, ro: bool, lib: bool)

  datatype Machine = Machine(s: Lazy, word: map<Env, Word>)

  datatype Act =
    | ReadWord(p: Env, va: Va, c: Env)   // the fork loop reads a word
    | CallDuppage(p: Env)                // the first call of duppage, with that word
    | Other(op: Op)                      // any other step of any environment

  /** The fork of p is busy with its page, so that p makes none of the other calls of fork. */
  predicate InLoop(m: Machine, op: Op) {
    (op.NewEnv? || op.ExceptionStack? || op.Wake?) && op.p in m.word
  }

  ghost predicate Can(m: Machine, a: Act) {
    match a
    case ReadWord(p, va, c) => p !in m.word && Forking(m.s, p, c) && Maps(m.s, p, va) && va != XSTACK
    case CallDuppage(p) => p in m.word && Forking(m.s, p, m.word[p].child) && Maps(m.s, p, m.word[p].va)
    case Other(op) => Enabled(m.s, op) && !op.DupChild? && !InLoop(m, op)
  }

  ghost function Do(m: Machine, a: Act): Machine
    requires Inv(m.s) && Can(m, a)
  {
    match a
    case ReadWord(p, va, c) =>
      var t := Ent(m.s, p, va);
      m.(word := m.word[p := Word(c, va, t.ro, t.lib)])
    case CallDuppage(p) =>
      var w := m.word[p];
      assert w.child in m.s.space;
      Machine(MapChild(m.s, p, w.child, w.va, Entry(Ent(m.s, p, w.va).page, w.ro, w.lib)), m.word - {p})
    case Other(op) => m.(s := Step(m.s, op))
  }

  ghost function Seen(m: Machine, a: Act): seq<EagerOp>
    requires Inv(m.s) && Can(m, a)
  {
    match a
    case ReadWord(_, _, _) => []
    case CallDuppage(p) =>
      var w := m.word[p];
      if w.lib || w.ro then [ECopy(p, w.child, w.va)] else [EDrop(w.child, w.va)]
    case Other(op) => Visible(m.s, op)
  }

  /** The page was read-only when its word was read and is not any more. */
  predicate Stale(m: Machine, p: Env) {
    p in m.word && Maps(m.s, p, m.word[p].va) && m.word[p].ro && !Ent(m.s, p, m.word[p].va).ro
  }

  /** The environments whose fault handler has replaced the page of their word since it was read. */
  function Noted(m: Machine, hit: set<Env>, a: Act): set<Env> {
    match a
    case ReadWord(p, _, _) => hit - {p}
    case Other(FaultMap(e)) => if e in m.word && e in m.s.tmp && m.s.tmp[e].va == m.word[e].va then hit + {e} else hit
    case _ => hit
  }

  /** A word that has been read still describes its page, but for a fault in between. */
  ghost predicate WordOk(m: Machine, hit: set<Env>, p: Env) requires p in m.word {
    var w := m.word[p];
    && Runs(m.s, p) && p !in m.s.pending && w.child in m.s.asleep && m.s.asleep[w.child] == p
    && Maps(m.s, p, w.va) && w.va != XSTACK && !(w.ro && w.lib)
    && Ent(m.s, p, w.va).lib == w.lib && (Ent(m.s, p, w.va).ro ==> w.ro)
    && (w.ro && !Ent(m.s, p, w.va).ro <==> p in hit)
  }

  ghost predicate Good(m: Machine, hit: set<Env>) {
    Inv(m.s) && forall p | p in m.word :: WordOk(m, hit, p)
  }

  // ---- One step ----

  /** What a step does to a page of an environment that is in its fork loop. */
  lemma StepSite(s: Lazy, op: Op, p: Env, va: Va)
    requires Inv(s) && Enabled(s, op) && !op.DupChild? && Runs(s, p) && p !in s.pending && Maps(s, p, va)
    ensures var s' := Step(s, op);
      && Runs(s', p) && p !in s'.pending && Maps(s', p, va)
      && Ent(s', p, va) == if op == FaultMap(p) && s.tmp[p].va == va then Entry(s.tmp[p].page, false, false) else Ent(s, p, va)
  {
    hide Backed, Cow, LibraryWritable;
  }

  lemma StepChild(s: Lazy, op: Op, p: Env, c: Env)
    requires Inv(s) && Enabled(s, op) && !op.DupChild? && c in s.asleep && s.asleep[c] == p && !(op.Wake? && op.p == p)
    ensures c in Step(s, op).asleep && Step(s, op).asleep[c] == p
  {
    hide Backed, Cow, LibraryWritable, Copies, Pendings;
  }

  lemma OtherKeepsWords(m: Machine, op: Op, hit: set<Env>, p: Env)
    requires Good(m, hit) && Can(m, Other(op)) && p in m.word
    ensures WordOk(Do(m, Other(op)), Noted(m, hit, Other(op)), p)
  {
    assert WordOk(m, hit, p);
    StepSite(m.s, op, p, m.word[p].va);
    StepChild(m.s, op, p, m.word[p].child);
    hide Step, Backed, Cow, LibraryWritable, Pendings;
  }

  lemma CallKeepsWords(m: Machine, q: Env, hit: set<Env>, p: Env)
    requires Good(m, hit) && Can(m, CallDuppage(q)) && p in m.word && p != q
    ensures WordOk(Do(m, CallDuppage(q)), hit, p)
  {
    assert WordOk(m, hit, p) && WordOk(m, hit, q);
    hide Inv;
  }

  /** With a word that is not stale the call is the one that reads its word itself. */
  lemma FreshCall(m: Machine, p: Env, hit: set<Env>)
    requires Good(m, hit) && Can(m, CallDuppage(p)) && !Stale(m, p)
    ensures var w := m.word[p]; var op := DupChild(p, w.va, w.child);
      && Enabled(m.s, op) && Do(m, CallDuppage(p)).s == Step(m.s, op) && Seen(m, CallDuppage(p)) == Visible(m.s, op)
  {
    assert WordOk(m, hit, p);
    hide Inv;
  }

  /** With a stale one the parent keeps a writable page that the child shares. */
  lemma StaleCall(m: Machine, p: Env, hit: set<Env>)
    requires Good(m, hit) && Can(m, CallDuppage(p)) && Stale(m, p)
    ensures !Cow(Do(m, CallDuppage(p)).s)
  {
    assert WordOk(m, hit, p);
    var w, s' := m.word[p], Do(m, CallDuppage(p)).s;
    assert Pendings(m.s) && p != w.child;
    assert !Ent(m.s, p, w.va).lib;
    assert Maps(s', p, w.va) && Maps(s', w.child, w.va) && Ent(s', p, w.va).page == Ent(s', w.child, w.va).page;
    assert !PendingPair(s', p, w.va, w.child, w.va);
  }

  /** The next call of duppage is made although the page was replaced by a fault since its word was read. */
  predicate TooLate(m: Machine, hit: set<Env>, a: Act) {
    a.CallDuppage? && a.p in hit
  }

  /** A step keeps the sharing discipline exactly when it is no such call; then the eager machine follows. */
  lemma StepIffNotTooLate(m: Machine, a: Act, hit: set<Env>)
    requires Good(m, hit) && Can(m, a)
    ensures Inv(Do(m, a).s) <==> !TooLate(m, hit, a)
    ensures !TooLate(m, hit, a) ==>
      Good(Do(m, a), Noted(m, hit, a)) && View(Do(m, a).s) == EagerRun(View(m.s), Seen(m, a))
  {
    hide Inv, Step, Enabled, View, EagerRun;
    var m' := Do(m, a);
    match a
    case ReadWord(p, va, c) =>
      NothingSeen(View(m.s));
      LibraryIsWritable(m.s, p, va);
      forall e | e in m'.word ensures WordOk(m', Noted(m, hit, a), e) {
        if e != p { assert WordOk(m, hit, e); }
      }
    case CallDuppage(p) =>
      assert WordOk(m, hit, p);
      if Stale(m, p) {
        StaleCall(m, p, hit);
        CowNeeded(m'.s);
      } else {
        FreshCall(m, p, hit);
        var op := DupChild(p, m.word[p].va, m.word[p].child);
        StepKeepsInv(m.s, op);
        StepSimulates(m.s, op);
        forall e | e in m'.word ensures WordOk(m', hit, e) { CallKeepsWords(m, p, hit, e); }
      }
    case Other(op) =>
      StepKeepsInv(m.s, op);
      StepSimulates(m.s, op);
      forall e | e in m'.word ensures WordOk(m', Noted(m, hit, a), e) { OtherKeepsWords(m, op, hit, e); }
  }

  lemma NothingSeen(v: Eager)
    ensures EagerRun(v, []) == v
  {
  }

  lemma LibraryIsWritable(s: Lazy, e: Env, va: Va)
    requires Inv(s) && Maps(s, e, va)
    ensures !(Ent(s, e, va).ro && Ent(s, e, va).lib)
  {
  }

  lemma CowNeeded(s: Lazy)
    ensures Inv(s) ==> Cow(s)
  {
  }

  // ---- Whole runs ----

  /** Acts that are not possible when their turn comes are skipped. */
  ghost function Next(m: Machine, a: Act): Machine
    requires Inv(m.s)
  {
    if Can(m, a) then Do(m, a) else m
  }

  /** No call of duppage in the run comes after a fault on its page since the word was read. */
  ghost predicate InTime(m: Machine, acts: seq<Act>, hit: set<Env>)
    requires Good(m, hit)
    decreases |acts|
  {
    acts == [] ||
    var a := acts[0];
    if !Can(m, a) then InTime(m, acts[1..], hit)
    else if TooLate(m, hit, a) then false
    else
      StepIffNotTooLate(m, a, hit);
      InTime(Do(m, a), acts[1..], Noted(m, hit, a))
  }

  ghost predicate AlwaysDisciplined(m: Machine, acts: seq<Act>)
    decreases |acts|
  {
    Inv(m.s) && (acts == [] || AlwaysDisciplined(Next(m, acts[0]), acts[1..]))
  }

  ghost function Run(m: Machine, acts: seq<Act>, hit: set<Env>): Machine
    requires Good(m, hit) && InTime(m, acts, hit)
    decreases |acts|
  {
    if acts == [] then m
    else if !Can(m, acts[0]) then Run(m, acts[1..], hit)
    else
      StepIffNotTooLate(m, acts[0], hit);
      Run(Do(m, acts[0]), acts[1..], Noted(m, hit, acts[0]))
  }

  /** What a run does as the eager machine sees it. */
  ghost function Trace(m: Machine, acts: seq<Act>, hit: set<Env>): seq<EagerOp>
    requires Good(m, hit) && InTime(m, acts, hit)
    decreases |acts|
  {
    if acts == [] then []
    else if !Can(m, acts[0]) then Trace(m, acts[1..], hit)
    else
      StepIffNotTooLate(m, acts[0], hit);
      Seen(m, acts[0]) + Trace(Do(m, acts[0]), acts[1..], Noted(m, hit, acts[0]))
  }

  /** Over every interleaving of stores, faults, shared pages and forks in which no parent faults on a
      page between reading its word and passing it to duppage, every environment sees exactly what it
      would see had each private page been copied when fork finished with it. */
  lemma {:induction false} CowSimulatesEagerCopy(m: Machine, acts: seq<Act>, hit: set<Env>)
    requires Good(m, hit) && InTime(m, acts, hit)
    ensures Inv(Run(m, acts, hit).s)
    ensures View(Run(m, acts, hit).s) == EagerRun(View(m.s), Trace(m, acts, hit))
    decreases |acts|
  {
    hide Inv, View, EagerRun, Can, Do, Seen, Noted, TooLate, WordOk;
    if acts == [] {
      NothingSeen(View(m.s));
    } else if Can(m, acts[0]) {
      StepIffNotTooLate(m, acts[0], hit);
      var m' := Do(m, acts[0]);
      var hit' := Noted(m, hit, acts[0]);
      CowSimulatesEagerCopy(m', acts[1..], hit');
      EagerRunAppend(View(m.s), Seen(m, acts[0]), Trace(m', acts[1..], hit'));
    } else {
      CowSimulatesEagerCopy(m, acts[1..], hit);
    }
  }

  /** The condition is exact: the discipline holds in every state of a run if and only if no call of
      duppage comes too late. */
  lemma {:induction false} DisciplinedIffInTime(m: Machine, acts: seq<Act>, hit: set<Env>)
    requires Good(m, hit)
    ensures AlwaysDisciplined(m, acts) <==> InTime(m, acts, hit)
    decreases |acts|
  {
    hide Inv, Can, Do, Noted, TooLate, WordOk;
    if acts != [] {
      var a := acts[0];
      if !Can(m, a) {
        DisciplinedIffInTime(m, acts[1..], hit);
      } else {
        StepIffNotTooLate(m, a, hit);
        if !TooLate(m, hit, a) { DisciplinedIffInTime(Do(m, a), acts[1..], Noted(m, hit, a)); }
      }
    }
  }

  lemma InTimeStep(m: Machine, a: Act, rest: seq<Act>, hit: set<Env>)
    requires Good(m, hit) && Can(m, a) && !TooLate(m, hit, a)
    ensures Good(Do(m, a), Noted(m, hit, a))
    ensures InTime(m, [a] + rest, hit) <==> InTime(Do(m, a), rest, Noted(m, hit, a))
  {
    hide Inv, WordOk, Can, Do, Noted;
    StepIffNotTooLate(m, a, hit);
    assert ([a] + rest)[1..] == rest;
  }

  /** What the parent's fault handler does between the reading of a word and the call. */
  function Handled(p: Env, va: Va, q: Page): seq<Act> {
    [Other(FaultCopy(p, va, q))] + ([Other(FaultMap(p))] + ([Other(FaultUnmap(p))] + [CallDuppage(p)]))
  }

  /** The condition is needed: whenever fork reaches a page that an earlier fork has left read-only, a
      fault of the parent on that page may come in between, and the call is then too late. */
  lemma TooLateIsReachable(m: Machine, hit: set<Env>, p: Env, va: Va, c: Env, q: Page)
    requires Good(m, hit) && Can(m, ReadWord(p, va, c)) && Ent(m.s, p, va).ro && Fresh(m.s, q)
    ensures !InTime(m, [ReadWord(p, va, c)] + Handled(p, va, q), hit)
    ensures !AlwaysDisciplined(m, [ReadWord(p, va, c)] + Handled(p, va, q))
  {
    var a0 := ReadWord(p, va, c);
    DisciplinedIffInTime(m, [a0] + Handled(p, va, q), hit);
    InTimeStep(m, a0, Handled(p, va, q), hit);
    HandledIsTooLate(Do(m, a0), Noted(m, hit, a0), p, va, q);
  }

  lemma HandledIsTooLate(m: Machine, hit: set<Env>, p: Env, va: Va, q: Page)
    requires Good(m, hit) && p in m.word && m.word[p].va == va && p !in m.s.tmp
    requires Maps(m.s, p, va) && Ent(m.s, p, va).ro && Fresh(m.s, q)
    ensures !InTime(m, Handled(p, va, q), hit)
  {
    hide Inv;
    assert WordOk(m, hit, p);
    var a1, a2, a3, a4 := Other(FaultCopy(p, va, q)), Other(FaultMap(p)), Other(FaultUnmap(p)), CallDuppage(p);
    InTimeStep(m, a1, [a2] + ([a3] + [a4]), hit);
    var m1 := Do(m, a1);
    InTimeStep(m1, a2, [a3] + [a4], hit);
    var m2, hit2 := Do(m1, a2), hit + {p};
    InTimeStep(m2, a3, [a4], hit2);
    var m3 := Do(m2, a3);
    assert WordOk(m3, hit2, p);
    assert Can(m3, a4) && TooLate(m3, hit2, a4);
  }

  // ---- Both calls of duppage with an earlier word ----

  /** Both calls of duppage on a private page, with the permission word read before the first. */
  ghost function Duppage(s: Lazy, p: Env, c: Env, va: Va, pte: Entry): Lazy
    requires Forking(s, p, c) && Maps(s, p, va) && c in s.space
  {
    var s1 := MapChild(s, p, c, va, pte);
    if p in s1.pending then SetEntry(s1, p, va, Ent(s1, p, va).(ro := true)).(pending := s.pending) else s1
  }

  lemma DuppageSites(s: Lazy, p: Env, c: Env, va: Va, pte: Entry)
    requires Forking(s, p, c) && Maps(s, p, va) && c in s.space && p != c && !Ent(s, p, va).lib && !pte.lib
    ensures var s', t := Duppage(s, p, c, va, pte), Ent(s, p, va);
            && (forall f, wa :: Maps(s', f, wa) <==> Maps(s, f, wa) || (f == c && wa == va))
            && Ent(s', c, va) == Entry(t.page, true, false)
            && Ent(s', p, va) == Entry(t.page, !pte.ro || t.ro, false)
            && (forall f, wa | Maps(s, f, wa) && !(wa == va && (f == c || f == p)) :: Ent(s', f, wa) == Ent(s, f, wa))
            && s'.pending == s.pending
  {
  }

  /** fork reads the word before it calls duppage, and duppage trusts it: the sharing discipline
      survives exactly when a page that was read as read-only still is. */
  lemma DuppageSafeIffWordNotStale(s: Lazy, p: Env, c: Env, va: Va, pte: Entry)
    requires Inv(s) && Forking(s, p, c) && Maps(s, p, va) && !Ent(s, p, va).lib && !pte.lib
    ensures Cow(Duppage(s, p, c, va, pte)) <==> (pte.ro ==> Ent(s, p, va).ro)
  {
    var s' := Duppage(s, p, c, va, pte);
    assert p != c;
    DuppageSites(s, p, c, va, pte);
    hide Duppage, Backed, Copies;
    if pte.ro && !Ent(s, p, va).ro {
      assert Maps(s', p, va) && Maps(s', c, va) && !PendingPair(s', p, va, c, va);
    } else {
      forall f, wa | Maps(s, f, wa) && !(wa == va && (f == c || f == p)) && Ent(s, f, wa).page == Ent(s, p, va).page
        ensures Ent(s, f, wa).ro && !Ent(s, f, wa).lib
      {
        assert !PendingPair(s, p, va, f, wa);
      }
    }
  }
}
