/** How the two ends of a pipe find out that the other end is gone: user/pipe.c compares the
    reference count of its own descriptor page with that of the ring page.  The environments that
    share one pipe are a transition system split at the system calls of close and dup. */
module PipeClosed {

  type Env = int

  datatype End = Reader | Writer

  function Other(x: End): End { if x.Reader? then Writer else Reader }

  /** Descriptor number `num` of environment `env`. */
  datatype Site = Site(env: Env, num: nat)

  /** Where an environment is in close or dup, if it is in one. */
  datatype Pc =
    | Idle
    | CloseData(s: Site, dup: bool, from: Site)  // descriptor page unmapped, ring page not yet
    | DupData(from: Site, to: Site)              // the new slot is closed
    | DupFd(from: Site, to: Site)                // the ring page has been dealt with
    | Check0(s: Site)                            // in _pipeisclosed: about to read env_runs
    | Check1(s: Site, runs: nat)
    | Check2(s: Site, runs: nat, fdref: nat)
    | Check3(s: Site, runs: nat, fdref: nat, pref: nat)  // about to compare

  datatype State = State(
    fd: map<Site, End>,   // where a descriptor page of this pipe is mapped, and which
    data: set<Site>,      // where the ring page is mapped, by the descriptor it belongs to
    pc: map<Env, Pc>,
    runs: map<Env, nat>,  // env_runs
    running: Env)

  function FdSites(s: State, x: End): set<Site> {
    set f | f in s.fd && s.fd[f] == x
  }

  /** pageref of a descriptor page, and of the ring page. */
  function FdRefs(s: State, x: End): nat { |FdSites(s, x)| }

  function RingRefs(s: State): nat { |s.data| }

  const INT: int := 0x8000_0000
  const U64: int := 0x1_0000_0000_0000_0000

  /** What is left of env_runs when it is stored in an int and compared with a u64 again. */
  function Truncated(r: nat): int {
    var low := r % (2 * INT);
    if low < INT then low else U64 - 2 * INT + low
  }

  datatype Event =
    | Switch(next: Env)                      // env_run, whoever ran before
    | Close(num: nat)                        // close: unmap the descriptor page
    | UnmapRing                              // pipeclose: unmap the ring page
    | Dup(from: nat, to: nat)                // dup: close the target if it is this pipe
    | MapRing(ok: bool)                      // dup: map the ring page; the source ignores the result
    | MapFd(ok: bool)                        // dup: map the descriptor page
    | Ask(num: nat)                          // call _pipeisclosed
    | Look                                   // its next read, or its comparison
    | Fork(child: Env)                       // fork or spawn, as one step
    | Exit

  function Me(s: State): Pc {
    if s.running in s.pc then s.pc[s.running] else Idle
  }

  predicate Enabled(s: State, e: Event) {
    match e
    case Switch(to) => to in s.pc
    case Close(num) => s.running in s.pc && Me(s).Idle? && Site(s.running, num) in s.fd
    case UnmapRing => Me(s).CloseData?
    case Dup(from, to) => s.running in s.pc && Me(s).Idle? && Site(s.running, from) in s.fd
    case MapRing(_) => Me(s).DupData?
    case MapFd(_) => Me(s).DupFd?
    case Ask(num) => s.running in s.pc && Me(s).Idle? && Site(s.running, num) in s.fd
    case Look => Me(s).Check0? || Me(s).Check1? || Me(s).Check2? || Me(s).Check3?
    case Fork(c) => s.running in s.pc && Me(s).Idle? && c !in s.pc
    case Exit => s.running in s.pc && Me(s).Idle?
  }

  function Runs(s: State, e: Env): nat {
    if e in s.runs then s.runs[e] else 0
  }

  /** The retry loop of _pipeisclosed is done, and what it returns. */
  predicate Consistent(s: State) {
    Me(s).Check3? && Truncated(Me(s).runs) == Runs(s, s.running)
  }

  predicate SaysClosed(s: State) {
    Consistent(s) && Me(s).fdref == Me(s).pref
  }

  function Goto(s: State, pc: Pc): State {
    s.(pc := s.pc[s.running := pc])
  }

  function Step(s: State, e: Event): State
    requires Enabled(s, e)
  {
    var me := s.running;
    match e
    case Switch(to) =>
      s.(running := to, runs := s.runs[to := Runs(s, to) + 1])
    case Close(num) =>
      var x := Site(me, num);
      Goto(s.(fd := s.fd - {x}), CloseData(x, false, x))
    case UnmapRing =>
      var c := Me(s);
      Goto(s.(data := s.data - {c.s}), if c.dup then DupData(c.from, c.s) else Idle)
    case Dup(from, to) =>
      var f, t := Site(me, from), Site(me, to);
      if t in s.fd then Goto(s.(fd := s.fd - {t}), CloseData(t, true, f)) else Goto(s, DupData(f, t))
    case MapRing(ok) =>
      var c := Me(s);
      Goto(if c.from in s.data && ok then s.(data := s.data + {c.to}) else s, DupFd(c.from, c.to))
    case MapFd(ok) =>
      var c := Me(s);
      if c.from in s.fd && ok then Goto(s.(fd := s.fd[c.to := s.fd[c.from]]), Idle)
      else Goto(s.(fd := s.fd - {c.to}, data := s.data - {c.to}), Idle)
    case Ask(num) =>
      Goto(s, Check0(Site(me, num)))
    case Look =>
      (match Me(s)
       case Check0(x) => Goto(s, Check1(x, Runs(s, me)))
       case Check1(x, r) => Goto(s, Check2(x, r, if x in s.fd then FdRefs(s, s.fd[x]) else 0))
       case Check2(x, r, f) => Goto(s, Check3(x, r, f, if x in s.data then RingRefs(s) else 0))
       case Check3(x, r, f, p) => Goto(s, if Consistent(s) then Idle else Check0(x))
       case _ => s)
    case Fork(c) =>
      s.(fd := (map x | x in s.fd.Keys + ChildSites(s.fd.Keys, me, c) :: s.fd[if x in s.fd then x else Site(me, x.num)]),
         data := s.data + ChildSites(s.data, me, c),
         pc := s.pc[c := Idle])
    case Exit =>
      s.(fd := (map x | x in s.fd && x.env != me :: s.fd[x]), data := (set x | x in s.data && x.env != me), pc := s.pc - {me})
  }

  function ChildSites(of: set<Site>, p: Env, c: Env): set<Site> {
    set x | x in of && x.env == p :: Site(c, x.num)
  }

  // ---- What each call does to the mappings ----

  /** Where a descriptor page is mapped after the event. */
  predicate FdAfter(s: State, e: Event, x: Site) {
    match e
    case Close(num) => x in s.fd && x != Site(s.running, num)
    case Dup(_, to) => x in s.fd && x != Site(s.running, to)
    case MapFd(ok) =>
      Me(s).DupFd? && if ok && Me(s).from in s.fd then x in s.fd || x == Me(s).to else x in s.fd && x != Me(s).to
    case Fork(c) => x in s.fd || (x.env == c && Site(s.running, x.num) in s.fd)
    case Exit => x in s.fd && x.env != s.running
    case _ => x in s.fd
  }

  /** Where the ring page is. */
  predicate DataAfter(s: State, e: Event, x: Site) {
    match e
    case UnmapRing => Me(s).CloseData? && x in s.data && x != Me(s).s
    case MapRing(ok) => Me(s).DupData? && (x in s.data || (ok && Me(s).from in s.data && x == Me(s).to))
    case MapFd(ok) => Me(s).DupFd? && x in s.data && ((ok && Me(s).from in s.fd) || x != Me(s).to)
    case Fork(c) => x in s.data || (x.env == c && Site(s.running, x.num) in s.data)
    case Exit => x in s.data && x.env != s.running
    case _ => x in s.data
  }

  /** The descriptor that x had, or of which it is a copy. */
  function FdSource(s: State, e: Event, x: Site): Site {
    if e.MapFd? && Me(s).DupFd? && x == Me(s).to && e.ok && Me(s).from in s.fd then Me(s).from
    else if x in s.fd then x
    else Site(s.running, x.num)
  }

  /** A call adds and removes the mappings it names and no others, and a descriptor stays the end that it is:
      dup copies the end of its source, and fork gives the child its parent's. */
  lemma StepMappings(s: State, e: Event, x: Site)
    requires Enabled(s, e)
    ensures var s' := Step(s, e);
      && (x in s'.fd <==> FdAfter(s, e, x)) && (x in s'.data <==> DataAfter(s, e, x))
      && (x in s'.fd ==> s'.fd[x] == s.fd[FdSource(s, e, x)])
  {
  }

  /** fork adds to the counts of each end and of the ring what the parent has of them. */
  lemma ForkCounts(s: State, c: Env, x: End)
    requires Enabled(s, Fork(c)) && forall y | y in s.fd.Keys + s.data :: y.env != c
    ensures FdRefs(Step(s, Fork(c)), x) == FdRefs(s, x) + |set y | y in s.fd && s.fd[y] == x && y.env == s.running|
    ensures RingRefs(Step(s, Fork(c))) == RingRefs(s) + |set y | y in s.data && y.env == s.running|
  {
    var mine := set y | y in s.fd && s.fd[y] == x && y.env == s.running;
    var rings := set y | y in s.data && y.env == s.running;
    ForkFdSites(s, c, x, mine);
    ForkDataSites(s, c, rings);
    SameSize(mine, ChildSites(mine, s.running, c), s.running, c);
    SameSize(rings, ChildSites(rings, s.running, c), s.running, c);
    hide Step, ChildSites;
  }

  lemma ForkFdSites(s: State, c: Env, x: End, mine: set<Site>)
    requires Enabled(s, Fork(c)) && forall y | y in s.fd.Keys :: y.env != c
    requires mine == set y | y in s.fd && s.fd[y] == x && y.env == s.running
    ensures FdSites(Step(s, Fork(c)), x) == FdSites(s, x) + ChildSites(mine, s.running, c)
    ensures FdSites(s, x) !! ChildSites(mine, s.running, c)
  {
    forall y ensures y in FdSites(Step(s, Fork(c)), x) <==> y in FdSites(s, x) || y in ChildSites(mine, s.running, c) {
      StepMappings(s, Fork(c), y);
      if y.env == c && Site(s.running, y.num) in mine { assert y in ChildSites(mine, s.running, c); }
    }
  }

  lemma ForkDataSites(s: State, c: Env, rings: set<Site>)
    requires Enabled(s, Fork(c)) && forall y | y in s.data :: y.env != c
    requires rings == set y | y in s.data && y.env == s.running
    ensures Step(s, Fork(c)).data == s.data + ChildSites(rings, s.running, c) && s.data !! ChildSites(rings, s.running, c)
  {
    forall y ensures y in Step(s, Fork(c)).data <==> y in s.data || y in ChildSites(rings, s.running, c) {
      StepMappings(s, Fork(c), y);
      if y.env == c && Site(s.running, y.num) in rings { assert y in ChildSites(rings, s.running, c); }
    }
  }

  lemma {:induction false} SameSize(of: set<Site>, to: set<Site>, p: Env, c: Env)
    requires to == ChildSites(of, p, c) && forall x | x in of :: x.env == p
    ensures |to| == |of|
  {
    if of != {} {
      var x :| x in of;
      SameSize(of - {x}, to - {Site(c, x.num)}, p, c);
    }
  }

  // ---- Invariant ----

  /** Every mapped descriptor page comes with its ring page. */
  ghost predicate Covered(s: State) {
    s.fd.Keys <= s.data
  }

  ghost predicate Owned(s: State) {
    && (forall x | x in s.data :: x.env in s.pc)
    && (forall x | x in s.fd :: x.env in s.pc)
  }

  /** The sites in an environment's program counter are its own and in the state its order of calls implies. */
  ghost predicate PcOk(s: State, e: Env) requires e in s.pc {
    match s.pc[e]
    case Idle => true
    case CloseData(x, dup, f) => x.env == e && x !in s.fd && (dup ==> f.env == e)
    case DupData(f, t) => f.env == e && t.env == e && t !in s.fd
    case DupFd(f, t) => f.env == e && t.env == e && t !in s.fd
    case Check0(x) => x.env == e && x in s.fd
    case Check1(x, r) => x.env == e && x in s.fd && r <= Runs(s, e)
    case Check2(x, r, f) => x.env == e && x in s.fd && r <= Runs(s, e) && (s.running == e && r == Runs(s, e) ==> f == FdRefs(s, s.fd[x]))
    case Check3(x, r, f, p) => x.env == e && x in s.fd && r <= Runs(s, e)
                               && (s.running == e && r == Runs(s, e) ==> f == FdRefs(s, s.fd[x]) && p == RingRefs(s))
  }

  /** A ring mapping without its descriptor belongs to a close or dup that is half done. */
  ghost predicate Tight(s: State) {
    forall x | x in s.data && x !in s.fd :: x.env in s.pc && (s.pc[x.env].CloseData? || s.pc[x.env].DupFd?) && InHand(s.pc[x.env]) == x
  }

  function InHand(c: Pc): Site requires c.CloseData? || c.DupFd? {
    if c.CloseData? then c.s else c.to
  }

  ghost predicate Inv(s: State) {
    Covered(s) && Owned(s) && Tight(s) && forall e | e in s.pc :: PcOk(s, e)
  }

  /** dup goes on to map the descriptor although its ring page is not there. */
  predicate Blind(s: State, e: Event) {
    e == MapFd(true) && Me(s).DupFd? && Me(s).from in s.fd && Me(s).to !in s.data
  }

  /** What other environments do leaves the sites of e, its program counter and its run count alone. */
  ghost predicate Untouched(s: State, s': State, e: Env) {
    && e in s.pc && e in s'.pc && s'.pc[e] == s.pc[e]
    && Runs(s', e) == Runs(s, e)
    && (forall x: Site | x.env == e :: (x in s'.fd <==> x in s.fd) && (x in s'.data <==> x in s.data))
  }

  lemma UntouchedStaysOk(s: State, s': State, e: Env)
    requires Untouched(s, s', e) && PcOk(s, e) && s'.running != e
    ensures PcOk(s', e)
  {
  }

  lemma OthersUntouched(s: State, e: Event, f: Env)
    requires Inv(s) && Enabled(s, e) && !e.Switch? && f in s.pc && f != s.running
    ensures Untouched(s, Step(s, e), f)
  {
    match e
    case Fork(c) =>
      forall x: Site | x.env == f ensures x !in ChildSites(s.fd.Keys, s.running, c) && x !in ChildSites(s.data, s.running, c) {
      }
    case _ =>
  }

  /** The step keeps the running environment's own program counter in order. */
  lemma OwnPcOk(s: State, e: Event)
    requires Inv(s) && Enabled(s, e) && !e.Switch? && !e.Exit?
    ensures s.running in Step(s, e).pc && PcOk(Step(s, e), s.running)
  {
  }

  /** A step keeps every descriptor page beside its ring page exactly if it is no blind mapping. */
  lemma StepCovered(s: State, e: Event)
    requires Inv(s) && Enabled(s, e)
    ensures Owned(Step(s, e)) && (Covered(Step(s, e)) <==> !Blind(s, e))
  {
    if Blind(s, e) { assert Me(s).to in Step(s, e).fd && Me(s).to !in Step(s, e).data; }
  }

  lemma StepTight(s: State, e: Event)
    requires Inv(s) && Enabled(s, e)
    ensures Tight(Step(s, e))
  {
  }

  lemma StepKeepsInv(s: State, e: Event)
    requires Inv(s) && Enabled(s, e)
    ensures Inv(Step(s, e)) <==> !Blind(s, e)
  {
    var s' := Step(s, e);
    StepCovered(s, e);
    StepTight(s, e);
    hide Covered, Owned, Tight;
    if e.Switch? {
      forall f | f in s.pc ensures PcOk(s', f) {
      }
    } else {
      if !e.Exit? { OwnPcOk(s, e); }
      forall f | f in s.pc && f != s.running ensures PcOk(s', f) {
        OthersUntouched(s, e, f);
        UntouchedStaysOk(s, s', f);
      }
    }
  }

  /** The next state; an event that cannot happen when its turn comes is skipped. */
  function Next(s: State, e: Event): State {
    if Enabled(s, e) then Step(s, e) else s
  }

  function Run(s: State, events: seq<Event>): State
    decreases |events|
  {
    if events == [] then s else Run(Next(s, events[0]), events[1..])
  }

  /** The environments whose last ring mapping was refused, after event e of environment me. */
  function Noted(refused: set<Env>, me: Env, e: Event): set<Env> {
    if e == MapRing(false) then refused + {me} else if e == MapRing(true) then refused - {me} else refused
  }

  /** Over the run, every dup whose ring mapping the kernel refused has its descriptor mapping refused
      too, or no descriptor left to map; refused holds the environments whose last one was refused. */
  predicate Granted(s: State, events: seq<Event>, refused: set<Env>)
    decreases |events|
  {
    events == [] ||
    var e, me := events[0], s.running;
    if !Enabled(s, e) then Granted(s, events[1..], refused)
    else
      && (e == MapFd(true) && Me(s).from in s.fd ==> me !in refused)
      && Granted(Step(s, e), events[1..], Noted(refused, me, e))
  }

  ghost predicate AlwaysCovered(s: State, events: seq<Event>)
    decreases |events|
  {
    Covered(s) && (events == [] || AlwaysCovered(Next(s, events[0]), events[1..]))
  }

  /** Which dups that are half done have their ring page, as the results of the calls say. */
  ghost predicate Remembers(s: State, refused: set<Env>) {
    forall e :: RemembersOf(s, refused, e)
  }

  /** What is remembered of one environment. */
  predicate RemembersOf(s: State, refused: set<Env>, e: Env) {
    e in s.pc && s.pc[e].DupFd? && s.pc[e].from in s.fd ==> (s.pc[e].to in s.data <==> e !in refused)
  }

  lemma OthersRemembered(s: State, e: Event, refused: set<Env>, f: Env)
    requires Inv(s) && Enabled(s, e) && RemembersOf(s, refused, f) && f in s.pc && (f != s.running || e.Switch?)
    ensures RemembersOf(Step(s, e), Noted(refused, s.running, e), f)
  {
    if !e.Switch? {
      OthersUntouched(s, e, f);
      assert PcOk(s, f);
      hide Step, Inv, Enabled;
    }
  }

  lemma OwnRemembered(s: State, e: Event, refused: set<Env>)
    requires Inv(s) && Enabled(s, e) && !e.Switch? && s.running in s.pc
    ensures RemembersOf(Step(s, e), Noted(refused, s.running, e), s.running)
  {
    if e.MapRing? {
      assert PcOk(s, s.running);
      assert Me(s).to !in s.data;
    }
  }

  lemma StepRemembers(s: State, e: Event, refused: set<Env>)
    requires Inv(s) && Enabled(s, e) && Remembers(s, refused)
    ensures Blind(s, e) <==> e == MapFd(true) && Me(s).from in s.fd && s.running in refused
    ensures Remembers(Step(s, e), Noted(refused, s.running, e))
  {
    hide Inv, Noted;
    var s' := Step(s, e);
    forall f | f in s'.pc ensures RemembersOf(s', Noted(refused, s.running, e), f) {
      if f in s.pc {
        assert RemembersOf(s, refused, f);
        if f == s.running && !e.Switch? { OwnRemembered(s, e, refused); } else { OthersRemembered(s, e, refused, f); }
      }
    }
    assert forall f :: RemembersOf(s', Noted(refused, s.running, e), f);
    assert RemembersOf(s, refused, s.running);
  }

  /** Every state of the run keeps each descriptor page beside its ring page, so that the counts mean
      what _pipeisclosed takes them for, exactly when no dup mapped a descriptor after its ring mapping
      was refused. */
  lemma {:induction false} CoveredIffGranted(s: State, events: seq<Event>, refused: set<Env>)
    requires Inv(s) && Remembers(s, refused)
    ensures AlwaysCovered(s, events) <==> Granted(s, events, refused)
    decreases |events|
  {
    hide Covered, Owned, Tight, PcOk, Step, Remembers;
    if events != [] {
      var e := events[0];
      if Enabled(s, e) {
        StepCovered(s, e);
        StepKeepsInv(s, e);
        StepRemembers(s, e, refused);
        if !Blind(s, e) {
          CoveredIffGranted(Step(s, e), events[1..],
            Noted(refused, s.running, e));
        }
      } else {
        CoveredIffGranted(s, events[1..], refused);
      }
    }
  }

  lemma {:induction false} RunKeepsInv(s: State, events: seq<Event>, refused: set<Env>)
    requires Inv(s) && Remembers(s, refused) && Granted(s, events, refused)
    ensures Inv(Run(s, events))
    decreases |events|
  {
    hide Covered, Owned, Tight, PcOk, Step, Remembers;
    if events != [] {
      var e := events[0];
      if Enabled(s, e) {
        StepKeepsInv(s, e);
        StepRemembers(s, e, refused);
        RunKeepsInv(Step(s, e), events[1..],
          Noted(refused, s.running, e));
      } else {
        RunKeepsInv(s, events[1..], refused);
      }
    }
  }

  /** The state when pipe() returns. */
  predicate JustCreated(s: State) {
    exists r, w, e |  r in s.data && w in s.data && e in s.pc ::
      r != w && r.env == e && w.env == e && s.fd == map[r := Reader, w := Writer] && s.data == {r, w}
      && (forall f | f in s.pc :: s.pc[f].Idle?)
  }

  // ---- What the comparison is worth ----

  /** Short of 2^63 dispatches, the truncated comparison agrees only when nothing was dispatched
      in between, and only while the count still fits an int. */
  lemma TruncatedAgrees(r: nat, now: nat)
    requires r <= now < 0x8000_0000_0000_0000
    ensures Truncated(r) == now <==> r == now && now < INT
  {
  }

  lemma PartsOfData(s: State, x: End)
    requires Covered(s)
    ensures FdSites(s, x) + FdSites(s, Other(x)) <= s.data && FdSites(s, x) !! FdSites(s, Other(x))
    ensures FdRefs(s, x) + FdRefs(s, Other(x)) <= RingRefs(s)
  {
    assert |FdSites(s, x) + FdSites(s, Other(x))| == FdRefs(s, x) + FdRefs(s, Other(x));
    Smaller(FdSites(s, x) + FdSites(s, Other(x)), s.data);
  }

  lemma {:induction false} Smaller(a: set<Site>, b: set<Site>)
    requires a <= b
    ensures |a| <= |b| && (|a| == |b| ==> a == b)
    decreases |a|
  {
    if x :| x in a {
      Smaller(a - {x}, b - {x});
      assert a == (a - {x}) + {x} && b == (b - {x}) + {x};
    } else {
      assert a == {};
    }
  }

  /** In every state of every such run the ring page has at least as many references as the two
      descriptor pages together. */
  lemma RingOutnumbersEnds(s: State, events: seq<Event>, refused: set<Env>)
    requires Inv(s) && Remembers(s, refused) && Granted(s, events, refused)
    ensures var t := Run(s, events); RingRefs(t) >= FdRefs(t, Reader) + FdRefs(t, Writer)
  {
    RunKeepsInv(s, events, refused);
    PartsOfData(Run(s, events), Reader);
  }

  /** Closed is never said falsely: no descriptor of the other end is mapped anywhere. */
  lemma ClosedIsTrue(s: State)
    requires Inv(s) && SaysClosed(s) && Runs(s, s.running) < 0x8000_0000_0000_0000
    ensures FdSites(s, Other(s.fd[Me(s).s])) == {}
  {
    var c := Me(s);
    TruncatedAgrees(c.runs, Runs(s, s.running));
    assert PcOk(s, s.running);
    PartsOfData(s, s.fd[c.s]);
  }

  /** An end that is mapped nowhere never comes back. */
  lemma {:induction false} ClosedForGood(s: State, x: End, events: seq<Event>)
    requires FdSites(s, x) == {}
    ensures FdSites(Run(s, events), x) == {}
    decreases |events|
  {
    if events != [] {
      if Enabled(s, events[0]) {
        ClosedByStep(s, x, events[0]);
        ClosedForGood(Step(s, events[0]), x, events[1..]);
      } else {
        ClosedForGood(s, x, events[1..]);
      }
    }
  }

  lemma ClosedByStep(s: State, x: End, e: Event)
    requires FdSites(s, x) == {} && Enabled(s, e)
    ensures FdSites(Step(s, e), x) == {}
  {
    assert forall y | y in s.fd :: s.fd[y] != x by {
      forall y | y in s.fd ensures s.fd[y] != x { assert y !in FdSites(s, x); }
    }
    assert forall y | y in Step(s, e).fd :: Step(s, e).fd[y] != x;
  }

  /** From the creation of a pipe, through any schedule of closes, dups, forks and exits, an
      environment that is told "closed" is right, and stays right. */
  lemma PipeIsClosedIsSound(s: State, events: seq<Event>, later: seq<Event>)
    requires JustCreated(s) && Granted(s, events, {})
    requires var t := Run(s, events); SaysClosed(t) && Runs(t, t.running) < 0x8000_0000_0000_0000
    ensures var t := Run(s, events); Me(t).s in t.fd && FdSites(Run(t, later), Other(t.fd[Me(t).s])) == {}
  {
    RunKeepsInv(s, events, {});
    var t := Run(s, events);
    assert PcOk(t, t.running);
    ClosedIsTrue(t);
    ClosedForGood(t, Other(t.fd[Me(t).s]), later);
  }

  /** Conversely, once the other end is gone and no close or dup is half done, the comparison says so. */
  lemma ClosedIsNoticed(s: State)
    requires Inv(s) && Consistent(s) && Runs(s, s.running) < 0x8000_0000_0000_0000
    requires FdSites(s, Other(s.fd[Me(s).s])) == {} && s.data == s.fd.Keys
    ensures SaysClosed(s)
  {
    var c := Me(s);
    TruncatedAgrees(c.runs, Runs(s, s.running));
    assert PcOk(s, s.running);
    var x := s.fd[c.s];
    forall y | y in s.fd ensures y in FdSites(s, x) {
      assert y !in FdSites(s, Other(x));
    }
    assert FdSites(s, x) == s.data;
  }

  // ---- The ignored result in dup ----

  /** dup maps the ring page without looking at the result, then the descriptor.  Both calls together
      keep the counts meaningful exactly when the first was granted. */
  lemma DupSafeIffRingGranted(s: State, ok: bool)
    requires Inv(s) && Me(s).DupData? && s.running in s.pc && Me(s).from in s.fd
    ensures Covered(Step(Step(s, MapRing(ok)), MapFd(true))) <==> ok
  {
    var s1 := Step(s, MapRing(ok));
    assert PcOk(s, s.running) && Me(s).to !in s.data;
    assert Me(s).to in Step(s1, MapFd(true)).fd;
  }

  lemma RunStep(s: State, e: Event, s': State, rest: seq<Event>)
    requires Enabled(s, e) && Step(s, e) == s'
    ensures Run(s, [e] + rest) == Run(s', rest)
  {
    assert ([e] + rest)[1..] == rest;
  }

  /** A fresh pipe of environment 1, with the reading end at 0 and the writing end at 1, and its
      state after dup(0, 2) when the kernel refuses to map the ring page. */
  const FRESH: State := State(map[Site(1, 0) := Reader, Site(1, 1) := Writer], {Site(1, 0), Site(1, 1)}, map[1 := Idle], map[1 := 1], 1)
  const BROKEN: State := FRESH.(fd := FRESH.fd[Site(1, 2) := Reader])

  lemma DupWithRefusedRing(rest: seq<Event>)
    ensures Run(FRESH, [Dup(0, 2)] + ([MapRing(false)] + ([MapFd(true)] + rest))) == Run(BROKEN, rest)
  {
    var r, d := Site(1, 0), Site(1, 2);
    var s1, s2 := FRESH.(pc := map[1 := DupData(r, d)]), FRESH.(pc := map[1 := DupFd(r, d)]);
    RunStep(FRESH, Dup(0, 2), s1, [MapRing(false)] + ([MapFd(true)] + rest));
    RunStep(s1, MapRing(false), s2, [MapFd(true)] + rest);
    RunStep(s2, MapFd(true), BROKEN, rest);
  }

  lemma AskingBroken() returns (s: State)
    ensures s == Run(BROKEN, [Ask(0)] + ([Look] + ([Look] + ([Look] + []))))
    ensures s == BROKEN.(pc := map[1 := Check3(Site(1, 0), 1, 2, 2)])
  {
    var r := Site(1, 0);
    var s4, s5 := BROKEN.(pc := map[1 := Check0(r)]), BROKEN.(pc := map[1 := Check1(r, 1)]);
    assert Enabled(BROKEN, Ask(0)) && Step(BROKEN, Ask(0)) == s4 && Enabled(s4, Look) && Step(s4, Look) == s5;
    s := LookingBroken(s5);
    hide Step;
    RunStep(BROKEN, Ask(0), s4, [Look] + ([Look] + ([Look] + [])));
    RunStep(s4, Look, s5, [Look] + ([Look] + []));
  }

  lemma LookingBroken(s5: State) returns (s: State)
    requires s5 == BROKEN.(pc := map[1 := Check1(Site(1, 0), 1)])
    ensures s == Run(s5, [Look] + ([Look] + [])) && s == BROKEN.(pc := map[1 := Check3(Site(1, 0), 1, 2, 2)])
  {
    var r := Site(1, 0);
    var s6 := BROKEN.(pc := map[1 := Check2(r, 1, 2)]);
    s := BROKEN.(pc := map[1 := Check3(r, 1, 2, 2)]);
    assert FdSites(s5, Reader) == {r, Site(1, 2)} && |s6.data| == 2;
    RunStep(s5, Look, s6, [Look] + []);
    RunStep(s6, Look, s, []);
  }

  /** With one refused mapping the reader is told "closed" although the writer is open. */
  lemma FalselyClosed(events: seq<Event>)
    requires events == [Dup(0, 2)] + ([MapRing(false)] + ([MapFd(true)] + ([Ask(0)] + ([Look] + ([Look] + ([Look] + []))))))
    ensures JustCreated(FRESH) && FRESH.fd[Site(1, 0)] == Reader
    ensures var s := Run(FRESH, events); SaysClosed(s) && Me(s).s == Site(1, 0) && FdSites(s, Writer) != {}
  {
    assert Site(1, 0) in FRESH.data && Site(1, 1) in FRESH.data && 1 in FRESH.pc;
    DupWithRefusedRing([Ask(0)] + ([Look] + ([Look] + ([Look] + []))));
    var s := AskingBroken();
    assert Site(1, 1) in FdSites(s, Writer);
  }
}
