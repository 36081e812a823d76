/** The kernel entries that create, destroy, block and wake environments and pass messages:
    kernel/env.c and the matching calls of kernel/syscall_all.c. */
module EnvCalls {
  import opened EnvKernel
  import opened MemoryMap
  import opened Wrappers
  import opened Scheduler

  const E_IPC_NOT_RECV: int := 6

  // ---- Finding an environment ----

  /** envid2env; None stands for an error return. */
  function Lookup(k: K, envid: nat, checkPerm: bool): Option<Slot>
    requires Shaped(k) && k.cur.Some?
  {
    if envid == 0 then k.cur
    else
      var e := envid % NENV;
      if k.envs[e].status == Free || k.envs[e].id != envid then None
      else if checkPerm && k.cur != Some(e) && k.envs[e].parent != k.envs[k.cur.value].id then None
      else Some(e)
  }

  /** Live environments carry their slot in their identifier. */
  ghost predicate Identified(k: K) requires Shaped(k) {
    forall e: Slot | k.envs[e].status != Free :: k.envs[e].id % NENV == e
  }

  /** The identifier 0 finds the caller.  Any other finds the live environment that carries it, and nothing
      else; with the permission check only oneself and one's children. */
  lemma LookupFinds(k: K, envid: nat, e: Slot)
    requires Shaped(k) && k.cur.Some? && Identified(k)
    ensures Lookup(k, envid, false) == Some(e) <==>
              if envid == 0 then k.cur == Some(e) else k.envs[e].status != Free && k.envs[e].id == envid
    ensures Lookup(k, envid, true) == Some(e) <==>
              Lookup(k, envid, false) == Some(e) && (k.cur == Some(e) || k.envs[e].parent == k.envs[k.cur.value].id)
    ensures Lookup(k, envid, false).None? <==> envid != 0 && forall x: Slot :: k.envs[x].status == Free || k.envs[x].id != envid
  {
  }

  // ---- Creation and destruction ----

  /** env_alloc, without the address space. */
  function EnvAlloc(k: K, parent: nat): (r: Option<(K, Slot)>)
    requires Shaped(k)
    ensures r.Some? ==> Shaped(r.value.0)
  {
    if k.free == [] then None
    else
      var e := k.free[0];
      var env := k.envs[e].(id := MakeId(k.nextId + 1, e), status := Runnable, parent := parent);
      Some((k.(envs := k.envs[e := env], free := k.free[1..], nextId := k.nextId + 1, log := k.log + [Born(e)]), e))
  }

  /** LIST_INSERT_TAIL(&env_sched_list[0], e, sched_link) */
  function Enlist(k: K, e: Slot): (k': K)
    requires Shaped(k)
    ensures Shaped(k')
  {
    k.(run := k.run[0 := k.run[0] + [e]])
  }

  /** env_create_priority, without the image.  A full table is left as it is. */
  function EnvCreatePriority(k: K, pri: nat): (k': K)
    requires Shaped(k)
    ensures Shaped(k')
  {
    match EnvAlloc(k, 0)
    case None => k
    case Some((k1, e)) => Enlist(k1.(envs := k1.envs[e := k1.envs[e].(pri := pri)]), e)
  }

  /** sys_env_alloc, without the register frame; the second result is what the parent gets. */
  function SysEnvAlloc(k: K): (r: (K, int))
    requires Shaped(k) && k.cur.Some?
    ensures Shaped(r.0)
  {
    var me := k.envs[k.cur.value];
    match EnvAlloc(k, me.id)
    case None => (k, -1 as int)
    case Some((k1, e)) =>
      (Enlist(k1.(envs := k1.envs[e := k1.envs[e].(status := NotRunnable, pri := me.pri)]), e), k1.envs[e].id)
  }

  /** env_free, without the address space. */
  function EnvFree(k: K, e: Slot): (k': K)
    requires Shaped(k)
    ensures Shaped(k')
  {
    k.(envs := k.envs[e := k.envs[e].(status := Free)], free := [e] + k.free)
  }

  /** env_destroy */
  function EnvDestroy(k: K, e: Slot): (r: Outcome)
    requires Shaped(k)
    ensures r.Runs? ==> Shaped(r.k)
  {
    var k1 := EnvFree(k, e);
    if k.cur == Some(e) then Yield(k1.(cur := None)) else Runs(k1)
  }

  // ---- Blocking, waking, messages ----

  /** sys_set_env_status; None for a status is a number that is none of the three.  ENV_FREE destroys. */
  function SysSetEnvStatus(k: K, envid: nat, status: Option<Status>): (r: Outcome)
    requires Shaped(k) && k.cur.Some?
    ensures r.Runs? ==> Shaped(r.k)
  {
    if status.None? || Lookup(k, envid, true).None? then Runs(k)
    else
      var e := Lookup(k, envid, true).value;
      if status.value == Free then EnvDestroy(k, e)
      else Runs(k.(envs := k.envs[e := k.envs[e].(status := status.value)]))
  }

  /** sys_ipc_recv */
  function SysIpcRecv(k: K, dstva: nat): (r: Outcome)
    requires Shaped(k) && k.cur.Some?
    ensures r.Runs? ==> Shaped(r.k)
  {
    if dstva >= KERNBASE then Runs(k)
    else
      var e := k.cur.value;
      var env := k.envs[e].(recving := true, dstva := dstva, status := NotRunnable);
      Yield(k.(envs := k.envs[e := env], log := k.log + [Waits(e)]))
  }

  /** sys_ipc_can_send; mapped says whether the sender has a page at srcva.  The message is delivered
      and the receiver woken before the page is looked up, so that -1 can follow a delivery. */
  function SysIpcCanSend(k: K, envid: nat, value: nat, srcva: nat, perm: nat, mapped: bool): (r: (K, int))
    requires Shaped(k) && k.cur.Some?
    ensures Shaped(r.0)
  {
    if srcva >= KERNBASE || Lookup(k, envid, false).None? then (k, -1)
    else
      var e := Lookup(k, envid, false).value;
      if !k.envs[e].recving then (k, -E_IPC_NOT_RECV)
      else
        var mail := Mail(k.envs[k.cur.value].id, value, perm);
        var env := k.envs[e].(mail := mail, recving := false, status := Runnable);
        (k.(envs := k.envs[e := env], log := k.log + [Gets(e, mail)]), if srcva != 0 && !mapped then -1 else 0)
  }

  // ---- One kernel entry ----

  datatype Event =
    | Create(pri: nat)
    | Tick                                  // timer interrupt or sys_yield
    | Alloc
    | Destroy(envid: nat)
    | SetStatus(envid: nat, status: Option<Status>)
    | Recv(dstva: nat)
    | Send(envid: nat, value: nat, srcva: nat, perm: nat, mapped: bool)

  /** System calls have a caller; created environments have a priority; nobody destroys another
      environment or wakes a waiting receiver by hand. */
  ghost predicate Allowed(k: K, ev: Event) requires Shaped(k) {
    match ev
    case Create(pri) => pri >= 1
    case Tick => true
    case Alloc => k.cur.Some?
    case Destroy(id) => k.cur.Some? && (Lookup(k, id, true).Some? ==> Lookup(k, id, true) == k.cur)
    case SetStatus(id, s) =>
      k.cur.Some? && (s.Some? && Lookup(k, id, true).Some? ==>
        match s.value
        case Free => Lookup(k, id, true) == k.cur
        case Runnable => !k.envs[Lookup(k, id, true).value].recving
        case NotRunnable => true)
    case Recv(_) => k.cur.Some?
    case Send(_, _, _, _, _) => k.cur.Some?
  }

  function Step(k: K, ev: Event): (r: Outcome)
    requires Shaped(k) && (ev.Create? || ev.Tick? || k.cur.Some?)
    ensures r.Runs? ==> Shaped(r.k)
  {
    match ev
    case Create(pri) => Runs(EnvCreatePriority(k, pri))
    case Tick => Yield(k)
    case Alloc => Runs(SysEnvAlloc(k).0)
    case Destroy(id) => if Lookup(k, id, true).None? then Runs(k) else EnvDestroy(k, Lookup(k, id, true).value)
    case SetStatus(id, s) => SysSetEnvStatus(k, id, s)
    case Recv(dstva) => SysIpcRecv(k, dstva)
    case Send(id, value, srcva, perm, mapped) => Runs(SysIpcCanSend(k, id, value, srcva, perm, mapped).0)
  }

  ghost predicate Sound(k: K)
    ensures Sound(k) ==> Inv(k) && Identified(k)
  {
    Inv(k) && Identified(k)
  }

  // ---- Each entry keeps the invariants ----

  /** Where a new environment comes from, and that nobody else is touched by its arrival. */
  lemma CreatePlaces(k: K, parent: nat, k': K)
    requires Inv(k) && Shaped(k') && EnvAlloc(k, parent).Some?
    requires var (k1, e) := EnvAlloc(k, parent).value;
      k'.free == k1.free && k'.run == Enlist(k1, e).run && k'.cur == k.cur
    ensures Places(k') == Places(k)
    ensures var e := EnvAlloc(k, parent).value.1;
      k.envs[e].status == Free && k.cur != Some(e) && e !in k'.free && forall x: Slot | x != e :: x in k'.free <==> x in k.free
  {
    hide Mailboxes, WaitersBlocked, Prioritised;
    var e := k.free[0];
    assert k.free == [e] + k.free[1..];
    assert Places(k)[e] == 1;
    assert e !in multiset(k.free[1..]);
  }

  lemma CreateSound(k: K, parent: nat, status: Status, pri: nat)
    requires Sound(k) && EnvAlloc(k, parent).Some? && status != Free && pri >= 1
    ensures var (k1, e) := EnvAlloc(k, parent).value;
      Sound(Enlist(k1.(envs := k1.envs[e := k1.envs[e].(status := status, pri := pri)]), e))
  {
    var (k1, e) := EnvAlloc(k, parent).value;
    var k' := Enlist(k1.(envs := k1.envs[e := k1.envs[e].(status := status, pri := pri)]), e);
    CreatePlaces(k, parent, k');
    hide Places, Current;
    assert WaitersBlocked(k');
    assert Mailboxes(k') by { Logged(k.log, Born(e)); }
  }

  lemma DestroySound(k: K, e: Slot)
    requires Sound(k) && k.cur == Some(e)
    ensures Sound(EnvFree(k, e).(cur := None))
  {
    var k' := EnvFree(k, e).(cur := None);
    assert Places(k') == Places(k);
    assert Placed(k');
    assert WaitersBlocked(k');
    assert Mailboxes(k');
    assert Prioritised(k');
  }

  lemma SetStatusSound(k: K, e: Slot, status: Status)
    requires Sound(k) && k.envs[e].status != Free && status != Free && (status == Runnable ==> !k.envs[e].recving)
    ensures Sound(k.(envs := k.envs[e := k.envs[e].(status := status)]))
  {
    var k' := k.(envs := k.envs[e := k.envs[e].(status := status)]);
    assert Places(k') == Places(k);
    assert Placed(k');
    assert WaitersBlocked(k');
    assert Mailboxes(k');
    assert Prioritised(k');
  }

  lemma RecvPlaced(k: K, k1: K, e: Slot)
    requires Sound(k) && k.cur == Some(e)
    requires Shaped(k1) && k1.free == k.free && k1.run == k.run && k1.cur == k.cur
    requires k1.envs[e].status == NotRunnable && forall x: Slot | x != e :: k1.envs[x] == k.envs[x]
    ensures Placed(k1) && MustSwitch(k1)
  {
    assert Places(k1) == Places(k);
    assert Places(k)[e] == 1;
    assert e !in multiset(k.free);
  }

  /** The receiver e has blocked (k1) and the next environment was chosen (k'). */
  lemma YieldSound(k: K, k1: K, k': K, e: Slot)
    requires Sound(k) && Shaped(k1) && Shaped(k') && k.cur == k1.cur == Some(e) && Placed(k1) && Mailboxes(k1)
    requires k1.envs[e].status == NotRunnable && k1.envs[e].pri == k.envs[e].pri && k1.envs[e].id == k.envs[e].id
    requires k.envs[e].status != Free && forall x: Slot | x != e :: k1.envs[x] == k.envs[x]
    requires Places(k') == Places(k1) && k'.free == k1.free && k'.log == k1.log && k'.cur.Some?
    requires var n := k'.cur.value;
      && k1.envs[n].status == Runnable && k'.count <= k1.envs[n].pri
      && k'.envs == k1.envs[n := k1.envs[n].(runs := k1.envs[n].runs + 1)]
    ensures Sound(k')
  {
    hide Places;
  }

  lemma RecvSound(k: K, dstva: nat)
    requires Sound(k) && k.cur.Some? && SysIpcRecv(k, dstva).Runs?
    ensures Sound(SysIpcRecv(k, dstva).k)
  {
    hide Placed, WaitersBlocked, Mailboxes, Prioritised, Identified, Yield, MustSwitch;
    if dstva < KERNBASE {
      var e := k.cur.value;
      var env := k.envs[e].(recving := true, dstva := dstva, status := NotRunnable);
      var k1 := k.(envs := k.envs[e := env], log := k.log + [Waits(e)]);
      CurrentIsLive(k);
      RecvPlaced(k, k1, e);
      RecvMailboxes(k, k1, e);
      YieldKeepsPlaces(k1);
      YieldEffect(k1);
      YieldSound(k, k1, Yield(k1).k, e);
    }
  }

  lemma RecvMailboxes(k: K, k1: K, e: Slot)
    requires Sound(k) && k.cur == Some(e) && Shaped(k1)
    requires k1.log == k.log + [Waits(e)] && k1.envs == k.envs[e := k1.envs[e]] && k1.envs[e].recving
    ensures Mailboxes(k1)
  {
    hide Placed;
    Logged(k.log, Waits(e));
  }

  lemma SendSound(k: K, envid: nat, value: nat, srcva: nat, perm: nat, mapped: bool)
    requires Sound(k) && k.cur.Some?
    ensures Sound(SysIpcCanSend(k, envid, value, srcva, perm, mapped).0)
  {
    var k' := SysIpcCanSend(k, envid, value, srcva, perm, mapped).0;
    if k' != k {
      var e := Lookup(k, envid, false).value;
      assert Places(k') == Places(k);
      hide Places;
      assert Placed(k');
      assert Mailboxes(k') by { Logged(k.log, Gets(e, Mail(k.envs[k.cur.value].id, value, perm))); }
    }
  }

  lemma CurrentIsLive(k: K)
    requires Sound(k) && k.cur.Some?
    ensures k.envs[k.cur.value].status != Free && k.envs[k.cur.value].pri >= 1
  {
    assert Places(k)[k.cur.value] == 1;
    assert k.cur.value in multiset(Current(k));
  }

  lemma TickSound(k: K)
    requires Sound(k) && Yield(k).Runs?
    ensures Sound(Yield(k).k)
  {
    YieldKeepsInv(k);
    YieldEffect(k);
  }

  /** Every kernel entry keeps every environment in one place, waiting receivers blocked, messages
      paired with receives and identifiers true to their slots. */
  lemma StepKeepsSound(k: K, ev: Event)
    requires Sound(k) && Allowed(k, ev) && Step(k, ev).Runs?
    ensures Sound(Step(k, ev).k)
  {
    hide Placed, WaitersBlocked, Mailboxes, Prioritised, Identified, Yield;
    if k.cur.Some? { CurrentIsLive(k); }
    match ev
    case Create(pri) => if EnvAlloc(k, 0).Some? { CreateSound(k, 0, Runnable, pri); }
    case Tick => TickSound(k);
    case Alloc =>
      var me := k.envs[k.cur.value];
      if EnvAlloc(k, me.id).Some? { CreateSound(k, me.id, NotRunnable, me.pri); }
    case Destroy(id) =>
      if Lookup(k, id, true).Some? {
        DestroySound(k, k.cur.value);
        TickSound(EnvFree(k, k.cur.value).(cur := None));
      }
    case SetStatus(id, s) =>
      if s.Some? && Lookup(k, id, true).Some? {
        if s.value == Free {
          DestroySound(k, k.cur.value);
          TickSound(EnvFree(k, k.cur.value).(cur := None));
        } else {
          SetStatusSound(k, Lookup(k, id, true).value, s.value);
        }
      }
    case Recv(dstva) => RecvSound(k, dstva);
    case Send(id, value, srcva, perm, mapped) => SendSound(k, id, value, srcva, perm, mapped);
  }

  // ---- Whole runs ----

  /** After env_init, before the first environment is created. */
  ghost predicate IsBoot(k: K) {
    && Shaped(k) && k.run == [[], []] && k.cur.None? && k.count == 0 && k.nextId == 0 && k.log == []
    && |k.free| == NENV && (forall e: Slot :: k.free[e] == e)
    && (forall e: Slot :: k.envs[e].status == Free && !k.envs[e].recving)
  }

  lemma BootIsSound(k: K)
    requires IsBoot(k)
    ensures Sound(k)
  {
    forall e: Slot ensures Places(k)[e] == 1 { CountedOnce(k.free, e); }
    forall e: Slot ensures e in k.free { assert k.free[e] == e; }
  }

  lemma CountedOnce(s: seq<Slot>, e: Slot)
    requires |s| == NENV && forall i: Slot :: s[i] == i
    ensures multiset(s)[e] == 1
  {
    assert s == s[..e] + [s[e]] + s[e + 1..];
    assert e !in s[..e] && e !in s[e + 1..];
  }

  ghost predicate Next(k: K, ev: Event, k': K) requires Shaped(k) {
    Allowed(k, ev) && Step(k, ev) == Runs(k')
  }

  ghost predicate Trace(states: seq<K>, evs: seq<Event>) {
    && |states| == |evs| + 1 && (forall i | 0 <= i < |states| :: Shaped(states[i]))
    && (forall i | 0 <= i < |evs| :: Next(states[i], evs[i], states[i + 1]))
  }

  lemma {:induction false} RunsStaySound(states: seq<K>, evs: seq<Event>, n: nat)
    requires Trace(states, evs) && Sound(states[0]) && n < |states|
    ensures Sound(states[n])
  {
    hide Step, Sound, Allowed;
    if n > 0 {
      RunsStaySound(states, evs, n - 1);
      assert Next(states[n - 1], evs[n - 1], states[n]);
      StepKeepsSound(states[n - 1], evs[n - 1]);
    }
  }

  predicate Receives(k: K, ev: Event, e: Slot) {
    ev.Recv? && ev.dstva < KERNBASE && k.cur == Some(e)
  }

  /** A mailbox is written only by a send that its waiting owner receives, and the owner then stops
      waiting; it starts to wait only by receiving. */
  lemma MailboxStep(k: K, ev: Event, e: Slot)
    requires Sound(k) && Allowed(k, ev) && Step(k, ev).Runs?
    ensures var k' := Step(k, ev).k;
      && (k'.envs[e].mail != k.envs[e].mail ==> ev.Send? && k.envs[e].recving && !k'.envs[e].recving)
      && (k'.envs[e].recving && !k.envs[e].recving ==> Receives(k, ev, e))
  {
    hide Yield;
    match ev
    case Tick => YieldEffect(k);
    case Recv(dstva) =>
      if dstva < KERNBASE {
        var c := k.cur.value;
        var env := k.envs[c].(recving := true, dstva := dstva, status := NotRunnable);
        YieldEffect(k.(envs := k.envs[c := env], log := k.log + [Waits(c)]));
      }
    case Destroy(id) => if Lookup(k, id, true).Some? { YieldEffect(EnvFree(k, k.cur.value).(cur := None)); }
    case SetStatus(id, s) =>
      if Lookup(k, id, true).Some? && s == Some(Status.Free) { YieldEffect(EnvFree(k, k.cur.value).(cur := None)); }
    case _ =>
  }

  /** What was delivered to a slot stays in its mailbox until that slot receives again, even when the
      slot is given to a new environment. */
  lemma {:induction false} MailboxIsStable(states: seq<K>, evs: seq<Event>, e: Slot, n: nat)
    requires Trace(states, evs) && Sound(states[0]) && n < |states| && !states[0].envs[e].recving
    requires forall i | 0 <= i < n :: !Receives(states[i], evs[i], e)
    ensures states[n].envs[e].mail == states[0].envs[e].mail && !states[n].envs[e].recving
  {
    hide Step, Sound, Allowed, Receives;
    if n > 0 {
      MailboxIsStable(states, evs, e, n - 1);
      RunsStaySound(states, evs, n - 1);
      assert Next(states[n - 1], evs[n - 1], states[n]);
      MailboxStep(states[n - 1], evs[n - 1], e);
    }
  }

  // ---- What the code does not check ----

  /** env_free does not unlink the environment from the run lists: destroying keeps every environment
      in one place exactly when the environment destroyed is the current one. */
  lemma DestroyIsForSelf(k: K, e: Slot)
    requires Sound(k) && k.envs[e].status != Free
    ensures Placed(if k.cur == Some(e) then EnvFree(k, e).(cur := None) else EnvFree(k, e)) <==> k.cur == Some(e)
  {
    if k.cur == Some(e) {
      DestroySound(k, e);
    } else {
      assert Places(EnvFree(k, e)) == Places(k) + multiset{e};
      assert Places(k)[e] == 1;
      assert Places(EnvFree(k, e))[e] == 2;
    }
  }

  /** sys_set_env_status does not look at ipc_recving: making an environment runnable keeps waiting
      receivers blocked exactly when it is not waiting. */
  lemma WakingIsForNonReceivers(k: K, e: Slot)
    requires Sound(k) && k.envs[e].status != Free
    ensures WaitersBlocked(k.(envs := k.envs[e := k.envs[e].(status := Runnable)])) <==> !k.envs[e].recving
  {
    var k' := k.(envs := k.envs[e := k.envs[e].(status := Runnable)]);
    assert k'.envs[e].status == Runnable && k'.envs[e].recving == k.envs[e].recving;
    if !k.envs[e].recving { SetStatusSound(k, e, Runnable); }
  }
}
