/** What each kernel entry does, seen from the environments it concerns: the child that a creation makes,
    the target of a status change, the two sides of a message, and who is left alone. */
module EnvEffects {
  import opened EnvKernel
  import opened MemoryMap
  import opened Wrappers
  import opened Scheduler
  import opened EnvCalls

  /** No environment but e is different. */
  predicate OnlyEnv(k: K, k': K, e: Slot)
    requires Shaped(k) && Shaped(k')
  {
    forall x: Slot | x != e :: k'.envs[x] == k.envs[x]
  }

  /** Nor are the run lists, the current environment and the scheduler's counts. */
  predicate SameSchedule(k: K, k': K) {
    k'.run == k.run && k'.cur == k.cur && k'.point == k.point && k'.count == k.count
  }

  /** e, the first free slot, now holds a new environment at the end of run list 0. */
  ghost predicate Creates(k: K, k': K, e: Slot, parent: nat, pri: nat, status: Status)
    requires Shaped(k) && Shaped(k')
  {
    var env := k'.envs[e];
    && k.free != [] && e == k.free[0] && k'.free == k.free[1..] && e !in k'.free
    && env == k.envs[e].(id := env.id, status := status, parent := parent, pri := pri) && !env.recving
    && env.id % NENV == e && env.id == MakeId(k'.nextId, e) && k'.nextId == k.nextId + 1
    && (forall x: Slot | k.envs[x].status != Free :: k.envs[x].id != env.id)
    && k'.run[0] == k.run[0] + [e] && k'.run[1] == k.run[1]
    && k'.cur == k.cur && k'.point == k.point && k'.count == k.count && k'.log == k.log + [Born(e)]
    && OnlyEnv(k, k', e)
  }

  lemma AllocCreates(k: K, parent: nat, status: Status, pri: nat)
    requires Sound(k) && k.free != []
    ensures EnvAlloc(k, parent).Some?
    ensures var (k1, e) := EnvAlloc(k, parent).value;
      Creates(k, Enlist(k1.(envs := k1.envs[e := k1.envs[e].(status := status, pri := pri)]), e), e, parent, pri, status)
  {
    var (k1, e) := EnvAlloc(k, parent).value;
    CreatePlaces(k, parent, Enlist(k1.(envs := k1.envs[e := k1.envs[e].(status := status, pri := pri)]), e));
    hide Places, Paired;
  }

  /** sys_env_alloc: the child cannot run yet, it inherits its parent's priority, and the parent gets its
      identifier, which finds it unless it has wrapped around to 0. */
  lemma ChildIsCreated(k: K)
    requires Sound(k) && k.cur.Some?
    ensures var (k', ret) := SysEnvAlloc(k); var me := k.envs[k.cur.value];
      if k.free == [] then k' == k && ret == -1
      else
        && Creates(k, k', k.free[0], me.id, me.pri, NotRunnable) && ret == k'.envs[k.free[0]].id
        && (Lookup(k', ret, true) == Some(k.free[0]) <==> ret != 0)
  {
    hide Placed, WaitersBlocked, Mailboxes, Prioritised;
    if k.free != [] {
      var me := k.envs[k.cur.value];
      AllocCreates(k, me.id, NotRunnable, me.pri);
      CurrentIsNotFree(k);
    }
  }

  lemma CurrentIsNotFree(k: K)
    requires Sound(k) && k.cur.Some?
    ensures k.cur.value !in k.free
  {
    CurrentIsLive(k);
  }

  /** env_create_priority at boot: the new environment is runnable and has no parent. */
  lemma BootEnvIsCreated(k: K, pri: nat)
    requires Sound(k)
    ensures var k' := EnvCreatePriority(k, pri);
      if k.free == [] then k' == k else Creates(k, k', k.free[0], 0, pri, Runnable)
  {
    hide Placed, WaitersBlocked, Mailboxes, Prioritised;
    if k.free != [] {
      AllocCreates(k, 0, Runnable, pri);
      var (k1, e) := EnvAlloc(k, 0).value;
      assert k1.envs[e].(pri := pri) == k1.envs[e].(status := Runnable, pri := pri);
    }
  }

  /** Environment e is free, its slot the next to be given away, and it is not the current one. */
  predicate Gone(k: K, k': K, e: Slot)
    requires Shaped(k) && Shaped(k')
  {
    k'.envs[e] == k.envs[e].(status := Free) && k'.free == [e] + k.free && k'.nextId == k.nextId && k'.log == k.log && k'.cur != Some(e)
  }

  /** Destroying another environment touches nothing else; after destroying itself the caller never runs
      again, and the next environment's run count is all that changes besides. */
  lemma DestroyedIsGone(k: K, e: Slot)
    requires Shaped(k) && k.envs[e].status != Free && EnvDestroy(k, e).Runs?
    ensures var k' := EnvDestroy(k, e).k;
      && Gone(k, k', e)
      && if k.cur != Some(e) then SameSchedule(k, k') && OnlyEnv(k, k', e) else Dispatched(k, k', e)
  {
    if k.cur == Some(e) { YieldEffect(EnvFree(k, e).(cur := None)); }
  }

  /** Another environment than e, a runnable one, has been dispatched. */
  ghost predicate Dispatched(k: K, k': K, e: Slot)
    requires Shaped(k) && Shaped(k')
  {
    && k'.cur.Some? && k'.cur.value != e && k.envs[k'.cur.value].status == Runnable
    && forall x: Slot | x != e :: k'.envs[x] == if x == k'.cur.value then k.envs[x].(runs := k.envs[x].runs + 1) else k.envs[x]
  }

  /** sys_set_env_status: the target found with the permission check gets the status, and nothing else of it
      or of anyone changes; the status ENV_FREE destroys it. */
  lemma StatusIsSet(k: K, envid: nat, status: Option<Status>)
    requires Sound(k) && k.cur.Some?
    ensures var e := Lookup(k, envid, true); var r := SysSetEnvStatus(k, envid, status);
      if status.None? || e.None? then r == Runs(k)
      else if status.value == Free then r == EnvDestroy(k, e.value)
      else
        && r.Runs? && r.k.envs[e.value] == k.envs[e.value].(status := status.value)
        && OnlyEnv(k, r.k, e.value) && SameSchedule(k, r.k)
        && r.k.free == k.free && r.k.nextId == k.nextId && r.k.log == k.log
  {
  }

  /** A timer interrupt or sys_yield: a runnable environment is dispatched, the current one if it has a slice
      left, and only its run count changes. */
  lemma TickDispatches(k: K)
    requires Shaped(k) && Step(k, Tick).Runs?
    ensures var k' := Step(k, Tick).k;
      && k'.cur.Some? && k.envs[k'.cur.value].status == Runnable && k'.free == k.free && k'.log == k.log && k'.nextId == k.nextId
      && OnlyEnv(k, k', k'.cur.value) && k'.envs[k'.cur.value] == k.envs[k'.cur.value].(runs := k.envs[k'.cur.value].runs + 1)
      && (k.count > 0 && k.cur.Some? && k.envs[k.cur.value].status == Runnable ==> k'.cur == k.cur && k'.count == k.count - 1)
  {
    YieldEffect(k);
  }

  /** What an event asks for, in terms of its arguments and of the environments alone. */
  ghost predicate Effect(k: K, ev: Event, k': K)
    requires Shaped(k) && Shaped(k') && (ev.Create? || ev.Tick? || k.cur.Some?)
  {
    match ev
    case Create(pri) => if k.free == [] then k' == k else Creates(k, k', k.free[0], 0, pri, Runnable)
    case Tick => k'.cur.Some? && k'.envs[k'.cur.value].runs == k.envs[k'.cur.value].runs + 1 && OnlyEnv(k, k', k'.cur.value)
    case Alloc =>
      var me := k.envs[k.cur.value];
      if k.free == [] then k' == k else Creates(k, k', k.free[0], me.id, me.pri, NotRunnable)
    case Destroy(id) =>
      var e := Lookup(k, id, true);
      if e.None? then k' == k else Gone(k, k', e.value)
    case SetStatus(id, status) =>
      var e := Lookup(k, id, true);
      if e.None? || status.None? then k' == k
      else if status.value == Free then Gone(k, k', e.value)
      else k'.envs[e.value] == k.envs[e.value].(status := status.value) && OnlyEnv(k, k', e.value) && SameSchedule(k, k')
    case Recv(dstva) =>
      var e := k.cur.value;
      if dstva >= KERNBASE then k' == k
      else k'.envs[e] == k.envs[e].(recving := true, dstva := dstva, status := NotRunnable) && Dispatched(k, k', e)
    case Send(id, value, srcva, perm, _) =>
      var e := Lookup(k, id, false);
      if srcva < KERNBASE && e.Some? && k.envs[e.value].recving then
        && k'.envs[e.value] == k.envs[e.value].(mail := Mail(k.envs[k.cur.value].id, value, perm), recving := false, status := Runnable)
        && OnlyEnv(k, k', e.value) && SameSchedule(k, k')
      else k' == k
  }

  /** Every step of every allowed run has the effect of its event. */
  lemma StepHasEffect(k: K, ev: Event)
    requires Sound(k) && Allowed(k, ev) && Step(k, ev).Runs?
    ensures Effect(k, ev, Step(k, ev).k)
  {
    hide Placed, WaitersBlocked, Mailboxes, Prioritised, Yield, Places;
    if k.cur.Some? { CurrentIsLive(k); }
    match ev
    case Create(pri) => BootEnvIsCreated(k, pri);
    case Tick => TickDispatches(k);
    case Alloc => ChildIsCreated(k);
    case Destroy(id) => if Lookup(k, id, true).Some? { DestroyedIsGone(k, Lookup(k, id, true).value); }
    case SetStatus(id, status) =>
      StatusIsSet(k, id, status);
      if status == Some(Status.Free) && Lookup(k, id, true).Some? { DestroyedIsGone(k, Lookup(k, id, true).value); }
    case Recv(dstva) => ReceiverBlocks(k, dstva);
    case Send(id, value, srcva, perm, mapped) => MessageArrives(k, id, value, srcva, perm, mapped);
  }

  lemma RunsHaveEffects(states: seq<K>, evs: seq<Event>, n: nat)
    requires Trace(states, evs) && Sound(states[0]) && n < |evs|
    ensures Next(states[n], evs[n], states[n + 1]) && Effect(states[n], evs[n], states[n + 1])
  {
    hide Step, Effect, Sound;
    RunsStaySound(states, evs, n);
    assert Next(states[n], evs[n], states[n + 1]);
    StepHasEffect(states[n], evs[n]);
  }

  /** sys_ipc_recv: the caller is blocked until a message comes, and another environment runs. */
  lemma ReceiverBlocks(k: K, dstva: nat)
    requires Shaped(k) && k.cur.Some? && SysIpcRecv(k, dstva).Runs?
    ensures var k' := SysIpcRecv(k, dstva).k; var e := k.cur.value;
      if dstva >= KERNBASE then k' == k
      else
        && k'.envs[e] == k.envs[e].(recving := true, dstva := dstva, status := NotRunnable)
        && Dispatched(k, k', e) && k'.free == k.free && k'.log == k.log + [Waits(e)]
  {
    if dstva < KERNBASE {
      var e := k.cur.value;
      var env := k.envs[e].(recving := true, dstva := dstva, status := NotRunnable);
      YieldEffect(k.(envs := k.envs[e := env], log := k.log + [Waits(e)]));
    }
  }

  /** sys_ipc_can_send: who is refused, and what a receiver finds.  Only a page that the sender does not map
      makes the call fail after it has delivered. */
  lemma MessageArrives(k: K, envid: nat, value: nat, srcva: nat, perm: nat, mapped: bool)
    requires Shaped(k) && k.cur.Some?
    ensures var (k', ret) := SysIpcCanSend(k, envid, value, srcva, perm, mapped); var e := Lookup(k, envid, false);
      && (ret == -1 <==> srcva >= KERNBASE || e.None? || (k.envs[e.value].recving && srcva != 0 && !mapped))
      && (ret == -E_IPC_NOT_RECV <==> srcva < KERNBASE && e.Some? && !k.envs[e.value].recving)
      && (ret == -1 || ret == -E_IPC_NOT_RECV || ret == 0)
      && if srcva < KERNBASE && e.Some? && k.envs[e.value].recving then
           && k'.envs[e.value] == k.envs[e.value].(mail := Mail(k.envs[k.cur.value].id, value, perm), recving := false, status := Runnable)
           && OnlyEnv(k, k', e.value) && SameSchedule(k, k') && k'.free == k.free && k'.nextId == k.nextId
         else k' == k
  {
  }
}
