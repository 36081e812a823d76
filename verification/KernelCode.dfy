/** The kernel's environment table as the code keeps it: an array of environments and intrusive
    lists threaded through them.  Every method is proved to do to the abstract state what the function
    of the same name in Scheduler or EnvCalls says. */
module KernelCode {
  import opened EnvKernel
  import opened Wrappers
  import opened ListQueue
  import opened MemoryMap
  import opened Scheduler
  import EC = EnvCalls

  /** The links of the environments in s. */
  ghost function Nodes(pool: seq<Node>, s: seq<Slot>): (r: seq<Node>)
    requires |pool| == NENV
    ensures |r| == |s| && (forall i | 0 <= i < |s| :: r[i] == pool[s[i]]) && (forall n | n in r :: n in pool)
  {
    seq(|s|, i requires 0 <= i < |s| => pool[s[i]])
  }

  /** Tail insertion beside another list. */
  method InsertTailBeside(h: ListHead, elm: Node, ghost s: seq<Node>, ghost g: ListHead, ghost t: seq<Node>)
    requires IsList(h, s) && elm !in s && IsList(g, t) && g != h && forall n | n in t :: n !in s && n != elm
    modifies h, elm, s
    ensures IsList(h, s + [elm]) && IsList(g, t)
  {
    InsertTail(h, elm, s);
    forall i | 0 <= i < |t| ensures t[i].next == old(t[i].next) && t[i].prev == old(t[i].prev) { assert t[i] in t; }
    assert g.first == old(g.first);
  }

  method FirstOf(h: ListHead, ghost s: seq<Node>) returns (elm: Node)
    requires IsList(h, s) && s != []
    ensures elm == s[0]
  {
    elm := h.first;
  }

  /** LIST_FIRST and LIST_REMOVE; the parts of the other list keep their values. */
  method RemoveFirst(h: ListHead, ghost s: seq<Node>, ghost g: ListHead, ghost t: seq<Node>) returns (elm: Node)
    requires IsList(h, s) && s != [] && g != h && forall n | n in t :: n !in s
    modifies h, s
    ensures IsList(h, s[1..]) && elm == s[0]
    ensures g.first == old(g.first) && forall i | 0 <= i < |t| :: t[i].next == old(t[i].next) && t[i].prev == old(t[i].prev)
  {
    hide IsList;
    elm := FirstOf(h, s);
    Remove(elm, h, s, 0);
    assert s[..0] + s[1..] == s[1..];
    forall i | 0 <= i < |t| ensures t[i].next == old(t[i].next) && t[i].prev == old(t[i].prev) { assert t[i] in t; }
  }

  /** LIST_REMOVE of the first element beside another list. */
  method RemoveFirstBeside(h: ListHead, ghost s: seq<Node>, ghost g: ListHead, ghost t: seq<Node>) returns (elm: Node)
    requires IsList(h, s) && s != [] && IsList(g, t) && g != h && forall n | n in t :: n !in s
    modifies h, s
    ensures IsList(h, s[1..]) && IsList(g, t) && elm == s[0]
  {
    elm := RemoveFirst(h, s, g, t);
  }

  /** The links belong to their environments and are all different. */
  ghost predicate Pools(l: seq<Node>, s: seq<Node>) {
    && |l| == |s| == NENV
    && (forall e: Slot :: l[e].id == e && s[e].id == e)
    && (forall e: Slot, d: Slot :: l[e] != s[d])
  }

  /** The two link fields of every environment. */
  method LinkPools(anywhere: ListHead) returns (l: seq<Node>, s: seq<Node>)
    ensures Pools(l, s) && fresh(l) && fresh(s)
  {
    l, s := [], [];
    while |l| < NENV
      invariant |l| == |s| <= NENV
      invariant forall i | 0 <= i < |l| :: fresh(l[i]) && fresh(s[i]) && l[i].id == i && s[i].id == i
      invariant forall i, j | 0 <= i < |l| && 0 <= j < |l| :: l[i] != s[j]
    {
      var a := new Node(|l|, anywhere);
      var b := new Node(|l|, anywhere);
      l, s := l + [a], s + [b];
    }
  }

  /** How a kernel entry that may yield has ended: Looping if it has not. */
  datatype How = Done | Panicked | Looping

  predicate Comes(how: How, out: Outcome, k: K) {
    match how
    case Done => out == Runs(k)
    case Panicked => out.Panics?
    case Looping => true
  }

  class Kernel {
    const envs: array<Env>
    const links: seq<Node>       // the field link of each environment
    const schedLinks: seq<Node>  // the field sched_link of each environment
    const freeHead: ListHead
    const heads: seq<ListHead>   // env_sched_list
    var cur: Option<Slot>
    var point: Bit
    var count: nat
    var nextId: nat
    ghost var free: seq<Slot>
    ghost var run: seq<seq<Slot>>
    ghost var log: seq<MailEvent>

    /** env_init, on memory that the loader has cleared. */
    constructor ()
      ensures Listed() && fresh(envs) && fresh(freeHead) && (forall h | h in heads :: fresh(h))
      ensures EC.IsBoot(S())
    {
      var blank := Env(Free, 0, 0, 0, false, 0, Mail(0, 0, 0), 0);
      var f := new ListHead();
      var h0 := new ListHead();
      var h1 := new ListHead();
      var l, s := LinkPools(f);
      envs := new Env[NENV](_ => blank);
      links, schedLinks, freeHead, heads := l, s, f, [h0, h1];
      cur, point, count, nextId := None, 0, 0, 0;
      free, run, log := [], [[], []], [];
      new;
      hide IsList, Pools, Listed, EC.IsBoot;
      EmptyLists();
      InitLists(blank);
    }

    lemma EmptyLists()
      requires Laid() && freeHead.first == null && heads[0].first == null && heads[1].first == null
      requires free == [] && run == [[], []]
      ensures Listed()
    {
      assert Nodes(links, []) == [] && Nodes(schedLinks, []) == [];
    }

    /** The loop of env_init. */
    method InitLists(blank: Env)
      requires Listed() && free == [] && run == [[], []] && cur.None? && count == 0 && nextId == 0 && log == []
      requires !blank.recving && forall j | 0 <= j < NENV :: envs[j] == blank
      modifies this`free, envs, freeHead, links
      ensures Listed() && EC.IsBoot(S())
    {
      hide IsList;
      var i := NENV;
      while i > 0
        invariant 0 <= i <= NENV && Listed() && |free| == NENV - i
        invariant forall j | 0 <= j < |free| :: free[j] == i + j
        invariant forall j | 0 <= j < NENV :: envs[j] == if j < i then blank else blank.(status := Free)
      {
        i := i - 1;
        envs[i] := envs[i].(status := Free);
        PushFree(i);
      }
    }

    ghost function S(): (k: K)
      reads this, envs
      ensures k.free == free && k.run == run && k.cur == cur && k.point == point
    {
      K(envs[..], free, run, cur, point, count, nextId, log)
    }

    /** What never changes. */
    ghost predicate Laid()
      ensures Laid() ==> |links| == |schedLinks| == NENV
    {
      && envs.Length == NENV && Pools(links, schedLinks)
      && |heads| == 2 && heads[0] != heads[1] && freeHead !in heads
    }

    /** The three lists hold what the abstract state says. */
    ghost predicate Listed()
      reads this`free, this`run, freeHead, heads, links, schedLinks
      ensures Listed() ==> envs.Length == NENV && |run| == 2
    {
      && Laid() && |run| == 2
      && IsList(freeHead, Nodes(links, free))
      && IsList(heads[0], Nodes(schedLinks, run[0]))
      && IsList(heads[1], Nodes(schedLinks, run[1]))
      && (forall e: Slot :: !(e in run[0] && e in run[1]))
    }

    /** LIST_INSERT_HEAD(&env_free_list, e, link) */
    method PushFree(e: Slot)
      requires Listed() && e !in free
      modifies this`free, freeHead, links
      ensures Listed() && free == [e] + old(free)
    {
      hide IsList;
      ghost var s := Nodes(links, free);
      NotIn(links, free, e);
      assert forall n | n in Nodes(schedLinks, run[0]) + Nodes(schedLinks, run[1]) :: n !in links;
      InsertHead(freeHead, links[e], s);
      free := [e] + free;
      assert Nodes(links, free) == [links[e]] + s;
    }

    /** The links on one run list, and e's, are not those on the other. */
    lemma Apart(b: Bit, e: Slot)
      requires Listed() && e !in run[1 - b]
      ensures forall n | n in Nodes(schedLinks, run[1 - b]) :: n !in Nodes(schedLinks, run[b]) && n != schedLinks[e]
    {
      var s, t := Nodes(schedLinks, run[b]), Nodes(schedLinks, run[1 - b]);
      forall i, j | 0 <= i < |t| && 0 <= j < |s| ensures t[i] != s[j] {
        assert run[1 - b][i] in run[1 - b] && run[b][j] in run[b];
        assert t[i].id == run[1 - b][i] && s[j].id == run[b][j];
      }
      forall i | 0 <= i < |t| ensures t[i] != schedLinks[e] {
        assert run[1 - b][i] in run[1 - b];
        assert t[i].id == run[1 - b][i];
      }
    }

    /** LIST_INSERT_TAIL(&env_sched_list[b], e, sched_link) */
    method Enlist(b: Bit, e: Slot)
      requires Listed() && e !in run[0] && e !in run[1]
      modifies this`run, heads, schedLinks
      ensures Listed() && run == old(run)[b := old(run)[b] + [e]]
    {
      hide IsList;
      ghost var s, t := Nodes(schedLinks, run[b]), Nodes(schedLinks, run[1 - b]);
      Apart(b, e);
      NotIn(schedLinks, run[b], e);
      assert forall n | n in Nodes(links, free) :: n !in schedLinks;
      assert IsList(heads[b], s) && IsList(heads[1 - b], t) && heads[b] != heads[1 - b];
      InsertTailBeside(heads[b], schedLinks[e], s, heads[1 - b], t);
      run := run[b := run[b] + [e]];
      assert Nodes(schedLinks, run[b]) == s + [schedLinks[e]];
    }
  
    /** next_env = LIST_FIRST(&env_sched_list[b]); LIST_REMOVE(next_env, sched_link) */
    method TakeFirst(b: Bit) returns (e: Slot)
      requires Listed() && run[b] != []
      modifies this`run, heads, schedLinks
      ensures Listed() && e == old(run[b])[0] && run == old(run)[b := old(run[b])[1..]]
    {
      hide IsList;
      ghost var s, t := Nodes(schedLinks, run[b]), Nodes(schedLinks, run[1 - b]);
      ghost var first := run[b][0];
      assert first in run[b];
      Apart(b, first);
      assert forall n | n in Nodes(links, free) :: n !in schedLinks;
      assert IsList(heads[b], s) && IsList(heads[1 - b], t) && heads[b] != heads[1 - b];
      var elm := RemoveFirstBeside(heads[b], s, heads[1 - b], t);
      e := elm.id;
      run := run[b := run[b][1..]];
      assert Nodes(schedLinks, run[b]) == s[1..];
    }

    /** LIST_FIRST(&env_free_list), removed. */
    method PopFree() returns (e: Slot)
      requires Listed() && free != []
      modifies this`free, freeHead, links
      ensures Listed() && e == old(free)[0] && free == old(free)[1..]
    {
      ghost var s := Nodes(links, free);
      assert forall n | n in Nodes(schedLinks, run[0]) + Nodes(schedLinks, run[1]) :: n !in links;
      var elm := freeHead.first;
      e := elm.id;
      hide IsList;
      Remove(elm, freeHead, s, 0);
      free := free[1..];
      assert Nodes(links, free) == s[..0] + s[1..];
    }

    method NoneFree() returns (empty: bool)
      requires Listed()
      ensures empty <==> free == []
    {
      empty := freeHead.first == null;
    }

    method IsEmpty(b: Bit) returns (empty: bool)
      requires Listed()
      ensures empty <==> run[b] == []
    {
      empty := heads[b].first == null;
    }
  
    /** One round of the loop of sched_yield.  next_env is next; no is the panic. */
    method SwitchRound(next: Option<Slot>) returns (ok: bool, next': Option<Slot>)
      requires Listed() && Once(Order(S().(cur := next)))
      modifies this`run, this`point, this`count, heads, schedLinks
      ensures ok <==> Switch(old(S()).(cur := next)).Some?
      ensures ok ==> Listed() && Switch(old(S()).(cur := next)) == Some(S().(cur := next'))
    {
      hide Listed, Once, Queue;
      next' := next;
      if next.Some? {
        OrderSplits(S().(cur := next));
        Enlist(1 - point, next.value);
      }
      var empty := IsEmpty(point);
      if empty { point := 1 - point; }
      empty := IsEmpty(point);
      if empty { return false, next; }
      var e := TakeFirst(point);
      next' := Some(e);
      count := envs[e].pri;
      ok := true;
    }

    /** sched_yield, for as many rounds of its loop as one cares to watch.  With more rounds than there
        are live environments, it is still looping exactly if it loops for ever. */
    method SchedYield(rounds: nat) returns (how: How)
      requires Listed() && Once(Order(S()))
      modifies this, envs, heads, schedLinks
      ensures Comes(how, Yield(old(S())), S()) && (how.Done? ==> Listed())
      ensures how.Looping? ==> Switches(old(S()), rounds).Some? && MustSwitch(Switches(old(S()), rounds).value)
      ensures rounds > |Order(old(S()))| ==> (how.Looping? <==> Yield(old(S())).Spins?)
    {
      hide Listed, Once, Queue, Switch, First;
      ghost var k0 := S();
      ghost var n := 0;
      var left: nat, next := rounds, cur;
      while count == 0 || next.None? || envs[next.value].status != Runnable
        invariant Listed() && Switches(k0, n) == Some(S().(cur := next)) && OnlyScheduled(k0, S())
        invariant Once(Order(S().(cur := next))) && n + left == rounds
        invariant n > 0 ==> next.Some? && MustSwitch(k0) && Order(k0) != [] && (Yield(k0).Runs? ==> n <= First(k0.envs, Order(k0)) + 1)
        decreases left
      {
        ghost var k1 := S().(cur := next);
        LoopGoesOn(k0, n);
        if left == 0 { return Looping; }
        SwitchKeepsOnce(k1);
        var going;
        going, next := SwitchRound(next);
        if !going { return Panicked; }
        n, left := n + 1, left - 1;
      }
      LoopHasEnded(k0, n);
      count := count - 1;
      cur := next;
      envs[next.value] := envs[next.value].(runs := envs[next.value].runs + 1);
      how := Done;
    }

    /** envid2env */
    method EnvId2Env(envid: nat, checkPerm: bool) returns (r: Option<Slot>)
      requires Listed() && cur.Some?
      ensures r == EC.Lookup(S(), envid, checkPerm)
    {
      if envid == 0 { return cur; }
      var e := envid % NENV;
      if envs[e].status == Free || envs[e].id != envid { return None; }
      if checkPerm {
        if cur != Some(e) && envs[e].parent != envs[cur.value].id { return None; }
      }
      return Some(e);
    }

    method EnvAlloc(parent: nat) returns (r: Option<Slot>)
      requires Listed()
      modifies this`free, this`nextId, this`log, envs, freeHead, links
      ensures Listed()
      ensures match EC.EnvAlloc(old(S()), parent)
              case None => r.None? && S() == old(S())
              case Some((k, e)) => r == Some(e) && S() == k
    {
      hide IsList;
      var empty := NoneFree();
      if empty {
        return None;
      }
      var e := PopFree();
      hide Listed;
      nextId := nextId + 1;
      envs[e] := envs[e].(id := MakeId(nextId, e));
      envs[e] := envs[e].(status := Runnable);
      envs[e] := envs[e].(parent := parent);
      log := log + [Born(e)];
      r := Some(e);
    }

    method EnvCreatePriority(pri: nat)
      requires Listed() && Placed(S())
      modifies this, envs, freeHead, heads, links, schedLinks
      ensures Listed() && S() == EC.EnvCreatePriority(old(S()), pri)
    {
      hide Listed;
      FreeIsNotListed(S());
      var r := EnvAlloc(0);
      if r.None? { return; }
      envs[r.value] := envs[r.value].(pri := pri);
      Enlist(0, r.value);
    }

    method SysEnvAlloc() returns (ret: int)
      requires Listed() && Placed(S()) && cur.Some?
      modifies this, envs, freeHead, heads, links, schedLinks
      ensures Listed() && (S(), ret) == EC.SysEnvAlloc(old(S()))
    {
      hide Listed;
      FreeIsNotListed(S());
      var me := envs[cur.value];
      var r := EnvAlloc(me.id);
      if r.None? { return -1; }
      var e := r.value;
      ghost var k1 := S();
      envs[e] := envs[e].(status := NotRunnable);
      envs[e] := envs[e].(pri := me.pri);
      assert S().envs == k1.envs[e := k1.envs[e].(status := NotRunnable, pri := me.pri)];
      Enlist(0, e);
      ret := envs[e].id;
    }

    method EnvFree(e: Slot)
      requires Listed() && e !in free
      modifies this`free, envs, freeHead, links
      ensures Listed() && S() == EC.EnvFree(old(S()), e)
    {
      hide Listed;
      envs[e] := envs[e].(status := Free);
      PushFree(e);
    }

    method EnvDestroy(e: Slot, rounds: nat) returns (how: How)
      requires Listed() && EC.Sound(S()) && e !in free
      modifies this, envs, freeHead, heads, links, schedLinks
      ensures Comes(how, EC.EnvDestroy(old(S()), e), S()) && (how.Done? ==> Listed())
      ensures rounds > |Order(old(S()))| ==> (how.Looping? <==> EC.EnvDestroy(old(S()), e).Spins?)
    {
      hide Listed, Yield, Once, Mailboxes, WaitersBlocked, Prioritised, EC.Identified;
      ghost var k := S();
      EnvFree(e);
      how := Done;
      if cur == Some(e) {
        cur := None;
        EC.DestroySound(k, e);
        LiveInOrder(S());
        how := SchedYield(rounds);
      }
    }

    /** The second result is the return value, when the call returns to its caller. */
    method SysSetEnvStatus(envid: nat, status: Option<Status>, rounds: nat) returns (how: How, ret: int)
      requires Listed() && EC.Sound(S()) && cur.Some?
      modifies this, envs, freeHead, heads, links, schedLinks
      ensures Comes(how, EC.SysSetEnvStatus(old(S()), envid, status), S()) && (how.Done? ==> Listed())
      ensures rounds > |Order(old(S()))| ==> (how.Looping? <==> EC.SysSetEnvStatus(old(S()), envid, status).Spins?)
      ensures ret == if status.None? || EC.Lookup(old(S()), envid, true).None? then -1 else 0
    {
      hide Listed, Yield;
      if status.None? { return Done, -1; }
      var r := EnvId2Env(envid, true);
      if r.None? { return Done, -1; }
      EC.CurrentIsLive(S());
      if status.value == Free {
        how := EnvDestroy(r.value, rounds);
      } else {
        envs[r.value] := envs[r.value].(status := status.value);
        how := Done;
      }
      ret := 0;
    }

    method SysIpcRecv(dstva: nat, rounds: nat) returns (how: How)
      requires Listed() && Placed(S()) && cur.Some?
      modifies this, envs, heads, schedLinks
      ensures Comes(how, EC.SysIpcRecv(old(S()), dstva), S()) && (how.Done? ==> Listed())
      ensures rounds > |Order(old(S()))| ==> (how.Looping? <==> EC.SysIpcRecv(old(S()), dstva).Spins?)
    {
      hide Listed, Yield, Once;
      if dstva >= KERNBASE { return Done; }
      ghost var k := S();
      LiveInOrder(k);
      var e := cur.value;
      envs[e] := envs[e].(recving := true);
      envs[e] := envs[e].(dstva := dstva);
      envs[e] := envs[e].(status := NotRunnable);
      log := log + [Waits(e)];
      assert S().envs == k.envs[e := k.envs[e].(recving := true, dstva := dstva, status := NotRunnable)];
      assert Order(S()) == Order(k);
      how := SchedYield(rounds);
    }

    method SysIpcCanSend(envid: nat, value: nat, srcva: nat, perm: nat, mapped: bool) returns (ret: int)
      requires Listed() && cur.Some?
      modifies this`log, envs
      ensures Listed() && (S(), ret) == EC.SysIpcCanSend(old(S()), envid, value, srcva, perm, mapped)
    {
      hide Listed;
      ghost var k := S();
      if srcva >= KERNBASE { return -1; }
      var r := EnvId2Env(envid, false);
      if r.None? { return -1; }
      var e := r.value;
      if !envs[e].recving { return -EC.E_IPC_NOT_RECV; }
      var mail := Mail(envs[cur.value].id, value, perm);
      envs[e] := envs[e].(mail := mail);
      envs[e] := envs[e].(recving := false);
      envs[e] := envs[e].(status := Runnable);
      log := log + [Gets(e, mail)];
      assert S().envs == k.envs[e := k.envs[e].(mail := mail, recving := false, status := Runnable)];
      ret := if srcva != 0 && !mapped then -1 else 0;
    }
  }

  lemma FreeIsNotListed(k: K)
    requires Shaped(k) && Placed(k)
    ensures forall e | e in k.free :: e !in k.run[0] && e !in k.run[1]
  {
    forall e | e in k.free ensures e !in k.run[0] && e !in k.run[1] { assert Places(k)[e] == 1; }
  }

  lemma SwitchKeepsOnce(k: K)
    requires Shaped(k) && Once(Order(k))
    ensures Switch(k).None? <==> Order(k) == []
    ensures Switch(k).Some? ==> Once(Order(Switch(k).value)) && Switch(k).value.cur.Some?
  {
    hide Switch, Once, Queue;
    SwitchRotates(k);
    if Switch(k).Some? {
      assert Order(Switch(k).value) == Order(k)[1..] + Order(k)[..0] + [Order(k)[0]];
      RotatedOnce(Order(k), 0);
    }
  }

  /** The loop goes on after n rounds. */
  lemma LoopGoesOn(k: K, n: nat)
    requires Shaped(k) && Switches(k, n).Some? && MustSwitch(Switches(k, n).value)
    requires n > 0 ==> MustSwitch(k) && Order(k) != [] && (Yield(k).Runs? ==> n <= First(k.envs, Order(k)) + 1)
    ensures MustSwitch(k)
    ensures Yield(k).Panics? <==> Order(k) == []
    ensures Yield(k).Runs? ==> n <= First(k.envs, Order(k)) < |Order(k)|
  {
    hide Switch, Dispatch, Queue;
    assert Switches(k, 0) == Some(k);
    WhenYieldFails(k);
    if n > 0 && Yield(k).Runs? { RoundsLeft(k, n); }
  }

  /** The loop has ended after n rounds. */
  lemma LoopHasEnded(k: K, n: nat)
    requires Shaped(k) && Switches(k, n).Some? && !MustSwitch(Switches(k, n).value)
    requires n > 0 ==> MustSwitch(k) && Order(k) != [] && (Yield(k).Runs? ==> n <= First(k.envs, Order(k)) + 1)
    ensures Yield(k) == Runs(Dispatch(Switches(k, n).value))
  {
    hide Switch, Dispatch, Queue;
    assert Switches(k, 0) == Some(k);
    if n > 0 {
      WhenYieldFails(k);
      if Yield(k).Spins? { NeverEnds(k, n); }
      RoundsLeft(k, n);
    }
  }

  /** After n rounds the loop goes on exactly while the first eligible environment is not reached. */
  lemma RoundsLeft(k: K, n: nat)
    requires Shaped(k) && MustSwitch(k) && First(k.envs, Order(k)) < |Order(k)| && 0 < n
    requires n <= First(k.envs, Order(k)) + 1
    ensures Switches(k, n).Some? && (MustSwitch(Switches(k, n).value) <==> n <= First(k.envs, Order(k)))
    ensures n == First(k.envs, Order(k)) + 1 ==> Yield(k) == Runs(Dispatch(Switches(k, n).value))
  {
    hide Switches, Dispatch;
    LoopEndsAt(k, First(k.envs, Order(k)));
  }

  /** Nothing is on both lists, and the current environment is on neither. */
  lemma OrderSplits(k: K)
    requires Shaped(k) && Once(Order(k)) && k.cur.Some?
    ensures k.cur.value !in k.run[0] && k.cur.value !in k.run[1]
  {
    var o, q := Order(k), Queue(k);
    assert o[|q|] == k.cur.value;
    assert forall i | 0 <= i < |q| :: o[i] == q[i];
    assert forall e | e in k.run[0] || e in k.run[1] :: e in q;
  }

  lemma NotIn(pool: seq<Node>, s: seq<Slot>, e: Slot)
    requires |pool| == NENV && (forall d: Slot :: pool[d].id == d) && e !in s
    ensures pool[e] !in Nodes(pool, s)
  {
    forall i | 0 <= i < |s| ensures Nodes(pool, s)[i] != pool[e] { assert s[i] in s; }
  }
}
