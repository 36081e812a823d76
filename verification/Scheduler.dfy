/** sched_yield of kernel/sched.c: two lists that take turns, and a count of the time slices left. */
module Scheduler {
  import opened EnvKernel
  import opened Wrappers

  /** The condition of the loop of sched_yield. */
  predicate MustSwitch(k: K) requires Shaped(k) {
    k.count == 0 || k.cur.None? || k.envs[k.cur.value].status != Runnable
  }

  /** Its body.  None is the panic. */
  function Switch(k: K): (r: Option<K>)
    requires Shaped(k)
    ensures r.Some? ==> Shaped(r.value)
  {
    var run := if k.cur.Some? then k.run[1 - k.point := k.run[1 - k.point] + Current(k)] else k.run;
    var point := if run[k.point] == [] then 1 - k.point else k.point;
    if run[point] == [] then None
    else
      var next := run[point][0];
      Some(k.(run := run[point := run[point][1..]], point := point, cur := Some(next), count := k.envs[next].pri))
  }

  /** n rounds of the loop, whatever its condition says. */
  function Switches(k: K, n: nat): (r: Option<K>)
    requires Shaped(k)
    ensures r.Some? ==> Shaped(r.value)
  {
    if n == 0 then Some(k)
    else var before := Switches(k, n - 1); if before.None? then None else Switch(before.value)
  }

  /** The loop ends after n rounds, and not before. */
  ghost predicate EndsAfter(k: K, n: nat) requires Shaped(k) {
    && (forall m: nat | m <= n :: Switches(k, m).Some?)
    && !MustSwitch(Switches(k, n).value)
    && (forall m: nat | m < n :: MustSwitch(Switches(k, m).value))
  }

  /** The two lists in the order in which the scheduler will reach them. */
  function Queue(k: K): seq<Slot> requires Shaped(k) {
    k.run[k.point] + k.run[1 - k.point]
  }

  /** ... with the current environment behind. */
  function Order(k: K): seq<Slot> requires Shaped(k) {
    Queue(k) + Current(k)
  }

  /** What the loop leaves alone. */
  predicate OnlyScheduled(k: K, k': K) {
    k'.envs == k.envs && k'.free == k.free && k'.nextId == k.nextId && k'.log == k.log
  }

  /** The two lists behave as one: the current environment goes to the end, the first comes off. */
  lemma SwitchRotates(k: K)
    requires Shaped(k)
    ensures Switch(k).None? <==> Order(k) == []
    ensures Switch(k).Some? ==>
              var k' := Switch(k).value;
              k'.cur == Some(Order(k)[0]) && Queue(k') == Order(k)[1..] && k'.count == k.envs[Order(k)[0]].pri && OnlyScheduled(k, k')
  {
    var run := if k.cur.Some? then k.run[1 - k.point := k.run[1 - k.point] + Current(k)] else k.run;
    var point := if run[k.point] == [] then 1 - k.point else k.point;
    assert run[k.point] + run[1 - k.point] == Order(k);
    assert run[point] + run[1 - point] == Order(k);
    if run[point] != [] {
      var k' := Switch(k).value;
      assert k'.run[k'.point] == run[point][1..] && k'.run[1 - k'.point] == run[1 - point];
    }
  }

  lemma {:induction false} SwitchesRotate(k: K, n: nat)
    requires Shaped(k) && n < |Order(k)|
    ensures var o := Order(k); var r := Switches(k, n + 1);
            && r.Some? && r.value.cur == Some(o[n]) && Queue(r.value) == o[n + 1..] + o[..n]
            && r.value.count == k.envs[o[n]].pri && OnlyScheduled(k, r.value)
  {
    var o := Order(k);
    if n == 0 {
      assert Switches(k, 0) == Some(k);
      SwitchRotates(k);
      assert o[1..] + o[..0] == o[1..];
    } else {
      SwitchesRotate(k, n - 1);
      var k1 := Switches(k, n).value;
      SwitchRotates(k1);
      assert Order(k1) == o[n..] + o[..n - 1] + [o[n - 1]] == o[n..] + o[..n];
      assert Order(k1)[0] == o[n] && Order(k1)[1..] == o[n + 1..] + o[..n];
    }
  }

  predicate Eligible(envs: seq<Env>, e: Slot) requires |envs| == NENV {
    envs[e].status == Runnable && envs[e].pri != 0
  }

  /** The first eligible environment of s; |s| when there is none. */
  function First(envs: seq<Env>, s: seq<Slot>): (i: nat)
    requires |envs| == NENV
    ensures i <= |s| && (i < |s| ==> Eligible(envs, s[i])) && (forall j | 0 <= j < i :: !Eligible(envs, s[j]))
  {
    if s == [] then 0 else if Eligible(envs, s[0]) then 0 else 1 + First(envs, s[1..])
  }

  /** env_run: one slice is used and the environment runs once more. */
  function Dispatch(k: K): (k': K)
    requires Shaped(k) && !MustSwitch(k)
    ensures Shaped(k')
  {
    var e := k.cur.value;
    k.(count := k.count - 1, envs := k.envs[e := k.envs[e].(runs := k.envs[e].runs + 1)])
  }

  datatype Outcome = Runs(k: K) | Panics | Spins

  /** What a call of sched_yield comes to. */
  function Yield(k: K): (r: Outcome)
    requires Shaped(k)
    ensures r.Runs? ==> Shaped(r.k)
  {
    if !MustSwitch(k) then Runs(Dispatch(k))
    else if Order(k) == [] then Panics
    else
      var n := First(k.envs, Order(k));
      if n == |Order(k)| then Spins
      else
        SwitchesRotate(k, n);
        Runs(Dispatch(Switches(k, n + 1).value))
  }

  ghost predicate Among(s: seq<Slot>, t: seq<Slot>) {
    |s| == |t| && forall e | e in s :: e in t
  }

  lemma {:induction false} NeverEnds(k: K, n: nat)
    requires Shaped(k) && MustSwitch(k) && Order(k) != [] && (forall e | e in Order(k) :: !Eligible(k.envs, e))
    ensures Switches(k, n).Some? && MustSwitch(Switches(k, n).value)
    ensures OnlyScheduled(k, Switches(k, n).value) && Among(Order(Switches(k, n).value), Order(k))
  {
    hide Switch, Queue;
    if n > 0 {
      NeverEnds(k, n - 1);
      var k1 := Switches(k, n - 1).value;
      SwitchRotates(k1);
      var o := Order(k1);
      var k2 := Switch(k1).value;
      assert Order(k2) == o[1..] + [o[0]];
      assert o[0] in o;
      assert forall e | e in o[1..] :: e in o;
    }
  }

  /** The loop of sched_yield ends exactly when some environment on the lists is runnable with a
      priority (or it need not start); then the call dispatches what its last round left current. */
  lemma YieldIsTheLoop(k: K)
    requires Shaped(k)
    ensures Yield(k).Runs? <==> exists n: nat :: EndsAfter(k, n)
    ensures forall n: nat | EndsAfter(k, n) :: Yield(k) == Runs(Dispatch(Switches(k, n).value))
  {
    hide Switch, Queue, Dispatch;
    assert Switches(k, 0) == Some(k);
    var o := Order(k);
    if !MustSwitch(k) {
      assert EndsAfter(k, 0);
    } else if o == [] {
      SwitchRotates(k);
      assert Switches(k, 1).None?;
    } else {
      var n := First(k.envs, o);
      if n == |o| {
        forall m: nat ensures !EndsAfter(k, m) { NeverEnds(k, m); }
      } else {
        LoopEndsAt(k, n);
        forall m: nat | EndsAfter(k, m) ensures m == n + 1 {}
      }
    }
  }

  lemma LoopEndsAt(k: K, n: nat)
    requires Shaped(k) && MustSwitch(k) && n == First(k.envs, Order(k)) < |Order(k)|
    ensures EndsAfter(k, n + 1)
  {
    hide Switch, Queue;
    assert Switches(k, 0) == Some(k);
    forall m: nat | 0 < m <= n + 1 ensures Switches(k, m).Some? && (MustSwitch(Switches(k, m).value) <==> m <= n) {
      SwitchesRotate(k, m - 1);
    }
  }

  /** When a call does not return: nothing left to run, or nothing left that may run. */
  lemma WhenYieldFails(k: K)
    requires Shaped(k)
    ensures Yield(k).Panics? <==> MustSwitch(k) && Order(k) == []
    ensures Yield(k).Spins? <==> MustSwitch(k) && Order(k) != [] && forall e | e in Order(k) :: !Eligible(k.envs, e)
  {
    hide Queue;
    var o := Order(k);
    var n := First(k.envs, o);
    if n < |o| { assert o[n] in o; }
  }

  // ---- What a call keeps ----

  lemma Reordered(a: seq<Slot>, n: nat)
    requires n < |a|
    ensures multiset(a[n + 1..] + a[..n] + [a[n]]) == multiset(a)
  {
    assert a == a[..n] + [a[n]] + a[n + 1..];
  }

  lemma OrderIsPlaces(k: K)
    requires Shaped(k)
    ensures Places(k) == multiset(k.free) + multiset(Order(k))
  {
    assert multiset(Order(k)) == multiset(k.run[0]) + multiset(k.run[1]) + multiset(Current(k));
  }

  lemma YieldKeepsPlaces(k: K)
    requires Shaped(k) && Yield(k).Runs?
    ensures Places(Yield(k).k) == Places(k)
  {
    hide Queue;
    var k' := Yield(k).k;
    if MustSwitch(k) {
      var n := First(k.envs, Order(k));
      SwitchesRotate(k, n);
      var k1 := Switches(k, n + 1).value;
      Reordered(Order(k), n);
      OrderIsPlaces(k);
      OrderIsPlaces(k1);
      assert Order(k1) == Order(k)[n + 1..] + Order(k)[..n] + [Order(k)[n]];
      assert Places(k') == Places(k1);
    } else {
      assert Places(k') == Places(k);
    }
  }

  /** A call changes the order of the environments, the count and one env_runs; what it leaves
      current is runnable. */
  lemma YieldEffect(k: K)
    requires Shaped(k) && Yield(k).Runs?
    ensures var k' := Yield(k).k;
      && k'.cur.Some? && k'.free == k.free && k'.nextId == k.nextId && k'.log == k.log
      && k.envs[k'.cur.value].status == Runnable
      && k'.envs == k.envs[k'.cur.value := k.envs[k'.cur.value].(runs := k.envs[k'.cur.value].runs + 1)]
      && k'.count + 1 == (if MustSwitch(k) then k.envs[k'.cur.value].pri else k.count)
      && (!MustSwitch(k) ==> k'.cur == k.cur)
  {
    hide Queue;
    if MustSwitch(k) { SwitchesRotate(k, First(k.envs, Order(k))); }
  }

  lemma YieldKeepsInv(k: K)
    requires Inv(k) && Yield(k).Runs?
    ensures Inv(Yield(k).k)
  {
    hide Yield, Places, MustSwitch;
    YieldKeepsPlaces(k);
    YieldEffect(k);
  }

  // ---- Weighted bounded bypass ----

  function Sum(envs: seq<Env>, s: seq<Slot>): nat
    requires |envs| == NENV
  {
    if s == [] then 0 else envs[s[0]].pri + Sum(envs, s[1..])
  }

  lemma SumConcat(envs: seq<Env>, s: seq<Slot>, t: seq<Slot>)
    requires |envs| == NENV
    ensures Sum(envs, s + t) == Sum(envs, s) + Sum(envs, t)
  {
    if s == [] { assert s + t == t; } else {
      assert (s + t)[1..] == s[1..] + t;
      SumConcat(envs, s[1..], t);
    }
  }

  lemma SameSum(envs: seq<Env>, envs': seq<Env>, s: seq<Slot>)
    requires |envs| == NENV == |envs'| && forall e | e in s :: envs[e].pri == envs'[e].pri
    ensures Sum(envs, s) == Sum(envs', s)
  {
  }

  function Position(s: seq<Slot>, x: Slot): (i: nat)
    requires x in s
    ensures i < |s| && s[i] == x && x !in s[..i]
  {
    if s[0] == x then 0 else 1 + Position(s[1..], x)
  }

  /** The slices that others may still use before x runs. */
  function Ahead(k: K, x: Slot): nat
    requires Shaped(k) && x in Order(k)
  {
    if k.cur == Some(x) then if k.count > 0 then 0 else Sum(k.envs, Queue(k))
    else (if k.cur.Some? then k.count else 0) + Sum(k.envs, Queue(k)[..Position(Queue(k), x)])
  }

  ghost predicate Once(s: seq<Slot>) { forall i, j | 0 <= i < j < |s| :: s[i] != s[j] }

  lemma PositionIs(s: seq<Slot>, x: Slot, i: nat)
    requires Once(s) && i < |s| && s[i] == x
    ensures x in s && Position(s, x) == i
  {
  }

  /** What is ahead of x, by its place in the order. */
  lemma AheadInOrder(k: K, x: Slot)
    requires Shaped(k) && Once(Order(k)) && x in Order(k) && MustSwitch(k) && Eligible(k.envs, x)
    ensures Sum(k.envs, Order(k)[..Position(Order(k), x)]) <= Ahead(k, x)
  {
    var o, q := Order(k), Queue(k);
    var p := Position(o, x);
    assert forall i | 0 <= i < |q| :: o[i] == q[i];
    if k.cur == Some(x) {
      PositionIs(o, x, |q|);
      assert o[..p] == q;
    } else {
      assert p < |q|;
      PositionIs(q, x, p);
      assert o[..p] == q[..p];
    }
  }

  lemma RotatedOnce(o: seq<Slot>, n: nat)
    requires Once(o) && n < |o|
    ensures Once(o[n + 1..] + o[..n]) && Once(o[n + 1..] + o[..n] + [o[n]])
    ensures forall e | e in o :: e in o[n + 1..] + o[..n] + [o[n]]
  {
    var r := o[n + 1..] + o[..n] + [o[n]];
    assert o == o[..n] + [o[n]] + o[n + 1..];
    assert forall i | 0 <= i < |r| :: r[i] == o[if i < |o| - n - 1 then i + n + 1 else i - (|o| - n - 1)];
  }

  /** The part of the rotated order that is still before the element at p. */
  lemma RotatedAhead(envs: seq<Env>, o: seq<Slot>, n: nat, p: nat)
    requires |envs| == NENV && Once(o) && n < p < |o|
    ensures var q := o[n + 1..] + o[..n];
      && o[p] in q && q[..Position(q, o[p])] == o[n + 1..p]
      && Sum(envs, o[..p]) == Sum(envs, o[..n]) + envs[o[n]].pri + Sum(envs, o[n + 1..p])
  {
    var q := o[n + 1..] + o[..n];
    RotatedOnce(o, n);
    assert q[p - n - 1] == o[p];
    PositionIs(q, o[p], p - n - 1);
    assert q[..p - n - 1] == o[n + 1..][..p - n - 1] == o[n + 1..p];
    assert o[..p] == o[..n] + ([o[n]] + o[n + 1..p]);
    SumConcat(envs, o[..n], [o[n]] + o[n + 1..p]);
    assert ([o[n]] + o[n + 1..p])[1..] == o[n + 1..p];
  }

  lemma DispatchQueue(k: K)
    requires Shaped(k) && !MustSwitch(k)
    ensures Queue(Dispatch(k)) == Queue(k)
  {
  }

  lemma SwitchedUsesASlice(k: K, x: Slot)
    requires Shaped(k) && Once(Order(k)) && x in Order(k) && Eligible(k.envs, x) && MustSwitch(k)
    ensures Yield(k).Runs? && Once(Order(Yield(k).k)) && x in Order(Yield(k).k)
    ensures Yield(k).k.cur == Some(x) || Ahead(Yield(k).k, x) < Ahead(k, x)
  {
    hide Queue, Once, Sum;
    var o := Order(k);
    var n, p := First(k.envs, o), Position(o, x);
    SwitchesRotate(k, n);
    var k' := Yield(k).k;
    var q := o[n + 1..] + o[..n];
    DispatchQueue(Switches(k, n + 1).value);
    assert Order(k') == q + [o[n]];
    RotatedOnce(o, n);
    if n < p {
      RotatedAhead(k.envs, o, n, p);
      AheadInOrder(k, x);
      SameSum(k.envs, k'.envs, o[n + 1..p]);
    }
  }

  /** A call dispatches x or uses one of the slices ahead of it. */
  lemma YieldUsesASlice(k: K, x: Slot)
    requires Shaped(k) && Once(Order(k)) && x in Order(k) && Eligible(k.envs, x)
    ensures Yield(k).Runs? && Once(Order(Yield(k).k)) && x in Order(Yield(k).k)
    ensures Yield(k).k.cur == Some(x) || Ahead(Yield(k).k, x) < Ahead(k, x)
  {
    hide Once, Sum;
    if MustSwitch(k) {
      SwitchedUsesASlice(k, x);
    } else {
      var k' := Dispatch(k);
      assert Queue(k') == Queue(k) && Order(k') == Order(k);
      if k.cur != Some(x) {
        SameSum(k.envs, k'.envs, Queue(k)[..Position(Queue(k), x)]);
      }
    }
  }

  /** What may happen between two calls: statuses and mailboxes change, but not x's status; the
      current environment may be destroyed; none is created. */
  ghost predicate Between(k: K, k': K, x: Slot) {
    && Shaped(k) && Shaped(k')
    && k'.run == k.run && k'.point == k.point && k'.count == k.count
    && (k'.cur == k.cur || (k'.cur.None? && k.cur != Some(x)))
    && (forall e: Slot :: k'.envs[e].pri == k.envs[e].pri)
    && Eligible(k'.envs, x)
  }

  lemma BetweenKeepsAhead(k: K, k': K, x: Slot)
    requires Between(k, k', x) && Once(Order(k)) && x in Order(k)
    ensures Once(Order(k')) && x in Order(k') && Ahead(k', x) <= Ahead(k, x)
  {
    var q := Queue(k);
    assert Queue(k') == q;
    assert forall i | 0 <= i < |Order(k')| :: Order(k')[i] == Order(k)[i];
    if k'.cur == Some(x) { SameSum(k.envs, k'.envs, q); }
    else { SameSum(k.envs, k'.envs, q[..Position(q, x)]); }
  }

  /** Successive calls of sched_yield, with anything of the above between them. */
  ghost predicate Calls(before: seq<K>, after: seq<K>, x: Slot) {
    && |before| == |after|
    && (forall i | 0 <= i < |before| :: Shaped(before[i]) && Yield(before[i]) == Runs(after[i]))
    && (forall i | 0 <= i < |before| - 1 :: Between(after[i], before[i + 1], x))
  }

  lemma {:induction false} StillAhead(before: seq<K>, after: seq<K>, x: Slot, n: nat)
    requires Calls(before, after, x) && n < |before|
    requires Once(Order(before[0])) && x in Order(before[0]) && Eligible(before[0].envs, x)
    requires forall i | 0 <= i < n :: after[i].cur != Some(x)
    ensures Once(Order(before[n])) && x in Order(before[n]) && Eligible(before[n].envs, x)
    ensures Ahead(before[n], x) + n <= Ahead(before[0], x)
  {
    hide Once, Ahead, Queue, Yield, Sum;
    if n > 0 {
      StillAhead(before, after, x, n - 1);
      YieldUsesASlice(before[n - 1], x);
      BetweenKeepsAhead(after[n - 1], before[n], x);
    }
  }

  lemma AheadIsBounded(k: K, x: Slot)
    requires Shaped(k) && Once(Order(k)) && x in Order(k)
    requires k.cur.Some? ==> k.count <= k.envs[k.cur.value].pri
    ensures Ahead(k, x) <= Sum(k.envs, Order(k)) - k.envs[x].pri
  {
    var q := Queue(k);
    SumConcat(k.envs, q, Current(k));
    if k.cur == Some(x) {
      assert Sum(k.envs, [x]) == k.envs[x].pri;
    } else {
      if k.cur.Some? { assert Sum(k.envs, [k.cur.value]) == k.envs[k.cur.value].pri; }
      var p := Position(q, x);
      assert q == q[..p] + ([x] + q[p + 1..]);
      SumConcat(k.envs, q[..p], [x] + q[p + 1..]);
      assert ([x] + q[p + 1..])[1..] == q[p + 1..];
    }
  }

  /** The lists and the current environment hold every live environment, once. */
  lemma LiveInOrder(k: K)
    requires Shaped(k) && Placed(k)
    ensures Once(Order(k))
    ensures forall e: Slot | k.envs[e].status != Free :: e in Order(k)
  {
    var o := Order(k);
    OrderIsPlaces(k);
    forall i, j | 0 <= i < j < |o| ensures o[i] != o[j] {
      assert Places(k)[o[i]] == 1;
      if o[i] == o[j] { TwiceCounts(o, i, j); }
    }
    forall e: Slot | k.envs[e].status != Free ensures e in o {
      assert Places(k)[e] == 1;
      assert e in multiset(o);
    }
  }

  lemma TwiceCounts(s: seq<Slot>, i: nat, j: nat)
    requires i < j < |s| && s[i] == s[j]
    ensures multiset(s)[s[i]] >= 2
  {
    assert s == s[..i] + [s[i]] + s[i + 1..j] + [s[j]] + s[j + 1..];
  }

  /** Weighted bounded bypass: an environment that stays runnable is dispatched within one more call
      than the others have priorities to spend. */
  lemma BoundedBypass(before: seq<K>, after: seq<K>, x: Slot)
    requires before != [] && Calls(before, after, x)
    requires Inv(before[0]) && before[0].envs[x].status == Runnable
    requires |before| > Sum(before[0].envs, Order(before[0])) - before[0].envs[x].pri
    ensures exists i :: 0 <= i < |after| && after[i].cur == Some(x)
  {
    hide Once, Ahead, Queue, Yield, Sum, Mailboxes, WaitersBlocked;
    LiveInOrder(before[0]);
    var n := |before| - 1;
    if forall i | 0 <= i < |after| :: after[i].cur != Some(x) {
      StillAhead(before, after, x, n);
      AheadIsBounded(before[0], x);
      YieldUsesASlice(before[n], x);
    }
  }
}
