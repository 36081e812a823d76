/** Environments, their lists and their IPC mailboxes as one value: what the list and state part of
    kernel/env.c, kernel/sched.c and the IPC calls of kernel/syscall_all.c do to it. */
module EnvKernel {
  import opened Wrappers

  const NENV: nat := 1024
  const LOG2NENV: nat := 10
  const U32: nat := 0x1_0000_0000

  /** An index into envs. */
  type Slot = e: nat | e < 1024
  type Bit = b: nat | b < 2

  datatype Status = Free | Runnable | NotRunnable

  datatype Mail = Mail(from: nat, value: nat, perm: nat)

  datatype Env = Env(
    status: Status,
    id: nat,
    parent: nat,
    pri: nat,
    recving: bool,   // ipc_recving
    dstva: nat,      // ipc_dstva
    mail: Mail,      // ipc_from, ipc_value, ipc_perm
    runs: nat)       // env_runs

  /** What has happened to the mailboxes, oldest first. */
  datatype MailEvent = Waits(e: Slot) | Gets(e: Slot, mail: Mail) | Born(e: Slot)

  datatype K = K(
    envs: seq<Env>,
    free: seq<Slot>,       // env_free_list
    run: seq<seq<Slot>>,   // env_sched_list[0] and [1]
    cur: Option<Slot>,     // curenv
    point: Bit,            // static in sched_yield
    count: nat,            // static in sched_yield
    nextId: nat,           // next_env_id
    log: seq<MailEvent>)   // history, read by nobody

  // ---- Identifiers ----

  lemma Shifted(a: nat)
    ensures a * (2 * NENV) % U32 == (a % (U32 / (2 * NENV))) * (2 * NENV)
  {
    var m := U32 / (2 * NENV);
    var q, r := a / m, a % m;
    assert a == m * q + r;
    assert a * (2 * NENV) == U32 * q + r * (2 * NENV);
    assert 0 <= r * (2 * NENV) < U32;
  }

  lemma LowBits(high: nat, idx: Slot)
    requires high < 0x20_0000
    ensures high * 2048 + idx < U32 && (high * 2048 + idx) % 1024 == idx
  {
    assert high * 2048 + idx == 1024 * (2 * high) + idx;
  }

  /** mkenvid: the new counter in the upper bits of a u32, the slot in the lower ones. */
  function MakeId(counter: nat, idx: Slot): (id: nat)
    ensures id < U32 && id % NENV == idx
  {
    var high := counter % 0x20_0000;
    assert counter * (2 * NENV) % U32 == high * 2048 by { Shifted(counter); }
    LowBits(high, idx);
    counter * (2 * NENV) % U32 + idx
  }

  /** Two environments get the same identifier only in the same slot and a multiple of 2^21 creations apart. */
  lemma MakeIdInjective(a: nat, i: Slot, b: nat, j: Slot)
    ensures MakeId(a, i) == MakeId(b, j) <==> i == j && a % (U32 / (2 * NENV)) == b % (U32 / (2 * NENV))
  {
    Shifted(a);
    Shifted(b);
  }

  // ---- Places ----

  predicate Shaped(k: K) {
    |k.envs| == NENV && |k.run| == 2
  }

  function Current(k: K): seq<Slot> {
    if k.cur.Some? then [k.cur.value] else []
  }

  /** The places an environment can be in. */
  function Places(k: K): multiset<Slot>
    requires |k.run| == 2
  {
    multiset(k.free) + multiset(k.run[0]) + multiset(k.run[1]) + multiset(Current(k))
  }

  /** Every environment is in exactly one place, and on the free list exactly when it is free. */
  ghost predicate Placed(k: K) requires Shaped(k) {
    && (forall e: Slot :: Places(k)[e] == 1)
    && (forall e: Slot :: k.envs[e].status == Free <==> e in k.free)
  }

  /** A waiting receiver is blocked and is not the current environment. */
  ghost predicate WaitersBlocked(k: K) requires Shaped(k) {
    forall e: Slot | k.envs[e].recving :: k.envs[e].status == NotRunnable && k.cur != Some(e)
  }

  ghost predicate Prioritised(k: K) requires Shaped(k) {
    && (forall e: Slot | k.envs[e].status != Free :: k.envs[e].pri >= 1)
    && (k.cur.Some? ==> k.count <= k.envs[k.cur.value].pri)
  }

  // ---- Mailbox history ----

  predicate Concerns(x: MailEvent, e: Slot) { x.e == e && !x.Born? }

  /** The last thing that happened to the mailbox of slot e. */
  function Last(log: seq<MailEvent>, e: Slot): Option<MailEvent> {
    if log == [] then None
    else if Concerns(log[|log| - 1], e) then Some(log[|log| - 1])
    else Last(log[..|log| - 1], e)
  }

  predicate Waiting(log: seq<MailEvent>, e: Slot) {
    Last(log, e).Some? && Last(log, e).value.Waits?
  }

  predicate Follows(log: seq<MailEvent>, x: MailEvent) {
    if x.Gets? then Waiting(log, x.e) else !Waiting(log, x.e)
  }

  /** Each delivery answers the one wait before it, no wait is repeated before it is answered, and
      a slot is given to a new environment only when its old one was not waiting. */
  predicate Paired(log: seq<MailEvent>) {
    log == [] || (Paired(log[..|log| - 1]) && Follows(log[..|log| - 1], log[|log| - 1]))
  }

  ghost predicate Mailboxes(k: K) requires Shaped(k) {
    && Paired(k.log)
    && (forall e: Slot :: k.envs[e].recving <==> Waiting(k.log, e))
    && (forall e: Slot | Last(k.log, e).Some? && Last(k.log, e).value.Gets? ::
          k.envs[e].mail == Last(k.log, e).value.mail)
  }

  ghost predicate Inv(k: K) {
    Shaped(k) && Placed(k) && WaitersBlocked(k) && Mailboxes(k) && Prioritised(k)
  }

  lemma Logged(log: seq<MailEvent>, x: MailEvent)
    requires Paired(log) && Follows(log, x)
    ensures Paired(log + [x])
    ensures forall e: Slot :: Last(log + [x], e) == if Concerns(x, e) then Some(x) else Last(log, e)
  {
    assert (log + [x])[..|log|] == log;
  }

  lemma {:induction false} LastIs(log: seq<MailEvent>, e: Slot) returns (j: nat)
    requires Last(log, e).Some?
    ensures j < |log| && log[j] == Last(log, e).value && Concerns(log[j], e)
    ensures forall m | j < m < |log| :: !Concerns(log[m], e)
  {
    var n := |log| - 1;
    if Concerns(log[n], e) { j := n; } else { j := LastIs(log[..n], e); }
  }

  lemma {:induction false} PairedAt(log: seq<MailEvent>, i: nat)
    requires Paired(log) && i < |log|
    ensures Follows(log[..i], log[i])
  {
    var n := |log| - 1;
    if i < n { PairedAt(log[..n], i); assert log[..n][..i] == log[..i]; }
  }

  /** Exactly once: a delivery answers a receive of the same slot that nothing else answered, for
      nothing happened to that mailbox in between. */
  lemma DeliveryAnswersReceive(log: seq<MailEvent>, i: nat) returns (j: nat)
    requires Paired(log) && i < |log| && log[i].Gets?
    ensures j < i && log[j] == Waits(log[i].e) && forall m | j < m < i :: !Concerns(log[m], log[i].e)
  {
    PairedAt(log, i);
    j := LastIs(log[..i], log[i].e);
    assert log[..i][j] == log[j];
    forall m | j < m < i ensures !Concerns(log[m], log[i].e) { assert log[..i][m] == log[m]; }
  }
}
