/** The file system protocol: any number of clients that call fsipc (user/fsipc.c) and one server that
    loops in serve (fs/serv.c), on top of the kernel's message passing and scheduler. */
module Rpc {
  import opened EnvKernel
  import opened MemoryMap
  import opened Wrappers
  import opened Scheduler
  import opened EnvCalls
  import SL = ServeLoop

  /** The file server is envs[0]. */
  const SERVER: Slot := 0
  const REQVA: nat := 0x0f00_0000
  /** Some page of user memory. */
  const FSIPCBUF: nat := 0x40_0000
  /** VALID | PTE_RW | PTE_USER */
  const REQUEST_PERM: nat := 0x41

  /** FSREQ_OPEN to FSREQ_CREATE */
  predicate ValidCode(code: nat) { 1 <= code <= 8 }

  type Page = seq<int>
  datatype Request = Request(code: nat, page: Page)
  /** What the server read from the request page, in order, and the value it answered. */
  datatype Reply = Reply(code: nat, pages: seq<Page>, value: nat)

  datatype ClientPc =
    | Idle
    | Sending(code: nat)   // in the loop of ipc_send
    | Sent                 // ipc_send has returned
    | Waiting              // in ipc_recv, after the system call

  datatype ServerPc =
    | Ready                // about to call ipc_recv
    | Taking               // in ipc_recv, after the system call
    | Serving(whom: nat, code: nat, seen: seq<Page>)
    | Replying(whom: nat, code: nat, seen: seq<Page>, value: nat, srcva: nat, perm: nat)
    | Unmapping

  datatype Sys = Sys(
    k: K,
    page: seq<Page>,           // fsipcbuf of each client
    pc: seq<ClientPc>,
    spc: ServerPc,
    reqva: Option<Slot>,       // whose fsipcbuf is mapped at REQVA
    asked: seq<seq<Request>>,  // histories, by client
    served: seq<seq<Reply>>,
    got: seq<seq<nat>>)

  predicate Formed(s: Sys) {
    Shaped(s.k) && |s.page| == |s.pc| == |s.asked| == |s.served| == |s.got| == NENV
  }

  datatype Act =
    | Timer
    | Fill(code: nat, page: Page)
    | Go(dstva: nat)
    | Read
    | Finish(value: nat, srcva: nat, perm: nat)

  datatype Result = Done(s: Sys) | Disabled | Stopped | UserPanic

  function Client(s: Sys, e: Slot, a: Act): Result
    requires Formed(s) && s.k.cur == Some(e)
  {
    match s.pc[e]
    case Idle =>
      if a.Fill? && ValidCode(a.code) then
        Done(s.(page := s.page[e := a.page], pc := s.pc[e := Sending(a.code)],
                asked := s.asked[e := s.asked[e] + [Request(a.code, a.page)]]))
      else Disabled
    case Sending(code) =>
      if !a.Go? then Disabled
      else
        var (k', ret) := SysIpcCanSend(s.k, s.k.envs[SERVER].id, code, FSIPCBUF, REQUEST_PERM, true);
        if ret == 0 then Done(s.(k := k', pc := s.pc[e := Sent], reqva := Some(e)))
        else if ret == -E_IPC_NOT_RECV then Done(s)
        else UserPanic
    case Sent =>
      if !a.Go? || a.dstva >= KERNBASE then Disabled
      else
        (match SysIpcRecv(s.k, a.dstva)
         case Runs(k') => Done(s.(k := k', pc := s.pc[e := Waiting]))
         case _ => Stopped)
    case Waiting =>
      if !a.Go? then Disabled
      else Done(s.(pc := s.pc[e := Idle], got := s.got[e := s.got[e] + [s.k.envs[e].mail.value]]))
  }

  function Serve(s: Sys, a: Act): Result
    requires Formed(s) && s.k.cur == Some(SERVER)
  {
    match s.spc
    case Ready =>
      if !a.Go? then Disabled
      else
        (match SysIpcRecv(s.k, REQVA)
         case Runs(k') => Done(s.(k := k', spc := Taking))
         case _ => Stopped)
    case Taking =>
      if !a.Go? then Disabled
      else
        var mail := s.k.envs[SERVER].mail;
        if mail.perm % 2 == 0 then Done(s.(spc := Ready))
        else if !ValidCode(mail.value) then Done(s.(spc := Unmapping))
        else Done(s.(spc := Serving(mail.from, mail.value, [])))
    case Serving(whom, code, seen) =>
      if a.Read? && s.reqva.Some? then Done(s.(spc := Serving(whom, code, seen + [s.page[s.reqva.value]])))
      else if a.Finish? && a.srcva < KERNBASE then Done(s.(spc := Replying(whom, code, seen, a.value, a.srcva, a.perm)))
      else Disabled
    case Replying(whom, code, seen, value, srcva, perm) =>
      if !a.Go? then Disabled
      else
        var (k', ret) := SysIpcCanSend(s.k, whom, value, srcva, perm, true);
        var c := whom % NENV;
        if ret == 0 then
          Done(s.(k := k', spc := Unmapping, served := s.served[c := s.served[c] + [Reply(code, seen, value)]]))
        else if ret == -E_IPC_NOT_RECV then Done(s)
        else UserPanic
    case Unmapping =>
      if !a.Go? then Disabled else Done(s.(spc := Ready, reqva := None))
  }

  /** One step: a timer interrupt, or the current environment's next one. */
  function Do(s: Sys, a: Act): Result
    requires Formed(s)
  {
    if a.Timer? then
      match Yield(s.k)
      case Runs(k') => Done(s.(k := k'))
      case _ => Stopped
    else if s.k.cur.None? then Disabled
    else if s.k.cur == Some(SERVER) then Serve(s, a)
    else Client(s, s.k.cur.value, a)
  }

  // ---- What the kernel calls do to mailboxes ----

  predicate SameMailbox(x: Env, y: Env) {
    x.id == y.id && x.status == y.status && x.recving == y.recving && x.mail == y.mail
  }

  lemma TimerEffect(k: K)
    requires Sound(k) && Yield(k).Runs?
    ensures Sound(Yield(k).k) && forall e: Slot :: SameMailbox(k.envs[e], Yield(k).k.envs[e])
  {
    hide Sound;
    TickSound(k);
    YieldEffect(k);
  }

  lemma RecvEffect(k: K, dstva: nat)
    requires Sound(k) && k.cur.Some? && dstva < KERNBASE && SysIpcRecv(k, dstva).Runs?
    ensures Sound(SysIpcRecv(k, dstva).k)
    ensures forall e: Slot ::
      SameMailbox(SysIpcRecv(k, dstva).k.envs[e],
        if e == k.cur.value then k.envs[e].(recving := true, status := NotRunnable) else k.envs[e])
  {
    RecvSound(k, dstva);
    var c := k.cur.value;
    var env := k.envs[c].(recving := true, dstva := dstva, status := NotRunnable);
    hide Sound, Yield;
    YieldEffect(k.(envs := k.envs[c := env], log := k.log + [Waits(c)]));
  }

  lemma SendEffect(k: K, e: Slot, value: nat, srcva: nat, perm: nat)
    requires Sound(k) && k.cur.Some? && srcva < KERNBASE && k.envs[e].status != Free && k.envs[e].id != 0
    ensures var (k', ret) := SysIpcCanSend(k, k.envs[e].id, value, srcva, perm, true);
      && Sound(k') && k'.cur == k.cur
      && (if k.envs[e].recving
          then ret == 0 && k'.envs ==
                 k.envs[e := k.envs[e].(mail := Mail(k.envs[k.cur.value].id, value, perm), recving := false, status := Runnable)]
          else ret == -E_IPC_NOT_RECV && k' == k)
  {
    SendSound(k, k.envs[e].id, value, srcva, perm, true);
    LookupFinds(k, k.envs[e].id, e);
  }

  // ---- The invariant ----

  /** Clients and server are live, with usable identifiers, and run unless they wait for a message. */
  ghost predicate Alive(s: Sys) requires Formed(s) {
    && Sound(s.k)
    && (forall e: Slot | e == SERVER || s.pc[e] != Idle :: s.k.envs[e].status != Free)
    && (forall e: Slot | s.k.envs[e].status != Free ::
          s.k.envs[e].id != 0 && (s.k.envs[e].status == NotRunnable <==> s.k.envs[e].recving))
  }

  /** Identifiers name slots. */
  predicate Names(k: K, id: nat, c: Slot) requires Shaped(k) {
    k.envs[c].id == id && id % NENV == c && k.envs[c].status != Free && c != SERVER
  }

  /** The client whose request the server has. */
  ghost predicate HasRequestOf(s: Sys, c: Slot) requires Formed(s) {
    match s.spc
    case Taking => !s.k.envs[SERVER].recving && Names(s.k, s.k.envs[SERVER].mail.from, c)
    case Serving(whom, _, _) => Names(s.k, whom, c)
    case Replying(whom, _, _, _, _, _) => Names(s.k, whom, c)
    case _ => false
  }

  predicate Answers(asked: seq<Request>, served: seq<Reply>) {
    && |served| <= |asked|
    && (forall i | 0 <= i < |served| :: served[i].code == asked[i].code && forall p | p in served[i].pages :: p == asked[i].page)
  }

  predicate Received(served: seq<Reply>, got: seq<nat>) {
    |got| <= |served| && forall i | 0 <= i < |got| :: got[i] == served[i].value
  }

  /** The server works on the last request of c. */
  ghost predicate WorksFor(s: Sys, c: Slot) requires Formed(s) && s.asked[c] != [] {
    var req := s.asked[c][|s.asked[c]| - 1];
    s.reqva == Some(c) && s.page[c] == req.page &&
    match s.spc
    case Taking => s.k.envs[SERVER].mail.value == req.code && s.k.envs[SERVER].mail.perm == REQUEST_PERM
    case Serving(_, code, seen) => code == req.code && forall p | p in seen :: p == req.page
    case Replying(_, code, seen, _, srcva, _) => code == req.code && srcva < KERNBASE && forall p | p in seen :: p == req.page
    case _ => true
  }

  ghost predicate ClientOk(s: Sys, c: Slot) requires Formed(s) {
    var asked, served, got := s.asked[c], s.served[c], s.got[c];
    var waits := s.k.envs[c].recving;
    && Answers(asked, served) && Received(served, got)
    && (HasRequestOf(s, c) <==> s.pc[c] == Sent || (s.pc[c] == Waiting && waits))
    && (waits ==> s.pc[c] == Waiting)
    && match s.pc[c]
       case Idle => |asked| == |got|
       case Sending(code) =>
         && |asked| == |got| + 1 == |served| + 1 && ValidCode(code)
         && asked[|got|] == Request(code, s.page[c])
       case Sent => |asked| == |got| + 1 == |served| + 1 && ValidCode(asked[|got|].code) && WorksFor(s, c)
       case Waiting =>
         && |asked| == |got| + 1 && ValidCode(asked[|got|].code)
         && (if waits then |served| == |got| && WorksFor(s, c)
             else |served| == |asked| && s.k.envs[c].mail.value == served[|got|].value)
  }

  ghost predicate ServerOk(s: Sys) requires Formed(s) {
    && (s.k.envs[SERVER].recving ==> s.spc == Taking)
    && (s.spc.Serving? || s.spc.Replying? || (s.spc.Taking? && !s.k.envs[SERVER].recving) ==>
          exists c: Slot :: HasRequestOf(s, c))
  }

  ghost predicate RpcInv(s: Sys)
    ensures RpcInv(s) ==> Formed(s)
  {
    Formed(s) && Alive(s) && ServerOk(s) && forall c: Slot | c != SERVER :: ClientOk(s, c)
  }

  // ---- Steps ----

  /** A step that leaves the mailboxes, the server and the histories alone. */
  lemma KeepClient(s: Sys, s': Sys, c: Slot)
    requires Formed(s) && Formed(s') && ClientOk(s, c) && c != SERVER
    requires SameMailbox(s.k.envs[c], s'.k.envs[c]) && SameMailbox(s.k.envs[SERVER], s'.k.envs[SERVER])
    requires s'.spc == s.spc && s'.pc[c] == s.pc[c] && s'.page[c] == s.page[c]
    requires s.reqva == Some(c) ==> s'.reqva == Some(c)
    requires s'.asked[c] == s.asked[c] && s'.served[c] == s.served[c] && s'.got[c] == s.got[c]
    ensures ClientOk(s', c)
  {
  }

  lemma TimerStep(s: Sys)
    requires RpcInv(s) && Do(s, Timer).Done?
    ensures RpcInv(Do(s, Timer).s)
  {
    hide Sound, Yield, ClientOk;
    var s' := Do(s, Timer).s;
    TimerEffect(s.k);
    forall c: Slot | c != SERVER ensures ClientOk(s', c) { KeepClient(s, s', c); }
    forall c: Slot | HasRequestOf(s, c) ensures HasRequestOf(s', c) {}
  }

  /** The server's step, or a message to it, does not concern c. */
  lemma KeepBystander(s: Sys, s': Sys, c: Slot)
    requires Formed(s) && Formed(s') && ClientOk(s, c) && c != SERVER
    requires !HasRequestOf(s, c) && !HasRequestOf(s', c)
    requires SameMailbox(s.k.envs[c], s'.k.envs[c]) && s'.pc[c] == s.pc[c] && s'.page[c] == s.page[c]
    requires s'.asked[c] == s.asked[c] && s'.served[c] == s.served[c] && s'.got[c] == s.got[c]
    ensures ClientOk(s', c)
  {
  }

  lemma OneClient(s: Sys, c: Slot, d: Slot)
    requires Formed(s) && HasRequestOf(s, c) && HasRequestOf(s, d)
    ensures c == d
  {
  }

  /** The current environment is live and not waiting. */
  lemma CurrentRuns(s: Sys)
    requires RpcInv(s) && s.k.cur.Some?
    ensures s.k.envs[s.k.cur.value].status == Runnable && !s.k.envs[s.k.cur.value].recving
  {
    CurrentIsLive(s.k);
  }

  lemma FillStep(s: Sys, c: Slot, a: Act)
    requires RpcInv(s) && s.k.cur == Some(c) && c != SERVER && s.pc[c].Idle? && Client(s, c, a).Done?
    ensures RpcInv(Client(s, c, a).s)
  {
    hide Sound;
    CurrentRuns(s);
    var s' := Client(s, c, a).s;
    forall d: Slot | d != SERVER && d != c ensures ClientOk(s', d) { hide ClientOk; KeepClient(s, s', d); }
    assert !HasRequestOf(s, c) && ClientOk(s, c);
    assert ClientOk(s', c);
    forall d: Slot | HasRequestOf(s, d) ensures HasRequestOf(s', d) {}
  }

  lemma CallStep(s: Sys, c: Slot, a: Act)
    requires RpcInv(s) && s.k.cur == Some(c) && c != SERVER && s.pc[c].Sending? && a.Go?
    ensures Client(s, c, a).Done? && RpcInv(Client(s, c, a).s)
  {
    hide Sound;
    CurrentRuns(s);
    var code := s.pc[c].code;
    SendEffect(s.k, SERVER, code, FSIPCBUF, REQUEST_PERM);
    if s.k.envs[SERVER].recving {
      var s' := Client(s, c, a).s;
        hide Inv;
      forall d: Slot ensures !HasRequestOf(s, d) {}
      forall d: Slot ensures HasRequestOf(s', d) <==> d == c {}
      forall d: Slot | d != SERVER && d != c ensures ClientOk(s', d) { hide ClientOk; KeepBystander(s, s', d); }
      assert ClientOk(s, c);
      assert ClientOk(s', c);
    }
  }

  lemma AwaitStep(s: Sys, c: Slot, a: Act)
    requires RpcInv(s) && s.k.cur == Some(c) && c != SERVER && s.pc[c].Sent? && Client(s, c, a).Done?
    ensures RpcInv(Client(s, c, a).s)
  {
    hide Sound, SysIpcRecv;
    CurrentRuns(s);
    var s' := Client(s, c, a).s;
    RecvEffect(s.k, a.dstva);
    forall d: Slot ensures HasRequestOf(s, d) <==> HasRequestOf(s', d) {}
    forall d: Slot | d != SERVER && d != c ensures ClientOk(s', d) { hide ClientOk; KeepClient(s, s', d); }
    assert ClientOk(s, c);
    assert ClientOk(s', c);
  }

  lemma TakeReplyStep(s: Sys, c: Slot, a: Act)
    requires RpcInv(s) && s.k.cur == Some(c) && c != SERVER && s.pc[c].Waiting? && Client(s, c, a).Done?
    ensures RpcInv(Client(s, c, a).s)
  {
    hide Sound;
    CurrentRuns(s);
    var s' := Client(s, c, a).s;
    forall d: Slot ensures HasRequestOf(s, d) <==> HasRequestOf(s', d) {}
    forall d: Slot | d != SERVER && d != c ensures ClientOk(s', d) { hide ClientOk; KeepClient(s, s', d); }
    assert ClientOk(s, c);
    assert ClientOk(s', c);
  }

  lemma ServerRecvStep(s: Sys, a: Act)
    requires RpcInv(s) && s.k.cur == Some(SERVER) && s.spc.Ready? && Serve(s, a).Done?
    ensures RpcInv(Serve(s, a).s)
  {
    hide Sound, SysIpcRecv;
    var s' := Serve(s, a).s;
    RecvEffect(s.k, REQVA);
    forall d: Slot | d != SERVER ensures ClientOk(s', d) { hide ClientOk; KeepBystander(s, s', d); }
  }

  lemma ServerWorkStep(s: Sys, a: Act)
    requires RpcInv(s) && s.k.cur == Some(SERVER) && (s.spc.Taking? || s.spc.Serving?) && Serve(s, a).Done?
    ensures RpcInv(Serve(s, a).s) && (Serve(s, a).s.spc.Serving? || Serve(s, a).s.spc.Replying?)
  {
    hide Sound;
    CurrentRuns(s);
    var s' := Serve(s, a).s;
    var c: Slot :| HasRequestOf(s, c);
    assert ClientOk(s, c);
    forall d: Slot ensures HasRequestOf(s, d) <==> d == c { if HasRequestOf(s, d) { OneClient(s, c, d); } }
    forall d: Slot ensures HasRequestOf(s', d) <==> d == c {}
    forall d: Slot | d != SERVER && d != c ensures ClientOk(s', d) { hide ClientOk; KeepBystander(s, s', d); }
    assert ClientOk(s', c);
  }

  lemma ReplyStep(s: Sys, a: Act)
    requires RpcInv(s) && s.k.cur == Some(SERVER) && s.spc.Replying? && a.Go?
    ensures Serve(s, a).Done? && RpcInv(Serve(s, a).s)
  {
    hide Sound;
    CurrentRuns(s);
    var c: Slot :| HasRequestOf(s, c);
    assert ClientOk(s, c);
    forall d: Slot ensures HasRequestOf(s, d) <==> d == c { if HasRequestOf(s, d) { OneClient(s, c, d); } }
    SendEffect(s.k, c, s.spc.value, s.spc.srcva, s.spc.perm);
    var s' := Serve(s, a).s;
    if s' != s {
      forall d: Slot | d != SERVER && d != c ensures ClientOk(s', d) { hide ClientOk; KeepBystander(s, s', d); }
      assert ClientOk(s', c);
    }
  }

  lemma UnmapStep(s: Sys, a: Act)
    requires RpcInv(s) && s.k.cur == Some(SERVER) && s.spc.Unmapping? && Serve(s, a).Done?
    ensures RpcInv(Serve(s, a).s)
  {
    hide Sound;
    CurrentRuns(s);
    var s' := Serve(s, a).s;
    forall d: Slot | d != SERVER ensures ClientOk(s', d) { hide ClientOk; KeepBystander(s, s', d); }
  }

  /** Every step keeps the invariant, and no ipc_send ever panics. */
  lemma StepKeepsRpc(s: Sys, a: Act)
    requires RpcInv(s)
    ensures !Do(s, a).UserPanic?
    ensures Do(s, a).Done? ==> RpcInv(Do(s, a).s)
  {
    hide RpcInv, Client, Serve;
    if a.Timer? {
      if Do(s, a).Done? { TimerStep(s); }
    } else if s.k.cur == Some(SERVER) {
      ServerStep(s, a);
    } else if s.k.cur.Some? {
      ClientStep(s, s.k.cur.value, a);
    }
  }

  lemma ClientStep(s: Sys, c: Slot, a: Act)
    requires RpcInv(s) && s.k.cur == Some(c) && c != SERVER
    ensures !Client(s, c, a).UserPanic? && (Client(s, c, a).Done? ==> RpcInv(Client(s, c, a).s))
  {
    match s.pc[c]
    case Idle => if Client(s, c, a).Done? { hide RpcInv; FillStep(s, c, a); }
    case Sending(_) => if a.Go? { hide RpcInv; CallStep(s, c, a); }
    case Sent => if Client(s, c, a).Done? { hide RpcInv; AwaitStep(s, c, a); }
    case Waiting => if Client(s, c, a).Done? { hide RpcInv; TakeReplyStep(s, c, a); }
  }

  lemma ServerStep(s: Sys, a: Act)
    requires RpcInv(s) && s.k.cur == Some(SERVER)
    ensures !Serve(s, a).UserPanic? && (Serve(s, a).Done? ==> RpcInv(Serve(s, a).s))
  {
    match s.spc
    case Ready => if Serve(s, a).Done? { hide RpcInv; ServerRecvStep(s, a); }
    case Taking => if Serve(s, a).Done? { hide RpcInv; ServerWorkStep(s, a); }
    case Serving(_, _, _) => if Serve(s, a).Done? { hide RpcInv; ServerWorkStep(s, a); }
    case Replying(_, _, _, _, _, _) => if a.Go? { hide RpcInv; ReplyStep(s, a); }
    case Unmapping => if Serve(s, a).Done? { hide RpcInv; UnmapStep(s, a); }
  }

  // ---- Whole runs ----

  /** Everybody is live and running, nothing has been asked. */
  ghost predicate Start(s: Sys) {
    && Formed(s) && Sound(s.k) && s.k.envs[SERVER].status != Free
    && (forall e: Slot | s.k.envs[e].status != Free ::
          s.k.envs[e].id != 0 && s.k.envs[e].status == Runnable && !s.k.envs[e].recving)
    && (forall e: Slot :: s.pc[e].Idle? && s.asked[e] == [] && s.served[e] == [] && s.got[e] == [] && !s.k.envs[e].recving)
    && s.spc == Ready && s.reqva.None?
  }

  lemma StartIsSound(s: Sys)
    requires Start(s)
    ensures RpcInv(s)
  {
    hide Sound;
  }

  ghost predicate RpcRun(states: seq<Sys>, acts: seq<Act>) {
    && |states| == |acts| + 1 && (forall i | 0 <= i < |states| :: Formed(states[i]))
    && (forall i | 0 <= i < |acts| :: Goes(states[i], acts[i], states[i + 1]))
  }

  ghost predicate Goes(s: Sys, a: Act, s': Sys) requires Formed(s) {
    Do(s, a) == Done(s')
  }

  lemma {:induction false} RunKeepsRpc(states: seq<Sys>, acts: seq<Act>, n: nat)
    requires RpcRun(states, acts) && Start(states[0]) && n < |states|
    ensures RpcInv(states[n])
  {
    hide RpcInv, Do;
    if n == 0 { StartIsSound(states[0]); } else {
      RunKeepsRpc(states, acts, n - 1);
      assert Goes(states[n - 1], acts[n - 1], states[n]);
      StepKeepsRpc(states[n - 1], acts[n - 1]);
    }
  }

  /** Whatever the interleaving: the i-th answer a client gets is the one the server gave to the
      client's i-th request, computed from that request's code and from a page that read the same
      throughout; every request but perhaps the last has its one answer. */
  lemma RepliesMatchRequests(states: seq<Sys>, acts: seq<Act>, n: nat, c: Slot)
    requires RpcRun(states, acts) && Start(states[0]) && n < |states| && c != SERVER
    ensures var s := states[n]; var asked, served, got := s.asked[c], s.served[c], s.got[c];
      && |got| <= |served| <= |asked| <= |got| + 1
      && (s.pc[c].Idle? ==> |got| == |asked|)
      && (forall i | 0 <= i < |got| :: got[i] == served[i].value)
      && (forall i | 0 <= i < |served| :: served[i].code == asked[i].code && forall p | p in served[i].pages :: p == asked[i].page)
  {
    RunKeepsRpc(states, acts, n);
    hide Alive, ServerOk;
    assert ClientOk(states[n], c);
  }

  /** The server's last message to c has been accepted in this step. */
  predicate Replies(s: Sys, s': Sys, a: Act, c: Slot) {
    !a.Timer? && s.k.cur == Some(SERVER) && s.spc.Replying? && s'.spc.Unmapping? && s.spc.whom % NENV == c
  }

  /** The histories are true.  A request is recorded when the client fills its page with it, an answer when
      the client it is for has it in its mailbox, and its arrival when that client returns from ipc_recv
      with what its mailbox holds; what the server reads is the page mapped at REQVA, and what it answers
      is what its handler gave. */
  lemma StepRecords(s: Sys, a: Act, c: Slot)
    requires RpcInv(s) && Do(s, a).Done? && c != SERVER
    ensures var s' := Do(s, a).s; var mine := s.k.cur == Some(c);
      && s'.asked[c] == s.asked[c] + (if a.Fill? && mine then [Request(a.code, a.page)] else [])
      && s'.page[c] == (if a.Fill? && mine then a.page else s.page[c])
      && s'.got[c] == s.got[c] + (if mine && s.pc[c].Waiting? && !a.Timer? then [s.k.envs[c].mail.value] else [])
      && (a.Read? ==> s.spc.Serving? && s.reqva.Some? && s'.spc == Serving(s.spc.whom, s.spc.code, s.spc.seen + [s.page[s.reqva.value]]))
      && (a.Finish? ==> s.spc.Serving? && s'.spc == Replying(s.spc.whom, s.spc.code, s.spc.seen, a.value, a.srcva, a.perm))
      && (Replies(s, s', a, c) ==>
            s'.served[c] == s.served[c] + [Reply(s.spc.code, s.spc.seen, s.spc.value)] && s'.k.envs[c].mail.value == s.spc.value)
      && (!Replies(s, s', a, c) ==> s'.served[c] == s.served[c])
  {
    hide Alive, Yield, SysIpcRecv, ClientOk;
    if s.k.cur == Some(SERVER) && s.spc.Replying? && a.Go? { ReplyLands(s, a); }
  }

  lemma ReplyLands(s: Sys, a: Act)
    requires RpcInv(s) && s.k.cur == Some(SERVER) && s.spc.Replying? && a.Go? && Do(s, a).Done?
    ensures var s' := Do(s, a).s; s'.spc.Unmapping? ==> s'.k.envs[s.spc.whom % NENV].mail.value == s.spc.value
  {
    hide Alive, Yield, SysIpcRecv, ClientOk;
  }

  /** While the server has a client's request, that client's page does not change. */
  lemma RequestPageIsFixed(s: Sys, a: Act, c: Slot)
    requires RpcInv(s) && c != SERVER && HasRequestOf(s, c) && Do(s, a).Done?
    ensures s.asked[c] != [] && Do(s, a).s.page[c] == s.page[c] && s.page[c] == s.asked[c][|s.asked[c]| - 1].page && s.reqva == Some(c)
  {
    hide Alive, ServerOk, Yield, SysIpcRecv, SysIpcCanSend;
    assert ClientOk(s, c);
  }

  // ---- No deadlock ----

  lemma SomeoneRuns(k: K, e: Slot)
    requires Shaped(k) && Placed(k) && k.envs[e].status == Runnable && k.envs[e].pri != 0
    ensures Yield(k).Runs?
  {
    hide Placed, Queue;
    LiveInOrder(k);
    WhenYieldFails(k);
  }

  lemma RecvReturns(k: K, dstva: nat, e: Slot)
    requires Sound(k) && k.cur.Some? && dstva < KERNBASE && k.cur != Some(e) && k.envs[e].status == Runnable
    ensures SysIpcRecv(k, dstva).Runs?
  {
    var c := k.cur.value;
    var env := k.envs[c].(recving := true, dstva := dstva, status := NotRunnable);
    var k1 := k.(envs := k.envs[c := env], log := k.log + [Waits(c)]);
    RecvPlaced(k, k1, c);
    hide Yield, Placed;
    SomeoneRuns(k1, e);
  }

  /** A client that waits has the server working for it; a server that waits leaves its clients running. */
  lemma Alternates(s: Sys, e: Slot)
    requires RpcInv(s) && e != SERVER && s.k.envs[e].status != Free
    ensures s.k.envs[SERVER].status == Runnable || s.k.envs[e].status == Runnable
    ensures s.pc[e].Sent? ==> s.k.envs[SERVER].status == Runnable
    ensures s.spc.Ready? ==> s.k.envs[e].status == Runnable
  {
    hide Sound;
    assert ClientOk(s, e);
  }

  /** With at least one client the system never comes to a stop. */
  lemma NeverStops(s: Sys, a: Act, e: Slot)
    requires RpcInv(s) && e != SERVER && s.k.envs[e].status != Free
    ensures !Do(s, a).Stopped?
  {
    hide ServerOk, ClientOk, Yield, SysIpcRecv, SysIpcCanSend;
    Alternates(s, e);
    if a.Timer? {
      SomeoneRuns(s.k, if s.k.envs[e].status == Runnable then e else SERVER);
    } else if s.k.cur == Some(SERVER) {
      if s.spc.Ready? { RecvReturns(s.k, REQVA, e); }
    } else if s.k.cur.Some? {
      var c := s.k.cur.value;
      CurrentIsLive(s.k);
      Alternates(s, c);
      if s.pc[c].Sent? && a.Go? && a.dstva < KERNBASE { RecvReturns(s.k, a.dstva, SERVER); }
    }
  }

  // ---- The handlers behind the server's steps ----

  /** A message in the server's mailbox, as the handlers see it; first and second are the results of
      the file system calls. */
  function Message(mail: Mail, first: int, second: int): SL.Incoming {
    SL.Incoming(mail.value, mail.from, mail.perm, first, second)
  }

  /** An int passed as a u64. */
  function Widened(v: int): nat
    requires -0x8000_0000 <= v
  {
    if v >= 0 then v else v + 0x1_0000_0000_0000_0000
  }

  /** The server starts to serve exactly the messages that its loop answers. */
  lemma ServesWhatIsAnswered(s: Sys, a: Act, first: int, second: int)
    requires Formed(s) && s.k.cur == Some(SERVER) && s.spc.Taking? && a.Go?
    ensures var m := Message(s.k.envs[SERVER].mail, first, second);
      && Serve(s, a).Done?
      && (Serve(s, a).s.spc == Serving(m.whom, m.code, []) <==> |SL.AnswersTo(m)| == 1)
      && (!Serve(s, a).s.spc.Serving? <==> SL.AnswersTo(m) == [])
  {
    hide SL.Verdict, SL.Calls;
  }

  /** The one answer of the loop is what the protocol's next two steps of the server send: to the client
      whose request was served, at most once, and with the handler's verdict as its value. */
  lemma AnswerIsReply(s: Sys, m: SL.Incoming, srcva: nat, perm: nat, go: Act)
    requires RpcInv(s) && s.k.cur == Some(SERVER) && s.spc.Serving? && go.Go? && srcva < KERNBASE
    requires m.whom == s.spc.whom && m.code == s.spc.code && m.perm == REQUEST_PERM
    requires m.first >= -0x8000_0000 && m.second >= -0x8000_0000
    ensures |SL.AnswersTo(m)| == 1
    ensures var answer := SL.AnswersTo(m)[0]; var value := Widened(answer.value);
      var r1 := Do(s, Finish(value, srcva, perm));
      && r1.Done? && r1.s == s.(spc := Replying(s.spc.whom, s.spc.code, s.spc.seen, value, srcva, perm))
      && var r2 := Do(r1.s, go); var c := answer.to % NENV;
         && r2.Done?
         && if r2.s.spc == Unmapping
            then r2.s.served == s.served[c := s.served[c] + [Reply(s.spc.code, s.spc.seen, value)]]
            else r2.s == r1.s
  {
    hide Alive, ClientOk, SL.Verdict, SysIpcCanSend;
    var c: Slot :| HasRequestOf(s, c);
    ServedCode(s, c);
    assert m.perm % 2 == 1;
    SL.VerdictBounded(SL.Calls(m), -0x8000_0000);
    var value := Widened(SL.AnswersTo(m)[0].value);
    var act := Finish(value, srcva, perm);
    StepKeepsRpc(s, act);
    StepKeepsRpc(Do(s, act).s, go);
  }

  lemma ServedCode(s: Sys, c: Slot)
    requires RpcInv(s) && s.spc.Serving? && HasRequestOf(s, c)
    ensures ValidCode(s.spc.code)
  {
    hide Alive;
    assert ClientOk(s, c);
  }
}
