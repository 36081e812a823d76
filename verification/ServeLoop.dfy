/** The server's half of the protocol as control flow: the loop of serve and the handlers of
    fs/serv.c.  What the file system calls return is given with each request. */
module ServeLoop {

  /** FSREQ_OPEN to FSREQ_CREATE */
  const OPEN := 1
  const MAP := 2
  const SET_SIZE := 3
  const CLOSE := 4
  const DIRTY := 5
  const REMOVE := 6
  const SYNC := 7
  const CREATE := 8

  /** A message received: its value, sender and page permission, and the results of the two calls that
      its handler may make. */
  datatype Incoming = Incoming(code: nat, whom: nat, perm: nat, first: int, second: int)

  datatype Answer = Answer(to: nat, value: int, withPage: bool)

  /** The calls a handler makes, by their results. */
  function Calls(m: Incoming): seq<int> {
    if m.code in {OPEN, MAP, SET_SIZE, DIRTY} then [m.first, m.second]
    else if m.code in {CLOSE, REMOVE, CREATE} then [m.first]
    else []
  }

  /** The first failure, or success. */
  function Verdict(calls: seq<int>): (v: int)
    ensures v <= 0
    ensures v == 0 <==> forall i | 0 <= i < |calls| :: calls[i] >= 0
    ensures v < 0 ==> v in calls
  {
    if calls == [] then 0
    else if calls[0] < 0 then calls[0]
    else
      assert forall i | 0 < i < |calls| :: calls[i] == calls[1..][i - 1];
      Verdict(calls[1..])
  }

  lemma VerdictBounded(calls: seq<int>, low: int)
    requires low <= 0 && forall i | 0 <= i < |calls| :: low <= calls[i]
    ensures low <= Verdict(calls)
  {
    if Verdict(calls) < 0 {
      var i :| 0 <= i < |calls| && calls[i] == Verdict(calls);
    }
  }

  /** A request with an argument page and a known code has one answer, for its sender; others have none. */
  function AnswersTo(m: Incoming): seq<Answer> {
    if m.perm % 2 == 1 && OPEN <= m.code <= CREATE then
      [Answer(m.whom, Verdict(Calls(m)), Verdict(Calls(m)) == 0 && m.code in {OPEN, MAP})]
    else []
  }

  function AnswersToAll(ms: seq<Incoming>): seq<Answer> {
    if ms == [] then [] else AnswersToAll(ms[..|ms| - 1]) + AnswersTo(ms[|ms| - 1])
  }

  class Server {
    var sent: seq<Answer>
    var mapped: bool   // a page at REQVA

    constructor ()
      ensures sent == [] && !mapped
    {
      sent, mapped := [], false;
    }

    method IpcSend(to: nat, value: int, withPage: bool)
      modifies this`sent
      ensures sent == old(sent) + [Answer(to, value, withPage)]
    {
      sent := sent + [Answer(to, value, withPage)];
    }

    method ServeOpen(envid: nat, alloc: int, open: int)
      modifies this`sent
      ensures sent == old(sent) + [Answer(envid, Verdict([alloc, open]), Verdict([alloc, open]) == 0)]
    {
      if alloc < 0 { IpcSend(envid, alloc, false); return; }
      if open < 0 { IpcSend(envid, open, false); return; }
      IpcSend(envid, 0, true);
    }

    method ServeMap(envid: nat, lookup: int, block: int)
      modifies this`sent
      ensures sent == old(sent) + [Answer(envid, Verdict([lookup, block]), Verdict([lookup, block]) == 0)]
    {
      if lookup < 0 { IpcSend(envid, lookup, false); return; }
      if block < 0 { IpcSend(envid, block, false); return; }
      IpcSend(envid, 0, true);
    }

    /** serve_set_size and serve_dirty */
    method ServeTwo(envid: nat, lookup: int, result: int)
      modifies this`sent
      ensures sent == old(sent) + [Answer(envid, Verdict([lookup, result]), false)]
    {
      if lookup < 0 { IpcSend(envid, lookup, false); return; }
      if result < 0 { IpcSend(envid, result, false); return; }
      IpcSend(envid, 0, false);
    }

    /** serve_close, serve_remove and serve_create */
    method ServeOne(envid: nat, result: int)
      modifies this`sent
      ensures sent == old(sent) + [Answer(envid, Verdict([result]), false)]
    {
      if result < 0 { IpcSend(envid, result, false); return; }
      IpcSend(envid, 0, false);
    }

    /** The body of the loop of serve, after ipc_recv. */
    method ServeRequest(m: Incoming)
      modifies this
      ensures sent == old(sent) + AnswersTo(m)
      ensures mapped == (m.perm % 2 == 0 && old(mapped))
    {
      if m.perm % 2 == 0 { return; }
      mapped := true;
      if m.code == OPEN { ServeOpen(m.whom, m.first, m.second); }
      else if m.code == MAP { ServeMap(m.whom, m.first, m.second); }
      else if m.code == SET_SIZE || m.code == DIRTY { ServeTwo(m.whom, m.first, m.second); }
      else if m.code == CLOSE || m.code == REMOVE || m.code == CREATE { ServeOne(m.whom, m.first); }
      else if m.code == SYNC { IpcSend(m.whom, 0, false); }
      mapped := false;
    }

    /** serve, for as long as messages arrive. */
    method Serve(ms: seq<Incoming>)
      requires !mapped
      modifies this
      ensures sent == old(sent) + AnswersToAll(ms) && !mapped
    {
      var i := 0;
      while i < |ms|
        invariant 0 <= i <= |ms| && sent == old(sent) + AnswersToAll(ms[..i]) && !mapped
      {
        ServeRequest(ms[i]);
        assert ms[..i + 1][..i] == ms[..i];
        i := i + 1;
      }
      assert ms[..|ms|] == ms;
    }
  }

  predicate Proper(m: Incoming) { m.perm % 2 == 1 && OPEN <= m.code <= CREATE }

  /** The answer by code.  sync always succeeds; close, remove and create answer with the failure of their
      one call; the others with the first failure of their two; only open and map hand over a page, and
      only when nothing failed. */
  lemma AnswerByCode(m: Incoming)
    ensures AnswersTo(m) == [] <==> m.perm % 2 == 0 || m.code == 0 || m.code > 8
    ensures m.perm % 2 == 1 && m.code == SYNC ==> AnswersTo(m) == [Answer(m.whom, 0, false)]
    ensures m.perm % 2 == 1 && m.code in {CLOSE, REMOVE, CREATE} ==>
              AnswersTo(m) == [Answer(m.whom, if m.first < 0 then m.first else 0, false)]
    ensures m.perm % 2 == 1 && m.code in {OPEN, MAP, SET_SIZE, DIRTY} ==>
              AnswersTo(m) == [if m.first < 0 then Answer(m.whom, m.first, false)
                               else if m.second < 0 then Answer(m.whom, m.second, false)
                               else Answer(m.whom, 0, m.code in {OPEN, MAP})]
  {
    assert [m.first, m.second][1..] == [m.second];
    assert Verdict([m.second]) == if m.second < 0 then m.second else 0;
    assert Verdict([m.first]) == if m.first < 0 then m.first else 0;
  }

  /** If all requests come from fsipc, the answers are one for each, to its sender, in order. */
  lemma {:induction false} OneAnswerEach(ms: seq<Incoming>)
    requires forall i | 0 <= i < |ms| :: Proper(ms[i])
    ensures |AnswersToAll(ms)| == |ms|
    ensures forall i | 0 <= i < |ms| :: AnswersToAll(ms)[i].to == ms[i].whom
  {
    hide Calls, Verdict;
    if ms != [] {
      var n := |ms| - 1;
      OneAnswerEach(ms[..n]);
      assert Proper(ms[n]);
      assert |AnswersTo(ms[n])| == 1 && AnswersTo(ms[n])[0].to == ms[n].whom;
    }
  }
}
