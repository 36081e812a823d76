/** The ring of user/pipe.c shared by one reader and one writer that may be preempted between the
    test of the positions, the access to the buffer and the increment of the position. */
module PipeRing {

  const BY2PIPE: nat := 32
  const U64: nat := 0x1_0000_0000_0000_0000

  lemma PositionFacts(r: nat, w: nat)
    requires r <= w <= r + BY2PIPE
    ensures r % U64 == w % U64 <==> r == w
    ensures (w % U64 - r % U64) % U64 == w - r
    ensures r % U64 % BY2PIPE == r % BY2PIPE && w % U64 % BY2PIPE == w % BY2PIPE
    ensures (r % U64 + 1) % U64 == (r + 1) % U64 && (w % U64 + 1) % U64 == (w + 1) % U64
  {
    WrapFacts(r);
    WrapFacts(w);
    var d := w - r;
    assert w % U64 == (r % U64 + d) % U64 by {
      assert w == U64 * (r / U64) + (r % U64 + d);
      ModAdd(r / U64, r % U64 + d);
    }
    Distance(r % U64, d);
  }

  lemma Distance(x: nat, d: nat)
    requires x < U64 && d <= BY2PIPE
    ensures ((x + d) % U64 - x) % U64 == d && ((x + d) % U64 == x <==> d == 0)
  {
    if x + d < U64 {
      assert (x + d) % U64 == x + d;
    } else {
      assert (x + d) % U64 == x + d - U64;
    }
  }

  lemma WrapFacts(a: nat)
    ensures a % U64 % BY2PIPE == a % BY2PIPE && (a % U64 + 1) % U64 == (a + 1) % U64
  {
    assert a == U64 * (a / U64) + a % U64;
    ModAdd(a / U64, a % U64 + 1);
    assert a == BY2PIPE * ((U64 / BY2PIPE) * (a / U64)) + a % U64;
  }

  lemma ModAdd(q: nat, x: nat)
    ensures (U64 * q + x) % U64 == x % U64
  {
    assert x == U64 * (x / U64) + x % U64;
    assert U64 * q + x == U64 * (q + x / U64) + x % U64;
  }

  /** Two indices less than a ring apart that fall on the same cell are equal. */
  lemma DistinctCells(a: nat, b: nat)
    requires a <= b < a + BY2PIPE && a % BY2PIPE == b % BY2PIPE
    ensures a == b
  {
  }

  datatype WriterPc = WIdle | WCheck | WStore | WBump
  datatype ReaderPc = RIdle | RFirst | RCheck | RLoad | RBump

  class Pipe {
    var rpos: nat         // p_rpos, a u64
    var wpos: nat         // p_wpos, a u64
    const buf: array<int> // p_buf

    var wpc: WriterPc     // where pipewrite is
    var wbuf: seq<int>    // its argument
    var wi: nat           // its loop counter

    var rpc: ReaderPc     // where piperead is
    var n: nat            // its argument
    var rbuf: seq<int>    // what it has stored in the caller's buffer
    var ri: nat           // its loop counter

    ghost var before: seq<int>   // bytes written by earlier calls of pipewrite
    ghost var taken: seq<int>    // bytes returned by earlier calls of piperead

    /** Everything written so far, and everything read so far. */
    ghost function Written(): seq<int> reads this { if wi <= |wbuf| then before + wbuf[..wi] else before }
    ghost function Read(): seq<int> reads this { if ri <= |rbuf| then taken + rbuf[..ri] else taken }

    /** The bytes in the ring, oldest first, as the positions and the buffer give them. */
    ghost function InRing(): seq<int>
      reads this, buf
      requires buf.Length == BY2PIPE && |Read()| <= |Written()|
    {
      seq(|Written()| - |Read()|, k requires 0 <= k reads this, buf => buf[(|Read()| + k) % BY2PIPE])
    }

    ghost predicate Valid()
      reads this, buf
    {
      && buf.Length == BY2PIPE
      && wi <= |wbuf| && ri <= |rbuf| <= n
      && |rbuf| == ri + (if rpc.RBump? then 1 else 0)
      && |Read()| <= |Written()| <= |Read()| + BY2PIPE
      && rpos == |Read()| % U64 && wpos == |Written()| % U64
      && Read() == Written()[..|Read()|]
      && (forall k | |Read()| <= k < |Written()| :: buf[k % BY2PIPE] == Written()[k])
      && (wpc.WCheck? || wpc.WStore? || wpc.WBump? ==> wi < |wbuf|)
      && (wpc.WStore? || wpc.WBump? ==> |Written()| < |Read()| + BY2PIPE)
      && (wpc.WBump? ==> buf[|Written()| % BY2PIPE] == wbuf[wi])
      && (wpc.WIdle? ==> wi == 0 && wbuf == [])
      && (rpc.RIdle? || rpc.RFirst? ==> ri == 0)
      && (rpc.RCheck? || rpc.RLoad? || rpc.RBump? ==> ri < n)
      && (rpc.RLoad? || rpc.RBump? ==> |Read()| < |Written()|)
      && (rpc.RBump? ==> rbuf[ri] == Written()[|Read()|])
    }

    constructor ()
      ensures Valid() && Written() == [] && Read() == [] && before == [] && taken == [] && wpc.WIdle? && rpc.RIdle? && fresh(buf)
    {
      buf := new int[BY2PIPE](_ => 0);
      rpos, wpos := 0, 0;
      wpc, wbuf, wi := WIdle, [], 0;
      rpc, n, rbuf, ri := RIdle, 0, [], 0;
      before, taken := [], [];
    }

    /** A call of pipewrite begins; without bytes it returns at once. */
    method BeginWrite(bytes: seq<int>) returns (ret: int)
      requires Valid() && wpc.WIdle?
      modifies this`wpc, this`wbuf, this`wi
      ensures Valid() && Written() == old(Written()) && Read() == old(Read())
      ensures if bytes == [] then ret == 0 && wpc.WIdle? else ret == -1 && wpc.WCheck? && wbuf == bytes && wi == 0
    {
      if bytes == [] { return 0; }
      wpc, wbuf, wi := WCheck, bytes, 0;
      ret := -1;
    }

    /** The reader has emptied, and the writer filled, what the positions say. */
    lemma ReadThenRingIsWritten()
      requires Valid()
      ensures Read() + InRing() == Written() && |InRing()| <= BY2PIPE
    {
      assert forall k | 0 <= k < |InRing()| :: InRing()[k] == Written()[|Read()| + k];
    }

    /** pipewrite tests for room; `closed` is what _pipeisclosed says if it is asked. */
    method WriterTests(closed: bool) returns (ret: int)
      requires Valid() && wpc.WCheck?
      modifies this`wpc, this`wi, this`wbuf, this`before
      ensures Valid() && Read() == old(Read()) && Written() == old(Written())
      ensures ret == -1 || (ret == 0 && wpc.WIdle?)
      ensures old(|Written()| < |Read()| + BY2PIPE) ==> wpc.WStore?
      ensures ret == 0 ==> closed && |Written()| == |Read()| + BY2PIPE && before == old(before + wbuf[..wi])
      ensures ret == -1 ==> !wpc.WIdle? && wbuf == old(wbuf) && wi == old(wi) && before == old(before)
    {
      PositionFacts(|Read()|, |Written()|);
      ret := -1;
      if (wpos - rpos) % U64 == BY2PIPE {
        if closed {
          before := before + wbuf[..wi];
          wpc, wbuf, wi := WIdle, [], 0;
          assert Written() == old(Written());
          return 0;
        }
      } else {
        wpc := WStore;
      }
    }

    method WriterStores()
      requires Valid() && wpc.WStore?
      modifies this`wpc, buf
      ensures Valid() && Read() == old(Read()) && Written() == old(Written()) && wpc.WBump?
    {
      PositionFacts(|Read()|, |Written()|);
      buf[wpos % BY2PIPE] := wbuf[wi];
      forall k | |Read()| <= k < |Written()| ensures buf[k % BY2PIPE] == Written()[k] {
        if k % BY2PIPE == |Written()| % BY2PIPE { DistinctCells(k, |Written()|); }
      }
      wpc := WBump;
    }

    /** pipewrite advances p_wpos; after the last byte it returns the length. */
    method WriterBumps() returns (ret: int)
      requires Valid() && wpc.WBump?
      modifies this`wpc, this`wi, this`wbuf, this`wpos, this`before
      ensures Valid() && Read() == old(Read()) && Written() == old(Written()) + [old(wbuf[wi])]
      ensures if ret == -1 then wpc.WCheck? && wbuf == old(wbuf) && wi == old(wi) + 1 && before == old(before)
              else wpc.WIdle? && ret == |old(wbuf)| == old(wi) + 1 && before == Written() == old(before + wbuf)
    {
      WrapFacts(|Written()|);
      assert wbuf[..wi + 1] == wbuf[..wi] + [wbuf[wi]];
      wpos := (wpos + 1) % U64;
      wi := wi + 1;
      assert Written() == old(Written()) + [old(wbuf[wi])];
      if wi < |wbuf| {
        wpc := WCheck;
        return -1;
      }
      ret := |wbuf|;
      assert wbuf[..wi] == wbuf;
      before := before + wbuf;
      wpc, wbuf, wi := WIdle, [], 0;
      assert Written() == old(Written()) + [old(wbuf[wi])];
    }

    method BeginRead(len: nat)
      requires Valid() && rpc.RIdle?
      modifies this`rpc, this`n, this`rbuf, this`ri
      ensures Valid() && Written() == old(Written()) && Read() == old(Read())
      ensures rpc.RFirst? && n == len && ri == 0
    {
      rpc, n, rbuf, ri := RFirst, len, [], 0;
    }

    /** piperead returns: the bytes it hands to its caller. */
    method ReturnFromRead() returns (got: seq<int>)
      requires Valid() && !rpc.RBump?
      modifies this`rpc, this`n, this`rbuf, this`ri, this`taken
      ensures Valid() && Written() == old(Written()) && Read() == old(Read()) && rpc.RIdle?
      ensures taken == old(taken) + got == Read() && |got| == old(ri)
    {
      got := rbuf;
      assert rbuf[..ri] == rbuf;
      taken := taken + rbuf;
      rpc, n, rbuf, ri := RIdle, 0, [], 0;
      assert Read() == old(Read());
    }

    /** piperead tests for data, before its loop and at every byte. */
    method ReaderTests(closed: bool) returns (returned: bool, got: seq<int>)
      requires Valid() && (rpc.RFirst? || rpc.RCheck?)
      modifies this`rpc, this`n, this`rbuf, this`ri, this`taken
      ensures Valid() && Read() == old(Read()) && Written() == old(Written())
      ensures returned ==> rpc.RIdle? && taken == old(taken) + got == Read() && |got| == old(ri)
      ensures !returned ==> !rpc.RIdle? && taken == old(taken) && n == old(n)
      ensures old(rpc).RCheck? ==> (returned <==> |Read()| == |Written()| && (old(ri) > 0 || closed))
      ensures old(rpc).RFirst? && returned ==> got == [] && (old(n) == 0 || closed)
    {
      PositionFacts(|Read()|, |Written()|);
      returned, got := false, [];
      if rpos == wpos {
        if (rpc.RCheck? && ri > 0) || closed {
          got := ReturnFromRead();
          returned := true;
        }
      } else if rpc.RFirst? {
        if n == 0 {
          got := ReturnFromRead();
          returned := true;
        } else {
          rpc := RCheck;
        }
      } else {
        rpc := RLoad;
      }
    }

    method ReaderLoads()
      requires Valid() && rpc.RLoad?
      modifies this`rpc, this`rbuf
      ensures Valid() && Read() == old(Read()) && Written() == old(Written()) && rpc.RBump?
    {
      PositionFacts(|Read()|, |Written()|);
      rbuf := rbuf + [buf[rpos % BY2PIPE]];
      rpc := RBump;
      assert rbuf[..ri] == old(rbuf)[..ri];
    }

    /** piperead advances p_rpos. */
    method ReaderBumps() returns (returned: bool, got: seq<int>)
      requires Valid() && rpc.RBump?
      modifies this`rpc, this`n, this`rbuf, this`ri, this`taken, this`rpos
      ensures Valid() && Written() == old(Written()) && Read() == old(Read()) + [Written()[|old(Read())|]]
      ensures if returned then rpc.RIdle? && taken == old(taken) + got == Read() && |got| == old(n)
              else rpc.RCheck? && taken == old(taken) && n == old(n)
    {
      WrapFacts(|Read()|);
      assert rbuf[..ri + 1] == rbuf[..ri] + [rbuf[ri]];
      rpos := (rpos + 1) % U64;
      ri := ri + 1;
      assert Read() == old(Read()) + [Written()[|old(Read())|]];
      assert Written()[..|Read()|] == Read();
      if ri < n {
        rpc := RCheck;
        return false, [];
      }
      got := rbuf;
      assert rbuf[..ri] == rbuf;
      taken := taken + rbuf;
      rpc, n, rbuf, ri := RIdle, 0, [], 0;
      assert Read() == taken;
      returned := true;
    }
  }

  function Concat(parts: seq<seq<int>>): seq<int> {
    if parts == [] then [] else Concat(parts[..|parts| - 1]) + parts[|parts| - 1]
  }

  /** What finished calls of pipewrite have put into the stream: the first done[i] bytes of the i-th argument. */
  function Sent(writes: seq<seq<int>>, done: seq<nat>): seq<int>
    requires |done| <= |writes| && forall i | 0 <= i < |done| :: done[i] <= |writes[i]|
  {
    if done == [] then []
    else
      var i := |done| - 1;
      Sent(writes, done[..i]) + writes[i][..done[i]]
  }

  lemma SentMore(writes: seq<seq<int>>, done: seq<nat>, d: nat)
    requires |done| < |writes| && (forall i | 0 <= i < |done| :: done[i] <= |writes[i]|) && d <= |writes[|done|]|
    ensures Sent(writes, done + [d]) == Sent(writes, done) + writes[|done|][..d]
  {
    assert (done + [d])[..|done|] == done;
  }

  /** A call of pipewrite returned ret after it had stored d of the bytes: all of them, or those before the
      full ring of a closed pipe made it give up. */
  predicate Wrote(bytes: seq<int>, d: nat, ret: int, closed: bool) {
    (d == |bytes| && ret == |bytes|) || (d < |bytes| && ret == 0 && closed)
  }

  /** A call of piperead for len bytes returned got: no more than asked, and nothing at all only if nothing
      was asked or the pipe was closed. */
  predicate Got(len: nat, got: seq<int>, closed: bool) {
    |got| <= len && (got == [] ==> len == 0 || closed)
  }

  /** Whose turn it is, and what _pipeisclosed says if it is asked in this turn. */
  datatype Turn = Writer(closed: bool) | Reader(closed: bool)

  predicate EverClosed(schedule: seq<Turn>) {
    exists t :: t in schedule && t.closed
  }

  /** One turn of the writer: it begins a call with `bytes` if it is in none, and otherwise takes the next
      step of its call. */
  method WriterTurn(p: Pipe, bytes: seq<int>, closed: bool) returns (ret: int)
    requires p.Valid()
    modifies p`wpc, p`wi, p`wbuf, p`wpos, p`before, p.buf
    ensures p.Valid()
    ensures var arg := if old(p.wpc.WIdle?) then bytes else old(p.wbuf);
      var d := if old(p.wpc.WBump?) then old(p.wi) + 1 else old(p.wi);
      if ret >= 0 then p.wpc.WIdle? && d <= |arg| && p.before == old(p.before) + arg[..d] && Wrote(arg, d, ret, closed)
      else !p.wpc.WIdle? && p.wbuf == arg && p.before == old(p.before)
  {
    match p.wpc
    case WIdle => ret := p.BeginWrite(bytes);
    case WCheck => ret := p.WriterTests(closed);
    case WStore => p.WriterStores(); ret := -1;
    case WBump => ret := p.WriterBumps();
  }

  /** One turn of the reader. */
  method ReaderTurn(p: Pipe, len: nat, closed: bool) returns (returned: bool, got: seq<int>)
    requires p.Valid()
    modifies p`rpc, p`n, p`rbuf, p`ri, p`taken, p`rpos
    ensures p.Valid()
    ensures var arg := if old(p.rpc.RIdle?) then len else old(p.n);
      if returned then p.rpc.RIdle? && p.taken == old(p.taken) + got && Got(arg, got, closed)
      else !p.rpc.RIdle? && p.n == arg && p.taken == old(p.taken)
  {
    returned, got := false, [];
    match p.rpc
    case RIdle => p.BeginRead(len);
    case RFirst => returned, got := p.ReaderTests(closed);
    case RCheck => returned, got := p.ReaderTests(closed);
    case RLoad => p.ReaderLoads();
    case RBump => returned, got := p.ReaderBumps();
  }

  /** The finished calls of pipewrite returned rets, after they had put the first done[i] bytes of their
      arguments into the stream; the current call, if there is one, has the next argument. */
  ghost predicate WriterAt(p: Pipe, writes: seq<seq<int>>, rets: seq<int>, done: seq<nat>, closed: bool)
    reads p`wpc, p`wbuf, p`before
    ensures WriterAt(p, writes, rets, done, closed) ==>
      |rets| == |done| <= |writes| && forall i | 0 <= i < |done| :: done[i] <= |writes[i]|
  {
    && |rets| == |done| <= |writes|
    && (forall i | 0 <= i < |rets| :: Wrote(writes[i], done[i], rets[i], closed))
    && (if p.wpc.WIdle? then p.wbuf == [] else |rets| < |writes| && p.wbuf == writes[|rets|])
    && p.before == Sent(writes, done)
  }

  /** The finished calls of piperead returned results; the current call, if there is one, asks for the
      next length. */
  ghost predicate ReaderAt(p: Pipe, lens: seq<nat>, results: seq<seq<int>>, closed: bool)
    reads p`rpc, p`n, p`taken
  {
    && |results| <= |lens|
    && (forall i | 0 <= i < |results| :: Got(lens[i], results[i], closed))
    && (p.rpc.RIdle? || (|results| < |lens| && p.n == lens[|results|]))
    && p.taken == Concat(results)
  }

  method NextOfWriter(p: Pipe, writes: seq<seq<int>>, rets: seq<int>, ghost done: seq<nat>, closed: bool, ghost ever: bool)
    returns (rets': seq<int>, ghost done': seq<nat>)
    requires p.Valid() && WriterAt(p, writes, rets, done, ever) && (closed ==> ever)
    modifies p`wpc, p`wi, p`wbuf, p`wpos, p`before, p.buf
    ensures p.Valid() && WriterAt(p, writes, rets', done', ever)
  {
    rets', done' := rets, done;
    if p.wpc.WIdle? && |rets| == |writes| { return; }
    ghost var d := if p.wpc.WBump? then p.wi + 1 else p.wi;
    var ret := WriterTurn(p, if p.wpc.WIdle? then writes[|rets|] else [], closed);
    if ret >= 0 {
      SentMore(writes, done, d);
      rets', done' := rets + [ret], done + [d];
    }
  }

  method NextOfReader(p: Pipe, lens: seq<nat>, results: seq<seq<int>>, closed: bool, ghost ever: bool)
    returns (results': seq<seq<int>>)
    requires p.Valid() && ReaderAt(p, lens, results, ever) && (closed ==> ever)
    modifies p`rpc, p`n, p`rbuf, p`ri, p`taken, p`rpos
    ensures p.Valid() && ReaderAt(p, lens, results', ever)
  {
    results' := results;
    if p.rpc.RIdle? && |results| == |lens| { return; }
    var returned, got := ReaderTurn(p, if p.rpc.RIdle? then lens[|results|] else 0, closed);
    if returned { results' := results + [got]; }
  }

  /** A writer calls pipewrite with one of writes after the other, a reader piperead for one of lens after
      the other.  Under every schedule the ring is a queue: what the calls of piperead returned, followed
      by what the current call has read, followed by the ring, is what the calls of pipewrite were given,
      in order, each as far as it got; only a closed pipe cuts a call short. */
  method Run(writes: seq<seq<int>>, lens: seq<nat>, schedule: seq<Turn>)
    returns (p: Pipe, rets: seq<int>, ghost done: seq<nat>, results: seq<seq<int>>)
    ensures p.Valid() && WriterAt(p, writes, rets, done, EverClosed(schedule)) && ReaderAt(p, lens, results, EverClosed(schedule))
    ensures p.Read() == Concat(results) + p.rbuf[..p.ri]
    ensures p.Read() + p.InRing() == Sent(writes, done) + p.wbuf[..p.wi] && |p.InRing()| <= BY2PIPE
  {
    p := new Pipe();
    rets, done, results := Turns(p, writes, lens, schedule);
    hide Sent, Concat, Wrote, Got;
    p.ReadThenRingIsWritten();
    hide Pipe.InRing;
  }

  method Turns(p: Pipe, writes: seq<seq<int>>, lens: seq<nat>, schedule: seq<Turn>)
    returns (rets: seq<int>, ghost done: seq<nat>, results: seq<seq<int>>)
    requires p.Valid() && p.wpc.WIdle? && p.rpc.RIdle? && p.before == p.taken == []
    modifies p, p.buf
    ensures p.Valid() && WriterAt(p, writes, rets, done, EverClosed(schedule)) && ReaderAt(p, lens, results, EverClosed(schedule))
  {
    rets, done, results := [], [], [];
    ghost var ever := EverClosed(schedule);
    assert WriterAt(p, writes, rets, done, ever) && ReaderAt(p, lens, results, ever);
    hide Sent, Concat, Wrote, Got, WriterAt, ReaderAt, Pipe.Valid;
    for t := 0 to |schedule|
      invariant p.Valid() && WriterAt(p, writes, rets, done, ever) && ReaderAt(p, lens, results, ever)
    {
      assert schedule[t] in schedule;
      if schedule[t].Writer? {
        rets, done := NextOfWriter(p, writes, rets, done, schedule[t].closed, ever);
      } else {
        results := NextOfReader(p, lens, results, schedule[t].closed, ever);
      }
    }
  }
}
