/** The client end of a remote DMA stream: requests are executed as they arrive and the
responses queued; a write of the next response is started by whoever finds none under
way.  Read and write completions run in different threads; a step below is one stretch
of a callback that the queue's lock makes atomic. */
module DmaPump {
  import opened Octets

  datatype Request = Read(addr: nat, nbyte: nat) | Write(addr: nat, data: seq<Byte>)

  datatype Response = Response(status: nat, data: seq<Byte>)

  // ----- what the stream means: requests executed one after another -----

  type Memory = map<nat, Byte>

  function Peek(m: Memory, a: nat): Byte { if a in m then m[a] else 0 }

  function Load(m: Memory, addr: nat, n: nat): (d: seq<Byte>)
    ensures |d| == n && forall i :: 0 <= i < n ==> d[i] == Peek(m, addr + i)
  {
    seq<Byte>(n, (i: nat) => Peek(m, addr + i))
  }

  function Poke(m: Memory, addr: nat, data: seq<Byte>): (m': Memory)
    ensures forall a: nat :: Peek(m', a) == if addr <= a < addr + |data| then data[a - addr] else Peek(m, a)
    decreases |data|
  {
    if data == [] then m else Poke(m[addr := data[0]], addr + 1, data[1..])
  }

  function Execute(m: Memory, r: Request): (Memory, Response) {
    match r
    case Read(addr, n) => (m, Response(0, Load(m, addr, n)))
    case Write(addr, data) => (Poke(m, addr, data), Response(0, []))
  }

  function FinalMemory(m: Memory, rs: seq<Request>): Memory {
    if rs == [] then m else Execute(FinalMemory(m, rs[..|rs| - 1]), rs[|rs| - 1]).0
  }

  function Answers(m: Memory, rs: seq<Request>): (answers: seq<Response>)
    ensures |answers| == |rs|
  {
    if rs == [] then []
    else
      var init := rs[..|rs| - 1];
      Answers(m, init) + [Execute(FinalMemory(m, init), rs[|rs| - 1]).1]
  }

  lemma AnswersSnoc(m: Memory, rs: seq<Request>, r: Request)
    ensures Answers(m, rs + [r]) == Answers(m, rs) + [Execute(FinalMemory(m, rs), r).1]
    ensures FinalMemory(m, rs + [r]) == Execute(FinalMemory(m, rs), r).0
  {
    assert (rs + [r])[..|rs|] == rs;
  }

  /** The byte the last of the requests to write address `a` put there, or what was there before. */
  function LastWrite(rs: seq<Request>, a: nat, before: Byte): Byte {
    if rs == [] then before
    else
      match rs[|rs| - 1]
      case Read(_, _) => LastWrite(rs[..|rs| - 1], a, before)
      case Write(addr, data) => if addr <= a < addr + |data| then data[a - addr] else LastWrite(rs[..|rs| - 1], a, before)
  }

  lemma {:induction false} MemoryIsLastWrite(m: Memory, rs: seq<Request>, a: nat)
    ensures Peek(FinalMemory(m, rs), a) == LastWrite(rs, a, Peek(m, a))
    decreases |rs|
  {
    hide Poke, Peek;
    if rs != [] { MemoryIsLastWrite(m, rs[..|rs| - 1], a); }
  }

  /** Every request succeeds; a read answers, byte for byte, what the writes before it put last at
      its addresses, a write nothing. */
  lemma {:induction false} AnswerIs(m: Memory, rs: seq<Request>, k: nat)
    requires k < |rs|
    ensures
      var answer := Answers(m, rs)[k];
      && answer.status == 0
      && (rs[k].Write? ==> answer.data == [])
      && (rs[k].Read? ==>
            |answer.data| == rs[k].nbyte &&
            forall i :: 0 <= i < rs[k].nbyte ==>
              answer.data[i] == LastWrite(rs[..k], rs[k].addr + i, Peek(m, rs[k].addr + i)))
    decreases |rs|
  {
    var init := rs[..|rs| - 1];
    if k < |init| {
      AnswerIs(m, init, k);
      assert init[..k] == rs[..k];
    } else {
      assert rs == init + [rs[k]] && rs[..k] == init;
      AnswersSnoc(m, init, rs[k]);
      hide Answers, LastWrite, Peek, Poke;
      if rs[k].Read? { LoadIs(m, init, rs[k].addr, rs[k].nbyte); }
    }
  }

  lemma LoadIs(m: Memory, rs: seq<Request>, addr: nat, n: nat)
    ensures forall i :: 0 <= i < n ==> Load(FinalMemory(m, rs), addr, n)[i] == LastWrite(rs, addr + i, Peek(m, addr + i))
  {
    hide FinalMemory, LastWrite, Peek, Poke;
    forall i | 0 <= i < n ensures Load(FinalMemory(m, rs), addr, n)[i] == LastWrite(rs, addr + i, Peek(m, addr + i)) {
      MemoryIsLastWrite(m, rs, addr + i);
    }
  }

  // ----- the two callbacks -----

  /** What the read callback still has to do after pushing a response. */
  datatype Reader = Waiting | Pushed(first: bool, act: Response)

  /** `resp` is the buffer of the write under way, if `writing`; `next` says that the write
      callback has still to start one; `failed` that a write did not go through. */
  datatype State = State(memory: Memory, queue: seq<Response>, resp: Response, writing: bool, next: bool,
                         reader: Reader, failed: bool, requests: seq<Request>, sent: seq<Response>)

  datatype Step =
    | ReadDone(req: Request)
    | ReaderStarts
    | WriteDone(ok: bool)
    | WriterStarts

  predicate Enabled(s: State, t: Step) {
    match t
    case ReadDone(_) => s.reader.Waiting?
    case ReaderStarts => s.reader.Pushed?
    case WriteDone(ok) => s.writing && (ok ==> s.queue != [])
    case WriterStarts => s.next
  }

  function Next(s: State, t: Step): State
    requires Enabled(s, t)
  {
    match t
    case ReadDone(req) =>
      var (m, act) := Execute(s.memory, req);
      s.(memory := m, queue := s.queue + [act], reader := Pushed(s.queue == [], act), requests := s.requests + [req])
    case ReaderStarts =>
      if s.reader.first then s.(reader := Waiting, resp := s.reader.act, writing := true) else s.(reader := Waiting)
    case WriteDone(ok) =>
      if !ok then s.(writing := false, failed := true)
      else
        var rest := s.queue[1..];
        s.(writing := false, sent := s.sent + [s.resp], queue := rest, next := rest != [],
           resp := if rest != [] then rest[0] else s.resp)
    case WriterStarts =>
      s.(next := false, writing := true)
  }

  function Start(m: Memory, resp: Response): State {
    State(m, [], resp, false, false, Waiting, false, [], [])
  }

  predicate IsRun(s: State, ts: seq<Step>)
    decreases |ts|
  {
    ts == [] || (Enabled(s, ts[0]) && IsRun(Next(s, ts[0]), ts[1..]))
  }

  function After(s: State, ts: seq<Step>): State
    requires IsRun(s, ts)
    decreases |ts|
  {
    if ts == [] then s else After(Next(s, ts[0]), ts[1..])
  }

  // ----- safety -----

  function Count(b: bool): nat { if b then 1 else 0 }

  /** Who owns the response buffer: a write under way, or a callback about to start one. */
  function Owners(s: State): nat {
    Count(s.writing) + Count(s.next) + Count(s.reader.Pushed? && s.reader.first)
  }

  /** The buffer has one owner exactly while there is something to send and no write has
      failed; the buffer under way is the head of the queue; and what was sent, followed
      by what waits, are the answers to all requests in order. */
  predicate Pumping(s: State, m: Memory) {
    && Owners(s) == Count(s.queue != [] && !s.failed)
    && (s.writing || s.next ==> s.resp == s.queue[0])
    && (s.reader.Pushed? && s.reader.first ==> s.queue == [s.reader.act])
    && (s.failed ==> s.queue != [])
    && s.memory == FinalMemory(m, s.requests)
    && s.sent + s.queue == Answers(m, s.requests)
  }

  /** Every step keeps it. */
  lemma StepPumps(s: State, t: Step, m: Memory)
    requires Pumping(s, m) && Enabled(s, t)
    ensures Pumping(Next(s, t), m)
  {
    hide Answers, FinalMemory, Execute;
    match t
    case ReadDone(req) =>
      AnswersSnoc(m, s.requests, req);
      var act := Execute(s.memory, req).1;
      assert s.sent + (s.queue + [act]) == (s.sent + s.queue) + [act];
    case WriteDone(ok) =>
      if ok {
        assert s.queue == [s.queue[0]] + s.queue[1..];
        assert (s.sent + [s.resp]) + s.queue[1..] == s.sent + ([s.resp] + s.queue[1..]);
      }
    case _ =>
  }

  lemma {:induction false} RunPumps(s: State, ts: seq<Step>, m: Memory)
    requires Pumping(s, m) && IsRun(s, ts)
    ensures Pumping(After(s, ts), m)
    decreases |ts|
  {
    hide Pumping, Next, Enabled;
    if ts != [] {
      StepPumps(s, ts[0], m);
      RunPumps(Next(s, ts[0]), ts[1..], m);
    }
  }

  /** The requests that arrive during a run: the steps alone say. */
  function Asked(ts: seq<Step>): seq<Request> {
    if ts == [] then [] else (if ts[0].ReadDone? then [ts[0].req] else []) + Asked(ts[1..])
  }

  /** How many writes go through. */
  function Written(ts: seq<Step>): nat {
    if ts == [] then 0 else (if ts[0].WriteDone? && ts[0].ok then 1 else 0) + Written(ts[1..])
  }

  lemma StepAsks(s: State, t: Step)
    requires Enabled(s, t)
    ensures Next(s, t).requests == s.requests + (if t.ReadDone? then [t.req] else [])
    ensures |Next(s, t).sent| == |s.sent| + if t.WriteDone? && t.ok then 1 else 0
  {
    hide Execute;
  }

  lemma {:induction false} RunAsks(s: State, ts: seq<Step>)
    requires IsRun(s, ts)
    ensures After(s, ts).requests == s.requests + Asked(ts) && |After(s, ts).sent| == |s.sent| + Written(ts)
    decreases |ts|
  {
    hide Next, Enabled;
    if ts != [] {
      StepAsks(s, ts[0]);
      RunAsks(Next(s, ts[0]), ts[1..]);
    }
  }

  /** Neither callback has anything left to do. */
  predicate Quiet(s: State) { s.reader.Waiting? && !s.next }

  /** For every interleaving: responses go out once for every write that goes through, in the order
      the requests arrive, as a sequential execution would answer; never two writes at once; between callbacks a write is under
      way exactly when the queue is not empty, if and only if none has failed; and then,
      when none is under way, everything has been answered. */
  lemma PumpIsSequential(m: Memory, resp: Response, ts: seq<Step>)
    requires IsRun(Start(m, resp), ts)
    ensures
      var s := After(Start(m, resp), ts);
      && |s.sent| == Written(ts) && s.sent <= Answers(m, Asked(ts)) && Owners(s) <= 1
      && (s.writing ==> s.sent + [s.resp] <= Answers(m, Asked(ts)))
      && (Quiet(s) ==> ((s.writing <==> s.queue != []) <==> !s.failed))
      && (Quiet(s) && !s.failed && !s.writing ==> s.sent == Answers(m, Asked(ts)))
  {
    hide Answers, IsRun, After, FinalMemory;
    StartPumps(m, resp);
    RunPumps(Start(m, resp), ts, m);
    RunAsks(Start(m, resp), ts);
    assert After(Start(m, resp), ts).requests == Asked(ts);
    var s := After(Start(m, resp), ts);
    if s.writing { assert s.queue == [s.resp] + s.queue[1..]; assert s.sent + s.queue == s.sent + [s.resp] + s.queue[1..]; }
  }

  lemma StartPumps(m: Memory, resp: Response)
    ensures Pumping(Start(m, resp), m)
  {
    assert Start(m, resp).sent + Start(m, resp).queue == [];
  }

  /** A failed write ends the stream: nothing is ever sent again. */
  lemma {:induction false} FailureIsFinal(s: State, ts: seq<Step>, m: Memory)
    requires Pumping(s, m) && s.failed && IsRun(s, ts)
    ensures After(s, ts).sent == s.sent && After(s, ts).failed && !After(s, ts).writing
    decreases |ts|
  {
    if ts != [] {
      StepPumps(s, ts[0], m);
      hide FinalMemory, Answers;
      assert Owners(s) == 0;
      hide Pumping, Execute;
      FailureIsFinal(Next(s, ts[0]), ts[1..], m);
    }
  }

  // ----- the reactor object -----

  class DmaAccess {
    var memory: Memory
    var respQue: seq<Response>
    var resp: Response
    ghost var writing: bool
    ghost var next: bool
    ghost var reader: Reader
    ghost var failed: bool
    ghost var requests: seq<Request>
    ghost var sent: seq<Response>

    ghost function Now(): State
      reads this
    {
      State(memory, respQue, resp, writing, next, reader, failed, requests, sent)
    }

    constructor (memory: Memory, resp: Response)
      ensures Now() == Start(memory, resp)
    {
      this.memory, this.resp, respQue := memory, resp, [];
      writing, next, reader, failed, requests, sent := false, false, Waiting, false, [], [];
    }

    /** The read callback, with no other step in between: access memory, push under the lock,
        and start the write if there was nothing to send before. */
    method OnReadDone(req: Request)
      requires Enabled(Now(), ReadDone(req))
      modifies this
      ensures IsRun(old(Now()), [ReadDone(req), ReaderStarts])
      ensures Now() == After(old(Now()), [ReadDone(req), ReaderStarts])
      ensures requests == old(requests) + [req] && sent == old(sent) && respQue != [] && old(respQue) <= respQue
      ensures old(respQue) == [] ==> writing && resp == respQue[0]
    {
      hide IsRun, After;
      RunOfTwo(Now(), ReadDone(req), ReaderStarts);
      var act;
      match req {
        case Read(addr, n) => act := Response(0, Load(memory, addr, n));
        case Write(addr, data) => act := Response(0, []); memory := Poke(memory, addr, data);
      }
      var firstWrite := |respQue| == 0;
      respQue := respQue + [act];
      requests := requests + [req];
      if firstWrite {
        resp := act;
        writing := true;
      }
      reader := Waiting;
    }

    /** The write callback, with no other step in between: pop and pick the next response under
        the lock, and start its write. */
    method OnWriteDone(ok: bool)
      requires Enabled(Now(), WriteDone(ok))
      modifies this
      ensures IsRun(old(Now()), WriteSteps(old(Now()), ok))
      ensures Now() == After(old(Now()), WriteSteps(old(Now()), ok))
      ensures if ok then sent == old(sent) + [old(resp)] && respQue == old(respQue)[1..] && (respQue != [] ==> writing && resp == respQue[0])
              else failed && !writing && sent == old(sent) && respQue == old(respQue)
    {
      hide IsRun, After;
      WriteRuns(Now(), ok);
      writing := false;
      if ok {
        sent := sent + [resp];
        respQue := respQue[1..];
        var nextWrite := |respQue| > 0;
        next := false;
        if nextWrite {
          resp := respQue[0];
        }
        if nextWrite {
          writing := true;
        }
      } else {
        failed := true;
      }
    }
  }

  /** The steps of the write callback: a next write is started if a response is left. */
  function WriteSteps(s: State, ok: bool): seq<Step> {
    if ok && |s.queue| > 1 then [WriteDone(ok), WriterStarts] else [WriteDone(ok)]
  }

  lemma RunOfTwo(s: State, t: Step, u: Step)
    requires Enabled(s, t) && Enabled(Next(s, t), u)
    ensures IsRun(s, [t, u]) && After(s, [t, u]) == Next(Next(s, t), u)
  {
    assert [t, u][1..] == [u] && [u][1..] == [];
    var e := Next(Next(s, t), u);
    assert IsRun(e, []) && After(e, []) == e;
    assert IsRun(Next(s, t), [u]) && After(Next(s, t), [u]) == e;
  }

  lemma WriteRuns(s: State, ok: bool)
    requires Enabled(s, WriteDone(ok))
    ensures IsRun(s, WriteSteps(s, ok))
    ensures
      var s' := Next(s, WriteDone(ok));
      After(s, WriteSteps(s, ok)) == if ok && |s.queue| > 1 then Next(s', WriterStarts) else s'
  {
    if ok && |s.queue| > 1 {
      RunOfTwo(s, WriteDone(ok), WriterStarts);
    } else {
      assert [WriteDone(ok)][1..] == [];
    }
  }
}
