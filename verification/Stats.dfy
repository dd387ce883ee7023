/** Traffic statistics: workers count privately and publish under a lock now and then; an
aggregator collects what is published while they run, every tick or on a signal; a last
gather follows the join.  Every step below is one critical section or one stretch of
thread-private work, so runs are all interleavings.  Counters are the 64-bit ones read as
integers: the code only adds and subtracts them, and prints them modulo 2^64. */
module Stats {

  datatype Count = Count(pkts: int, bytes: int)

  const ZERO := Count(0, 0)

  function Plus(a: Count, b: Count): Count { Count(a.pkts + b.pkts, a.bytes + b.bytes) }

  function Minus(a: Count, b: Count): Count { Count(a.pkts - b.pkts, a.bytes - b.bytes) }

  /** As a 64-bit counter shows it. */
  function Printed(n: int): nat { n % 0x1_0000_0000_0000_0000 }

  function BurstBytes(lens: seq<nat>): nat { if lens == [] then 0 else lens[0] + BurstBytes(lens[1..]) }

  /** Where a worker is in its update: counting, about to publish, or published with its
      private mark not yet moved. */
  datatype Phase = Counting | Due | Published

  /** `seen` is what passed through the worker, `counted` its private counters, `last` what
      was published of them.  Publications go to `shared`, which others read, or, from a
      worker on a private copy of its parameters, to `hidden`, which nobody does. */
  datatype Worker = Worker(seen: Count, counted: Count, last: Count, shared: Count, hidden: Count,
                           lastUpdate: nat, phase: Phase)

  /** `ticking` tells the periodic aggregator from the signal-driven one; `copied` says that
      each worker replays a capture of its own and so works on a copy of its parameters;
      `reported` is the sum of the totals printed and then cleared. */
  datatype State = State(ticking: bool, incremental: bool, copied: bool, total: Count, reported: Count, workers: seq<Worker>)

  datatype Step =
    | Receive(i: nat, lens: seq<nat>)
    | Publish(i: nat)
    | Settle(i: nat)
    | Collect(i: nat)
    | Signal(i: nat)
    | Report

  /** Count a burst; an empty one, or more than 100000 packets, makes publishing due. */
  function Counted(w: Worker, lens: seq<nat>): Worker {
    var n := w.lastUpdate + |lens|;
    var burst := Count(|lens|, BurstBytes(lens));
    w.(seen := Plus(w.seen, burst), counted := Plus(w.counted, burst), lastUpdate := n,
       phase := if n > 100000 || lens == [] then Due else Counting)
  }

  predicate Enabled(s: State, t: Step) {
    match t
    case Receive(i, _) => i < |s.workers| && s.workers[i].phase.Counting?
    case Publish(i) => i < |s.workers| && s.workers[i].phase.Due?
    case Settle(i) => i < |s.workers| && s.workers[i].phase.Published?
    case Collect(i) => i < |s.workers| && s.ticking
    case Signal(i) => i < |s.workers| && !s.ticking
    case Report => !s.ticking
  }

  /** The worker a step leaves behind. */
  function Acts(s: State, w: Worker, t: Step): Worker {
    match t
    case Receive(_, lens) => Counted(w, lens)
    case Publish(_) =>
      var due := Minus(w.counted, w.last);
      if s.copied then w.(hidden := Plus(w.hidden, due), phase := Published)
      else w.(shared := Plus(w.shared, due), phase := Published)
    case Settle(_) => w.(last := w.counted, lastUpdate := 0, phase := Counting)
    case Collect(_) => if s.incremental then w else w.(shared := ZERO)
    case Signal(_) =>
      if s.incremental then w else w.(shared := ZERO, counted := if s.copied then w.counted else ZERO)
    case Report => w
  }

  function Next(s: State, t: Step): State
    requires Enabled(s, t)
  {
    if t.Report? then
      if s.incremental then s else s.(reported := Plus(s.reported, s.total), total := ZERO)
    else
      var w := s.workers[t.i];
      s.(total := if (t.Collect? && !s.incremental) || t.Signal? then Plus(s.total, w.shared) else s.total,
         workers := s.workers[t.i := Acts(s, w, t)])
  }

  predicate IsRun(s: State, ts: seq<Step>)
    decreases |ts|
  {
    ts == [] || (Enabled(s, ts[0]) && IsRun(Next(s, ts[0]), ts[1..]))
  }

  function After(s: State, ts: seq<Step>): State
    requires IsRun(s, ts)
    decreases |ts|
  {
    if ts == [] then s else After(Next(s, ts[0]), ts[1..])
  }

  const FRESH := Worker(ZERO, ZERO, ZERO, ZERO, ZERO, 0, Counting)

  function Start(ticking: bool, incremental: bool, copied: bool, threads: nat): State {
    State(ticking, incremental, copied, ZERO, ZERO, seq(threads, _ => FRESH))
  }

  /** The final gather over all joined workers. */
  function Gather(s: State, k: nat): State
    requires k <= |s.workers|
    ensures |Gather(s, k).workers| == |s.workers| && Gather(s, k).reported == s.reported
    decreases |s.workers| - k
  {
    if k == |s.workers| then s
    else
      var w := s.workers[k];
      Gather(s.(total := Plus(s.total, w.shared),
                workers := if s.incremental then s.workers else s.workers[k := w.(shared := ZERO)]), k + 1)
  }

  // ----- conservation -----

  /** The bytes or the packets of a count. */
  function Part(c: Count, bytes: bool): int { if bytes then c.bytes else c.pkts }

  datatype Field = Seen | Shared | Hidden | Waiting

  /** What a worker holds; waiting is what its next publication would add. */
  function Holds(w: Worker, f: Field, bytes: bool): int {
    match f
    case Seen => Part(w.seen, bytes)
    case Shared => Part(w.shared, bytes)
    case Hidden => Part(w.hidden, bytes)
    case Waiting => if w.phase.Published? then 0 else Part(w.counted, bytes) - Part(w.last, bytes)
  }

  function Sum(ws: seq<Worker>, f: Field, bytes: bool): int {
    if ws == [] then 0 else Holds(ws[0], f, bytes) + Sum(ws[1..], f, bytes)
  }

  /** The packets, or the bytes, of all bursts that arrive during a run: the steps alone say. */
  function Received(ts: seq<Step>, bytes: bool): (n: nat) {
    if ts == [] then 0
    else (match ts[0]
          case Receive(_, lens) => if bytes then BurstBytes(lens) else |lens|
          case _ => 0) + Received(ts[1..], bytes)
  }

  /** By how much the totals, and what is still on its way to them or hidden from them,
      exceed what was seen. */
  function Drift(s: State, bytes: bool): int {
    Part(s.total, bytes) + Part(s.reported, bytes) + Sum(s.workers, Shared, bytes) + Sum(s.workers, Hidden, bytes)
    + Sum(s.workers, Waiting, bytes) - Sum(s.workers, Seen, bytes)
  }

  /** What a step adds to the drift.  Answering a signal counts the published packets once
      more in incremental mode; otherwise it clears the private counters but not the mark,
      so that everything counted since the last signal is subtracted from the next
      publication, unless the mark is about to be moved. */
  function Harm(s: State, t: Step, bytes: bool): int
    requires Enabled(s, t)
  {
    if !t.Signal? then 0
    else
      var w := s.workers[t.i];
      if s.incremental then Part(w.shared, bytes)
      else if s.copied || w.phase.Published? then 0
      else -Part(w.counted, bytes)
  }

  function RunHarm(s: State, ts: seq<Step>, bytes: bool): int
    requires IsRun(s, ts)
    decreases |ts|
  {
    if ts == [] then 0 else Harm(s, ts[0], bytes) + RunHarm(Next(s, ts[0]), ts[1..], bytes)
  }

  /** Every signal of the run finds nothing it could count twice or lose. */
  predicate Harmless(s: State, ts: seq<Step>, bytes: bool)
    requires IsRun(s, ts)
    decreases |ts|
  {
    ts == [] || (Harm(s, ts[0], bytes) == 0 && Harmless(Next(s, ts[0]), ts[1..], bytes))
  }

  predicate AtMost(a: Count, b: Count) { a.pkts <= b.pkts && a.bytes <= b.bytes }

  /** A worker's counters: without clearing, the mark stays behind the counter; on a private
      copy the parameters others read stay empty, and otherwise the copy does. */
  predicate SoundWorker(s: State, w: Worker) {
    && AtMost(ZERO, w.counted) && AtMost(ZERO, w.seen)
    && (s.incremental ==> AtMost(w.last, w.counted) && AtMost(ZERO, w.shared))
    && (if s.copied
        then w.shared == ZERO && w.counted == w.seen && w.hidden == (if w.phase.Published? then w.counted else w.last)
        else w.hidden == ZERO)
  }

  predicate Sound(s: State) {
    forall i :: 0 <= i < |s.workers| ==> SoundWorker(s, s.workers[i])
  }

  lemma {:induction false} SumUpdate(ws: seq<Worker>, i: nat, w: Worker, f: Field, bytes: bool)
    requires i < |ws|
    ensures Sum(ws[i := w], f, bytes) == Sum(ws, f, bytes) + Holds(w, f, bytes) - Holds(ws[i], f, bytes)
    decreases |ws|
  {
    hide Holds;
    if i == 0 {
      assert ws[i := w][1..] == ws[1..];
    } else {
      assert ws[i := w][1..] == ws[1..][i - 1 := w];
      SumUpdate(ws[1..], i - 1, w, f, bytes);
    }
  }

  /** What a step takes out of the worker. */
  function Taken(s: State, w: Worker, t: Step): Count {
    if (t.Collect? && !s.incremental) || t.Signal? then w.shared else ZERO
  }

  /** What the worker holds, and what is taken from it, change by the step's harm. */
  lemma ActsDrift(s: State, w: Worker, t: Step, bytes: bool)
    requires SoundWorker(s, w) && !t.Report? && Enabled(s, t) && w == s.workers[t.i]
    ensures
      var w' := Acts(s, w, t);
      && SoundWorker(s, w')
      && Part(Taken(s, w, t), bytes) + Holds(w', Shared, bytes) + Holds(w', Hidden, bytes) + Holds(w', Waiting, bytes)
         - Holds(w', Seen, bytes)
         == Holds(w, Shared, bytes) + Holds(w, Hidden, bytes) + Holds(w, Waiting, bytes) - Holds(w, Seen, bytes) + Harm(s, t, bytes)
  {
    hide BurstBytes;
  }

  lemma PartPlus(a: Count, b: Count, bytes: bool)
    ensures Part(Plus(a, b), bytes) == Part(a, bytes) + Part(b, bytes) && Part(ZERO, bytes) == 0 && Plus(a, ZERO) == a
  {
  }

  /** Every step keeps the counters sound and moves the drift by its harm. */
  lemma StepDrift(s: State, t: Step, bytes: bool)
    requires Sound(s) && Enabled(s, t)
    ensures Sound(Next(s, t))
    ensures Drift(Next(s, t), bytes) == Drift(s, bytes) + Harm(s, t, bytes)
  {
    hide Sum, Holds, Acts, Part, Plus;
    if t.Report? {
      PartPlus(s.reported, s.total, bytes);
      SameSound(s, Next(s, t));
    } else {
      var w := s.workers[t.i];
      var w' := Acts(s, w, t);
      assert SoundWorker(s, w);
      ActsDrift(s, w, t, bytes);
      PartPlus(s.total, w.shared, bytes);
      SumUpdate(s.workers, t.i, w', Seen, bytes);
      SumUpdate(s.workers, t.i, w', Shared, bytes);
      SumUpdate(s.workers, t.i, w', Hidden, bytes);
      SumUpdate(s.workers, t.i, w', Waiting, bytes);
      hide SoundWorker, Harm;
      OneSound(s, t.i, w');
      SameSound(s.(workers := s.workers[t.i := w']), Next(s, t));
    }
  }

  lemma OneSound(s: State, i: nat, w: Worker)
    requires Sound(s) && i < |s.workers| && SoundWorker(s, w)
    ensures Sound(s.(workers := s.workers[i := w]))
  {
  }

  lemma SameSound(s: State, s': State)
    requires Sound(s) && s'.workers == s.workers && s'.incremental == s.incremental && s'.copied == s.copied
    ensures Sound(s')
  {
  }

  lemma ActsSees(s: State, w: Worker, t: Step, bytes: bool)
    requires !t.Report?
    ensures Holds(Acts(s, w, t), Seen, bytes) ==
            Holds(w, Seen, bytes) + if t.Receive? then (if bytes then BurstBytes(t.lens) else |t.lens|) else 0
  {
    hide BurstBytes;
  }

  /** What the workers have seen after a run is what they had seen and what arrived. */
  lemma {:induction false} RunSees(s: State, ts: seq<Step>, bytes: bool)
    requires IsRun(s, ts)
    ensures Sum(After(s, ts).workers, Seen, bytes) == Sum(s.workers, Seen, bytes) + Received(ts, bytes)
    decreases |ts|
  {
    hide Sum, Holds, Acts;
    if ts != [] {
      var t := ts[0];
      if !t.Report? {
        ActsSees(s, s.workers[t.i], t, bytes);
        SumUpdate(s.workers, t.i, Acts(s, s.workers[t.i], t), Seen, bytes);
      }
      RunSees(Next(s, t), ts[1..], bytes);
    }
  }

  /** So does every run. */
  lemma {:induction false} RunDrift(s: State, ts: seq<Step>, bytes: bool)
    requires Sound(s) && IsRun(s, ts)
    ensures Sound(After(s, ts)) && |After(s, ts).workers| == |s.workers|
    ensures Drift(After(s, ts), bytes) == Drift(s, bytes) + RunHarm(s, ts, bytes)
    ensures Sum(After(s, ts).workers, Seen, bytes) == Sum(s.workers, Seen, bytes) + Received(ts, bytes)
    ensures After(s, ts).copied == s.copied && After(s, ts).incremental == s.incremental
    decreases |ts|
  {
    hide Sound, Drift, Harm;
    RunSees(s, ts, bytes);
    hide Sum, Received;
    if ts != [] {
      StepDrift(s, ts[0], bytes);
      RunDrift(Next(s, ts[0]), ts[1..], bytes);
    }
  }

  /** Signals all err on the same side, so that errors never cancel out. */
  lemma {:induction false} HarmAddsUp(s: State, ts: seq<Step>, bytes: bool)
    requires Sound(s) && IsRun(s, ts)
    ensures if s.incremental then RunHarm(s, ts, bytes) >= 0 else RunHarm(s, ts, bytes) <= 0
    ensures RunHarm(s, ts, bytes) == 0 <==> Harmless(s, ts, bytes)
    ensures s.ticking || s.copied ==> Harmless(s, ts, bytes)
    decreases |ts|
  {
    if ts != [] {
      hide Drift;
      StepDrift(s, ts[0], bytes);
      HarmIsOneSided(s, ts[0], bytes);
      hide Sound, Harm;
      HarmAddsUp(Next(s, ts[0]), ts[1..], bytes);
    }
  }

  lemma HarmIsOneSided(s: State, t: Step, bytes: bool)
    requires Sound(s) && Enabled(s, t)
    ensures if s.incremental then Harm(s, t, bytes) >= 0 else Harm(s, t, bytes) <= 0
    ensures s.ticking || s.copied ==> Harm(s, t, bytes) == 0
  {
    if t.Signal? { assert SoundWorker(s, s.workers[t.i]); }
  }

  lemma {:induction false} FreshSum(ws: seq<Worker>, f: Field, bytes: bool)
    requires forall i :: 0 <= i < |ws| ==> ws[i] == FRESH
    ensures Sum(ws, f, bytes) == 0
  {
    if ws != [] {
      assert Holds(ws[0], f, bytes) == 0;
      hide Holds;
      FreshSum(ws[1..], f, bytes);
    }
  }

  lemma StartSound(ticking: bool, incremental: bool, copied: bool, threads: nat, bytes: bool)
    ensures
      var s := Start(ticking, incremental, copied, threads);
      Sound(s) && Drift(s, bytes) == 0 && Sum(s.workers, Seen, bytes) == 0
  {
    hide Sum;
    var ws := Start(ticking, incremental, copied, threads).workers;
    FreshSum(ws, Seen, bytes);
    FreshSum(ws, Shared, bytes);
    FreshSum(ws, Hidden, bytes);
    FreshSum(ws, Waiting, bytes);
  }

  // ----- what the final gather finds -----

  lemma {:induction false} GatherAdds(s: State, k: nat, bytes: bool)
    requires k <= |s.workers|
    ensures Part(Gather(s, k).total, bytes) == Part(s.total, bytes) + Sum(s.workers[k..], Shared, bytes)
    ensures forall i :: 0 <= i < |s.workers| ==>
              Gather(s, k).workers[i] == if i >= k && !s.incremental then s.workers[i].(shared := ZERO) else s.workers[i]
    decreases |s.workers| - k
  {
    if k < |s.workers| {
      var w := s.workers[k];
      var s' := s.(total := Plus(s.total, w.shared),
                   workers := if s.incremental then s.workers else s.workers[k := w.(shared := ZERO)]);
      GatherAdds(s', k + 1, bytes);
      assert s.workers[k..][1..] == s.workers[k + 1..] == s'.workers[k + 1..];
    }
  }

  /** A worker that has made its last, empty update has nothing unpublished. */
  predicate Finished(w: Worker) { w.phase.Counting? && w.last == w.counted }

  predicate AllFinished(s: State) { forall i :: 0 <= i < |s.workers| ==> Finished(s.workers[i]) }

  /** Nothing passed through any worker. */
  predicate NothingSeen(ws: seq<Worker>, bytes: bool) {
    forall i :: 0 <= i < |ws| ==> Part(ws[i].seen, bytes) == 0
  }

  lemma {:induction false} FinishedSums(s: State, ws: seq<Worker>, bytes: bool)
    requires forall i :: 0 <= i < |ws| ==> Finished(ws[i]) && SoundWorker(s, ws[i])
    ensures Sum(ws, Waiting, bytes) == 0
    ensures Sum(ws, Hidden, bytes) == if s.copied then Sum(ws, Seen, bytes) else 0
    ensures Sum(ws, Seen, bytes) >= 0 && (Sum(ws, Seen, bytes) == 0 <==> NothingSeen(ws, bytes))
  {
    if ws != [] {
      FinishedHolds(s, ws[0], bytes);
      hide Finished, Holds, SoundWorker, Part;
      assert ws == [ws[0]] + ws[1..];
      FinishedSums(s, ws[1..], bytes);
    }
  }

  lemma FinishedHolds(s: State, w: Worker, bytes: bool)
    requires Finished(w) && SoundWorker(s, w)
    ensures Holds(w, Waiting, bytes) == 0 && Holds(w, Seen, bytes) == Part(w.seen, bytes) >= 0
    ensures Holds(w, Hidden, bytes) == if s.copied then Holds(w, Seen, bytes) else 0
  {
  }

  /** For every number of workers, all modes and every interleaving: once all workers have
      made their last update, the reports and the final gather together are what arrived,
      corrected by the harm of every signal and by all that private copies kept back. */
  lemma TotalAfterRun(ticking: bool, incremental: bool, copied: bool, threads: nat, ts: seq<Step>, bytes: bool)
    requires IsRun(Start(ticking, incremental, copied, threads), ts)
    requires AllFinished(After(Start(ticking, incremental, copied, threads), ts))
    ensures
      var start := Start(ticking, incremental, copied, threads);
      var s := After(start, ts);
      Part(s.reported, bytes) + Part(Gather(s, 0).total, bytes)
      == Received(ts, bytes) + RunHarm(start, ts, bytes) - (if copied then Received(ts, bytes) else 0)
  {
    hide Start, Gather, Finished, RunHarm, Sum, Part, Received;
    var start := Start(ticking, incremental, copied, threads);
    var s := After(start, ts);
    assert start.copied == copied by { StartIs(ticking, incremental, copied, threads); }
    StartSound(ticking, incremental, copied, threads, bytes);
    RunDrift(start, ts, bytes);
    assert s.workers[0..] == s.workers;
    GatherAdds(s, 0, bytes);
    FinishedSums(s, s.workers, bytes);
  }

  lemma StartIs(ticking: bool, incremental: bool, copied: bool, threads: nat)
    ensures
      var s := Start(ticking, incremental, copied, threads);
      s.ticking == ticking && s.incremental == incremental && s.copied == copied && |s.workers| == threads
  {
  }

  /** They are exactly what arrived if and only if no worker with a non-zero count ran on a
      private copy and no signal found anything it could count twice or lose.  Under the
      periodic aggregator the first condition is all there is. */
  lemma TotalIsWhatArrivedIff(ticking: bool, incremental: bool, copied: bool, threads: nat, ts: seq<Step>, bytes: bool)
    requires IsRun(Start(ticking, incremental, copied, threads), ts)
    requires AllFinished(After(Start(ticking, incremental, copied, threads), ts))
    ensures
      var start := Start(ticking, incremental, copied, threads);
      var s := After(start, ts);
      && (Part(s.reported, bytes) + Part(Gather(s, 0).total, bytes) == Received(ts, bytes) <==>
          (copied ==> NothingSeen(s.workers, bytes)) && Harmless(start, ts, bytes))
      && (ticking || copied ==> Harmless(start, ts, bytes))
  {
    hide Start, Gather, Finished, RunHarm, Harmless, Sum, Part, Drift, NothingSeen, Received;
    var start := Start(ticking, incremental, copied, threads);
    var s := After(start, ts);
    StartIs(ticking, incremental, copied, threads);
    StartSound(ticking, incremental, copied, threads, bytes);
    RunDrift(start, ts, bytes);
    HarmAddsUp(start, ts, bytes);
    FinishedSums(s, s.workers, bytes);
    TotalAfterRun(ticking, incremental, copied, threads, ts, bytes);
  }

  // ----- one call of the worker's update -----

  /** The steps of counting a burst: publication and settling follow if they are due. */
  function UpdateSteps(s: State, i: nat, lens: seq<nat>): (ts: seq<Step>)
    requires Enabled(s, Receive(i, lens))
  {
    if Counted(s.workers[i], lens).phase.Due? then [Receive(i, lens), Publish(i), Settle(i)] else [Receive(i, lens)]
  }

  /** The worker after one call. */
  function Updated(copied: bool, w: Worker, lens: seq<nat>): Worker {
    var w1 := Counted(w, lens);
    var due := Minus(w1.counted, w1.last);
    if !w1.phase.Due? then w1
    else w1.(shared := if copied then w.shared else Plus(w.shared, due),
             hidden := if copied then Plus(w.hidden, due) else w.hidden,
             last := w1.counted, lastUpdate := 0, phase := Counting)
  }

  /** The steps of a call are a run that changes this worker only and leaves it counting. */
  lemma UpdateRuns(s: State, i: nat, lens: seq<nat>)
    requires Enabled(s, Receive(i, lens))
    ensures
      var ts := UpdateSteps(s, i, lens);
      && IsRun(s, ts) && After(s, ts) == s.(workers := s.workers[i := Updated(s.copied, s.workers[i], lens)])
      && Updated(s.copied, s.workers[i], lens).phase.Counting?
      && (lens == [] ==> Finished(Updated(s.copied, s.workers[i], lens)))
  {
    hide BurstBytes, IsRun, After;
    var ts := UpdateSteps(s, i, lens);
    var s1 := Next(s, Receive(i, lens));
    if s1.workers[i].phase.Due? {
      var s2 := Next(s1, Publish(i));
      var s3 := Next(s2, Settle(i));
      RunOfOne(s, Receive(i, lens));
      RunOfOne(s1, Publish(i));
      RunOfOne(s2, Settle(i));
      RunOfTwo(s1, [Publish(i)], [Settle(i)]);
      RunOfTwo(s, [Receive(i, lens)], [Publish(i)] + [Settle(i)]);
      assert ts == [Receive(i, lens)] + ([Publish(i)] + [Settle(i)]);
    } else {
      RunOfOne(s, Receive(i, lens));
    }
  }

  lemma {:induction false} RunOfTwo(s: State, ts: seq<Step>, us: seq<Step>)
    requires IsRun(s, ts) && IsRun(After(s, ts), us)
    ensures IsRun(s, ts + us) && After(s, ts + us) == After(After(s, ts), us)
    decreases |ts|
  {
    hide Next, Enabled;
    if ts == [] {
      assert ts + us == us;
    } else {
      assert (ts + us)[0] == ts[0] && (ts + us)[1..] == ts[1..] + us;
      RunOfTwo(Next(s, ts[0]), ts[1..], us);
    }
  }

  // ----- the counters and the code that changes them -----

  lemma {:induction false} BurstBytesSnoc(lens: seq<nat>, n: nat)
    ensures BurstBytes(lens + [n]) == BurstBytes(lens) + n
  {
    if lens == [] {
      assert lens + [n] == [n] && [n][1..] == [];
    } else {
      assert (lens + [n])[1..] == lens[1..] + [n];
      BurstBytesSnoc(lens[1..], n);
    }
  }

  lemma NoBytes()
    ensures BurstBytes([]) == 0
  {
  }

  /** The steps that answer a signal, from worker `k` on. */
  function SignalSteps(k: nat, n: nat): seq<Step>
    requires k <= n
    decreases n - k
  {
    if k == n then [Report] else [Signal(k)] + SignalSteps(k + 1, n)
  }

  class Counters {
    const ticking: bool
    const incremental: bool
    const copied: bool
    var packetCnt: int
    var bytesCnt: int
    var threads: seq<Worker>
    ghost var reported: Count

    ghost function Now(): State
      reads this
    {
      State(ticking, incremental, copied, Count(packetCnt, bytesCnt), reported, threads)
    }

    constructor (ticking: bool, incremental: bool, copied: bool, threadCnt: nat)
      ensures Now() == Start(ticking, incremental, copied, threadCnt)
      ensures this.ticking == ticking && this.incremental == incremental && this.copied == copied
    {
      this.ticking, this.incremental, this.copied, packetCnt, bytesCnt := ticking, incremental, copied, 0, 0;
      threads := seq(threadCnt, _ => FRESH);
      reported := ZERO;
    }

    /** One call of a worker's update, with nothing in between: count packet by packet, and
        when that is due publish under the lock and move the marks. */
    method UpdateStatsThread(i: nat, lens: seq<nat>)
      requires Enabled(Now(), Receive(i, lens))
      modifies this`threads
      ensures IsRun(old(Now()), UpdateSteps(old(Now()), i, lens))
      ensures Now() == After(old(Now()), UpdateSteps(old(Now()), i, lens))
      ensures i < |threads| && threads[i].phase.Counting? && (lens == [] ==> Finished(threads[i]))
      ensures threads[i].seen == Count(old(threads[i]).seen.pkts + |lens|, old(threads[i]).seen.bytes + BurstBytes(lens))
      ensures if old(threads[i]).lastUpdate + |lens| > 100000 || lens == [] then Finished(threads[i]) && threads[i].lastUpdate == 0
              else threads[i].shared == old(threads[i]).shared && threads[i].hidden == old(threads[i]).hidden
                   && threads[i].last == old(threads[i]).last && threads[i].lastUpdate == old(threads[i]).lastUpdate + |lens|
    {
      hide BurstBytes, IsRun, After;
      UpdateRuns(Now(), i, lens);
      var w := threads[i];
      var bytes := 0;
      NoBytes();
      for k := 0 to |lens|
        invariant threads == old(threads) && bytes == BurstBytes(lens[..k])
      {
        bytes := bytes + lens[k];
        BurstBytesSnoc(lens[..k], lens[k]);
        assert lens[..k + 1] == lens[..k] + [lens[k]];
      }
      assert lens[..|lens|] == lens;
      w := w.(seen := Plus(w.seen, Count(|lens|, bytes)), counted := Plus(w.counted, Count(|lens|, bytes)),
              lastUpdate := w.lastUpdate + |lens|);
      if w.lastUpdate > 100000 || |lens| == 0 {
        var due := Minus(w.counted, w.last);
        if copied {
          w := w.(hidden := Plus(w.hidden, due));
        } else {
          w := w.(shared := Plus(w.shared, due));
        }
        w := w.(last := w.counted, lastUpdate := 0);
      }
      threads := threads[i := w];
    }

    /** One thread's turn in the aggregator's round, inside that thread's lock. */
    method CollectOne(i: nat)
      requires Enabled(Now(), Collect(i))
      modifies this
      ensures Now() == Next(old(Now()), Collect(i))
      ensures i < |threads| && (if incremental then unchanged(this) else threads[i] == old(threads[i]).(shared := ZERO))
      ensures !incremental ==>
                Count(packetCnt, bytesCnt) == Plus(old(Count(packetCnt, bytesCnt)), old(threads[i]).shared)
    {
      var w := threads[i];
      if !incremental {
        threads := threads[i := w.(shared := ZERO)];
        packetCnt, bytesCnt := packetCnt + w.shared.pkts, bytesCnt + w.shared.bytes;
      }
    }

    /** Answer a signal: gather from every thread and clear its counters, print and clear. */
    method OnSignal()
      requires !ticking
      modifies this
      ensures IsRun(old(Now()), SignalSteps(0, |old(threads)|))
      ensures Now() == After(old(Now()), SignalSteps(0, |old(threads)|))
      ensures |threads| == |old(threads)| && forall i :: 0 <= i < |threads| ==> threads[i] == Cleared(old(threads)[i])
      ensures
        var printed := Count(old(packetCnt + Sum(threads, Shared, false)), old(bytesCnt + Sum(threads, Shared, true)));
        if incremental then Count(packetCnt, bytesCnt) == printed && reported == old(reported)
        else packetCnt == bytesCnt == 0 && reported == Plus(old(reported), printed)
    {
      hide IsRun, After, SignalSteps, Sum;
      var n := |threads|;
      assert threads[0..] == threads;
      ghost var done := [];
      RunOfNone(Now());
      SplitEmpty(n);
      for i := 0 to n
        invariant |threads| == n && threads[i..] == old(threads)[i..] && reported == old(reported)
        invariant forall k :: 0 <= k < i ==> threads[k] == Cleared(old(threads)[k])
        invariant packetCnt + Sum(old(threads)[i..], Shared, false) == old(packetCnt + Sum(threads, Shared, false))
        invariant bytesCnt + Sum(old(threads)[i..], Shared, true) == old(bytesCnt + Sum(threads, Shared, true))
        invariant IsRun(old(Now()), done) && Now() == After(old(Now()), done)
        invariant done + SignalSteps(i, n) == SignalSteps(0, n)
      {
        ghost var now := Now();
        var w := threads[i];
        assert w == old(threads)[i..][0];
        SharedFrom(old(threads), i);
        packetCnt, bytesCnt := packetCnt + w.shared.pkts, bytesCnt + w.shared.bytes;
        if !incremental {
          w := w.(shared := ZERO);
          if !copied {
            w := w.(counted := ZERO);
          }
        }
        threads := threads[i := w];
        assert Now() == Next(now, Signal(i));
        RunOfOne(now, Signal(i));
        RunOfTwo(old(Now()), done, [Signal(i)]);
        SplitSignal(done, i, n);
        done := done + [Signal(i)];
      }
      ghost var now := Now();
      SharedNone(old(threads)[n..]);
      if !incremental {
        reported := Plus(reported, Count(packetCnt, bytesCnt));
        packetCnt, bytesCnt := 0, 0;
      }
      RunOfOne(now, Report);
      RunOfTwo(old(Now()), done, [Report]);
      SplitReport(n);
    }

    /** A thread's counters once it has been asked for them. */
    function Cleared(w: Worker): Worker {
      if incremental then w else if copied then w.(shared := ZERO) else w.(shared := ZERO, counted := ZERO)
    }

    /** Gather from every joined thread. */
    method GatherJoined()
      modifies this
      ensures Now() == Gather(old(Now()), 0)
    {
      hide Gather;
      for i := 0 to |threads|
        invariant |threads| == |old(threads)| && Gather(Now(), i) == Gather(old(Now()), 0)
      {
        GatherStep(Now(), i);
        var w := threads[i];
        packetCnt, bytesCnt := packetCnt + w.shared.pkts, bytesCnt + w.shared.bytes;
        if !incremental {
          threads := threads[i := w.(shared := ZERO)];
        }
      }
      GatherEnd(Now());
    }
  }

  lemma SharedFrom(ws: seq<Worker>, i: nat)
    requires i < |ws|
    ensures Sum(ws[i..], Shared, false) == ws[i].shared.pkts + Sum(ws[i + 1..], Shared, false)
    ensures Sum(ws[i..], Shared, true) == ws[i].shared.bytes + Sum(ws[i + 1..], Shared, true)
  {
    assert ws[i..][1..] == ws[i + 1..];
  }

  lemma SharedNone(ws: seq<Worker>)
    requires ws == []
    ensures Sum(ws, Shared, false) == 0 == Sum(ws, Shared, true)
  {
  }

  lemma RunOfNone(s: State)
    ensures IsRun(s, []) && After(s, []) == s
  {
  }

  lemma RunOfOne(s: State, t: Step)
    requires Enabled(s, t)
    ensures IsRun(s, [t]) && After(s, [t]) == Next(s, t)
  {
    assert [t][1..] == [];
  }

  lemma SplitEmpty(n: nat)
    ensures [] + SignalSteps(0, n) == SignalSteps(0, n)
  {
  }

  lemma SplitSignal(done: seq<Step>, k: nat, n: nat)
    requires k < n
    ensures done + SignalSteps(k, n) == (done + [Signal(k)]) + SignalSteps(k + 1, n)
  {
  }

  lemma SplitReport(n: nat)
    ensures SignalSteps(n, n) == [Report]
  {
  }

  lemma GatherStep(s: State, k: nat)
    requires k < |s.workers|
    ensures
      var w := s.workers[k];
      Gather(s, k) == Gather(s.(total := Plus(s.total, w.shared),
                                workers := if s.incremental then s.workers else s.workers[k := w.(shared := ZERO)]), k + 1)
  {
  }

  lemma GatherEnd(s: State)
    ensures Gather(s, |s.workers|) == s
  {
  }

  // ----- runs on which the totals are wrong -----

  /** A run of one worker from the start, ending finished and gathered, after which the worker
      has seen one packet of 60 bytes. */
  ghost predicate OnePacketRun(c: Counters, ts: seq<Step>)
    reads c
  {
    var start := Start(c.ticking, c.incremental, c.copied, 1);
    && IsRun(start, ts) && AllFinished(After(start, ts)) && c.Now() == Gather(After(start, ts), 0)
    && |c.threads| == 1 && c.threads[0].seen == Count(1, 60)
  }

  /** The counters are where a run from the start of one worker leads. */
  ghost predicate OnRun(c: Counters, ts: seq<Step>)
    reads c
  {
    var start := Start(c.ticking, c.incremental, c.copied, 1);
    IsRun(start, ts) && c.Now() == After(start, ts)
  }

  lemma OneGather(s: State)
    requires |s.workers| == 1
    ensures Gather(s, 0).total == Plus(s.total, s.workers[0].shared)
    ensures Gather(s, 0).workers[0].seen == s.workers[0].seen
  {
    GatherStep(s, 0);
  }

  /** One call of the only worker's update, on a run from `start`. */
  method UpdateOne(c: Counters, lens: seq<nat>, ghost start: State, ghost ts: seq<Step>) returns (ghost us: seq<Step>)
    requires |c.threads| == 1 && c.threads[0].phase.Counting? && IsRun(start, ts) && c.Now() == After(start, ts)
    modifies c`threads
    ensures IsRun(start, us) && c.Now() == After(start, us)
    ensures |c.threads| == 1 && c.threads[0] == Updated(c.copied, old(c.threads[0]), lens)
    ensures c.threads[0].phase.Counting? && (lens == [] ==> Finished(c.threads[0]))
  {
    hide IsRun, After, BurstBytes;
    UpdateRuns(c.Now(), 0, lens);
    us := ts + UpdateSteps(c.Now(), 0, lens);
    RunOfTwo(start, ts, UpdateSteps(c.Now(), 0, lens));
    c.UpdateStatsThread(0, lens);
  }

  /** A signal answered by the only worker. */
  method AskOne(c: Counters, ghost ts: seq<Step>) returns (ghost us: seq<Step>)
    requires OnRun(c, ts) && !c.ticking && !c.incremental && !c.copied && |c.threads| == 1
    modifies c
    ensures OnRun(c, us) && c.packetCnt == c.bytesCnt == 0
    ensures |c.threads| == 1 && c.threads[0] == old(c.threads[0]).(shared := ZERO, counted := ZERO)
    ensures c.reported == Plus(old(c.reported), Plus(old(Count(c.packetCnt, c.bytesCnt)), old(c.threads[0]).shared))
  {
    hide IsRun, After, Start;
    ghost var start := Start(c.ticking, c.incremental, c.copied, 1);
    c.OnSignal();
    us := ts + SignalSteps(0, 1);
    RunOfTwo(start, ts, SignalSteps(0, 1));
    AskRuns(old(c.Now()));
  }

  lemma AskRuns(s: State)
    requires !s.ticking && |s.workers| == 1
    ensures IsRun(s, SignalSteps(0, 1)) && After(s, SignalSteps(0, 1)) == Next(Next(s, Signal(0)), Report)
  {
    hide IsRun, After;
    assert SignalSteps(0, 1) == [Signal(0)] + [Report];
    RunOfOne(s, Signal(0));
    RunOfOne(Next(s, Signal(0)), Report);
    RunOfTwo(s, [Signal(0)], [Report]);
  }

  lemma SixtyBytes()
    ensures BurstBytes([60]) == 60
  {
    assert [60][1..] == [];
  }

  lemma RunEnds(c: Counters, start: State, e: State, ts: seq<Step>)
    requires start == Start(c.ticking, c.incremental, c.copied, 1)
    requires IsRun(start, ts) && e == After(start, ts) && c.Now() == Gather(e, 0)
    requires |e.workers| == 1 && Finished(e.workers[0]) && e.workers[0].seen == Count(1, 60)
    ensures OnePacketRun(c, ts)
  {
    hide IsRun, After, Gather, Finished;
    OneGather(e);
  }

  lemma StartOne(c: Counters)
    requires c.Now() == Start(c.ticking, c.incremental, c.copied, 1)
    ensures c.threads == [FRESH] && c.reported == ZERO && c.packetCnt == c.bytesCnt == 0
  {
  }

  lemma CountsBurst(w: Worker, lens: seq<nat>)
    requires |lens| == 1 && w == FRESH
    ensures
      var burst := Count(1, BurstBytes(lens));
      Counted(w, lens) == Worker(burst, burst, ZERO, ZERO, ZERO, 1, Counting)
  {
    hide BurstBytes;
  }

  lemma CountsOne(copied: bool)
    ensures Updated(copied, FRESH, [60]) == Worker(Count(1, 60), Count(1, 60), ZERO, ZERO, ZERO, 1, Counting)
  {
    CountsBurst(FRESH, [60]);
    SixtyBytes();
  }

  /** A last update publishes whatever is not published. */
  lemma PublishesRest(copied: bool, w: Worker)
    ensures
      var due := Minus(w.counted, w.last);
      Updated(copied, w, []) == w.(shared := if copied then w.shared else Plus(w.shared, due),
                                   hidden := if copied then Plus(w.hidden, due) else w.hidden,
                                   last := w.counted, lastUpdate := 0, phase := Counting)
  {
  }

  /** One worker that has counted one packet. */
  method FirstPacket(c: Counters) returns (ghost ts: seq<Step>)
    requires c.Now() == Start(c.ticking, c.incremental, c.copied, 1)
    modifies c
    ensures OnRun(c, ts) && c.reported == ZERO && c.packetCnt == c.bytesCnt == 0
    ensures |c.threads| == 1 && c.threads[0] == Worker(Count(1, 60), Count(1, 60), ZERO, ZERO, ZERO, 1, Counting)
  {
    hide IsRun, After, Start, Updated;
    RunOfNone(c.Now());
    StartOne(c);
    CountsOne(c.copied);
    ts := UpdateOne(c, [60], c.Now(), []);
  }

  /** The last update, the join and the final gather. */
  method Join(c: Counters, ghost ts: seq<Step>) returns (ghost us: seq<Step>)
    requires OnRun(c, ts) && |c.threads| == 1 && c.threads[0].phase.Counting? && c.threads[0].seen == Count(1, 60)
    modifies c
    ensures OnePacketRun(c, us) && c.reported == old(c.reported)
    ensures
      var w := old(c.threads[0]);
      Count(c.packetCnt, c.bytesCnt) == Plus(Plus(old(Count(c.packetCnt, c.bytesCnt)), w.shared),
                                             if c.copied then ZERO else Minus(w.counted, w.last))
  {
    hide IsRun, After, Start, Updated, Gather, Finished;
    ghost var start := Start(c.ticking, c.incremental, c.copied, 1);
    PublishesRest(c.copied, c.threads[0]);
    us := UpdateOne(c, [], start, ts);
    ghost var e := c.Now();
    OneGather(e);
    c.GatherJoined();
    RunEnds(c, start, e, us);
  }

  /** A worker with a capture of its own sends the packet and makes its last update: the totals
      stay empty, with either aggregator and in either mode. */
  method OwnCaptureIsNotCounted(c: Counters) returns (ghost ts: seq<Step>)
    requires c.copied && c.Now() == Start(c.ticking, c.incremental, c.copied, 1)
    modifies c
    ensures OnePacketRun(c, ts) && c.packetCnt == c.bytesCnt == 0
  {
    hide OnRun, OnePacketRun, Start;
    ts := FirstPacket(c);
    ts := Join(c, ts);
  }

  /** A worker sends the packet and is asked for its counters before it publishes: the packet
      is in no report and not in the final total. */
  method SignalLosesPacket(c: Counters) returns (ghost ts: seq<Step>)
    requires !c.ticking && !c.incremental && !c.copied && c.Now() == Start(c.ticking, c.incremental, c.copied, 1)
    modifies c
    ensures OnePacketRun(c, ts) && c.reported == ZERO && c.packetCnt == c.bytesCnt == 0
  {
    hide OnRun, OnePacketRun, Start;
    ts := FirstPacket(c);
    ts := AskOne(c, ts);
    ts := Join(c, ts);
  }

  /** A worker sends and publishes the packet and is asked for its counters, which reports the
      packet; its last update then takes the packet back from a total of zero, and the final
      total shows 2^64 - 1 packets. */
  method SignalUnderflows(c: Counters) returns (ghost ts: seq<Step>)
    requires !c.ticking && !c.incremental && !c.copied && c.Now() == Start(c.ticking, c.incremental, c.copied, 1)
    modifies c
    ensures OnePacketRun(c, ts) && c.reported == Count(1, 60) && Printed(c.packetCnt) == 0xFFFF_FFFF_FFFF_FFFF
  {
    hide OnRun, OnePacketRun, Start;
    ts := FirstPacket(c);
    ts := Publishes(c, ts);
    ts := AskOne(c, ts);
    ts := Join(c, ts);
  }

  method Publishes(c: Counters, ghost ts: seq<Step>) returns (ghost us: seq<Step>)
    requires OnRun(c, ts) && !c.copied && |c.threads| == 1 && c.threads[0].phase.Counting?
    modifies c`threads
    ensures OnRun(c, us) && |c.threads| == 1
    ensures
      var w := old(c.threads[0]);
      c.threads[0] == w.(shared := Plus(w.shared, Minus(w.counted, w.last)), last := w.counted, lastUpdate := 0)
  {
    hide IsRun, After, Start, Updated;
    PublishesRest(c.copied, c.threads[0]);
    us := UpdateOne(c, [], Start(c.ticking, c.incremental, c.copied, 1), ts);
  }
}
