/** The executor's main-thread loops: barrier rounds on coupled data, and block ranges on
    uncoupled data. */
module ThreadPoolExecutors {
  import opened Pairs
  import opened Scheduling
  import opened ParallelAccessors
  import opened SyncProtocol
  import opened AsynchronousDispatchers
  import opened Execution
  import opened AsyncProtocol

  /** All pairs of a list of rounds, in order. */
  function FlattenRounds(rounds: seq<seq<seq<Pair>>>): seq<Pair> {
    if rounds == [] then [] else FlattenRounds(rounds[..|rounds| - 1]) + Flatten(rounds[|rounds| - 1])
  }

  /** A round worth running: not empty, one batch per worker at most, no item shared between any
      two of its pairs. */
  ghost predicate GoodRound(round: seq<seq<Pair>>, workerCount: nat) {
    ConflictFree(Flatten(round)) && Flatten(round) != [] && |round| <= workerCount
  }

  /** A pair processed in one go, whose effect on the items is not tracked. */
  function OneGo(): Kernel<(), (), ()> {
    Kernel(p => (), (p, l) => true, (p, c, l, a, b) => ((), (), ()))
  }

  /** A run of the barrier system, and where it ends: the pairs processed so far, in order, and the state of
      the lock table. */
  ghost predicate Reaches(job: Job<()>, run: seq<Config<(), (), ()>>, s: Sched, workers: seq<Worker>,
                          processed: seq<Pair>)
  {
    && ValidJob(job) && IsSyncRun(OneGo(), job, run) && |run[0].workers| == |workers|
    && var c := run[|run| - 1];
       c.sched == s && c.workers == workers && LogPairs(c.exec.log) == processed
  }

  /** The main thread has handed out the round `ids`. */
  ghost predicate InRound(job: Job<()>, run: seq<Config<(), (), ()>>, workerCount: nat, s: Sched, ids: seq<seq<Pair>>,
                          processed: seq<Pair>)
  {
    && Round(job.batchSize, workerCount, s.remained, ids)
    && Reaches(job, run, s, Manned(ids, workerCount), processed)
    && run[|run| - 1].calls > 0
  }

  /** Every worker has come back from the round `ids`. */
  ghost predicate AfterBarrier(job: Job<()>, run: seq<Config<(), (), ()>>, workerCount: nat, s: Sched,
                               ids: seq<seq<Pair>>, processed: seq<Pair>)
  {
    Reaches(job, run, s, Returned(ids, workerCount, |ids|), processed)
  }

  /** The workers when the first t of them have come back from the round. */
  function Returned(ids: seq<seq<Pair>>, workerCount: nat, t: nat): seq<Worker> {
    seq(workerCount, u requires 0 <= u < workerCount =>
          if u < |ids| then (if u < t then Asking(ids[u]) else Working(ids[u], 0)) else Asking([]))
  }

  /** Runs barrier rounds until none is left. `rounds[r][t]` is what worker t processed in round r. The
      loop follows the barrier system: a hand-out is a round step, and a round is worked off by finishing
      its pairs. */
  method RunParallelOnCoupledData(pa: ParallelAccessor)
    returns (rounds: seq<seq<seq<Pair>>>, ghost run: seq<Config<(), (), ()>>)
    requires pa.batchSize >= 1 && pa.workerCount >= 1
    requires pa.previouslyLocked == []
    modifies pa
    ensures forall r :: r in rounds ==> GoodRound(r, pa.workerCount)
    ensures multiset(FlattenRounds(rounds)) == multiset(old(pa.remained))
    ensures pa.remained == {} && pa.locked == {}
    ensures IsSyncRun(OneGo(), JobOf(old(pa.remained), pa.batchSize), run) && Stopped(run[|run| - 1])
    ensures LogPairs(run[|run| - 1].exec.log) == FlattenRounds(rounds)
  {
    ghost var job := JobOf(pa.remained, pa.batchSize);
    rounds := [];
    var ids := pa.NextAll();
    assert pa.remained == job.pairs - PairSet(Flatten([]));
    run := FirstRound(job, pa.workerCount, Sched(pa.remained, pa.locked, []), ids);
    while |ids| > 0
      invariant pa.previouslyLocked == ids && pa.locked == ItemsOf(Flatten(ids))
      invariant InRound(job, run, pa.workerCount, Sched(pa.remained, pa.locked, []), ids, FlattenRounds(rounds))
      invariant forall r :: r in rounds ==> GoodRound(r, pa.workerCount)
      decreases |pa.remained|
    {
      ghost var s := Sched(pa.remained, pa.locked, []);
      NotEmpty(ids);
      ShrinkRemaining(pa.remained, Flatten(ids));
      var round;
      round, run := RunRound(ids, pa.workerCount, job, run, s, FlattenRounds(rounds));
      assert (rounds + [round])[..|rounds|] == rounds;
      rounds := rounds + [round];
      ids := pa.NextAll();
      ghost var s' := Sched(pa.remained, pa.locked, []);
      run := NextRound(job, run, pa.workerCount, s, round, FlattenRounds(rounds), ids, s');
    }
    assert ids == [];
    EmptyRoundStops(job, run, pa.workerCount, Sched(pa.remained, pa.locked, []), FlattenRounds(rounds));
  }

  ghost function JobOf(pairs: set<Pair>, batchSize: nat): (job: Job<()>)
    requires batchSize >= 1
    ensures ValidJob(job) && job.pairs == pairs && job.batchSize == batchSize
  {
    RangeExists(pairs);
    var n: nat :| InRange(pairs, n);
    Job(pairs, batchSize, seq(n, _ => ()))
  }

  lemma {:induction false} RangeExists(pairs: set<Pair>)
    ensures exists n: nat :: InRange(pairs, n)
  {
    if pairs == {} {
      assert InRange(pairs, 0);
    } else {
      var p :| p in pairs;
      RangeExists(pairs - {p});
      var n: nat :| InRange(pairs - {p}, n);
      assert InRange(pairs, n + p.i + p.j + 1);
    }
  }

  /** The run with one more step. */
  lemma Extend(job: Job<()>, run: seq<Config<(), (), ()>>, c': Config<(), (), ()>)
    requires IsSyncRun(OneGo(), job, run) && SyncStep(OneGo(), job, run[|run| - 1], c')
    ensures IsSyncRun(OneGo(), job, run + [c'])
  {
  }

  lemma FirstRound(job: Job<()>, workerCount: nat, s: Sched, ids: seq<seq<Pair>>) returns (run: seq<Config<(), (), ()>>)
    requires ValidJob(job) && workerCount >= 1
    requires Round(job.batchSize, workerCount, job.pairs, ids) && s == Sched(job.pairs, ItemsOf(Flatten(ids)), [])
    ensures InRound(job, run, workerCount, s, ids, [])
  {
    var idle := seq(workerCount, _ => Asking([]));
    var c := Config(Sched(job.pairs, {}, []), idle, Exec(job.items0, seq(workerCount, _ => Idle), []), 0);
    assert Returned([], workerCount, 0) == idle;
    ReturnedHeld([], workerCount);
    run := HandOut(job, [c], workerCount, [], [], ids, s);
  }

  lemma NextRound(job: Job<()>, run: seq<Config<(), (), ()>>, workerCount: nat, s: Sched, ids: seq<seq<Pair>>,
                  processed: seq<Pair>, more: seq<seq<Pair>>, s': Sched) returns (run': seq<Config<(), (), ()>>)
    requires AfterBarrier(job, run, workerCount, s, ids, processed) && |ids| <= workerCount && Flatten(ids) != []
    requires Round(job.batchSize, workerCount, s'.remained, more)
    requires s' == Sched(s.remained - PairSet(Flatten(ids)), ItemsOf(Flatten(more)), [])
    ensures InRound(job, run', workerCount, s', more, processed)
  {
    ReturnedHeld(ids, workerCount);
    run' := HandOut(job, run, workerCount, ids, processed, more, s');
  }

  /** Handing out a round is a step of the barrier system. */
  lemma HandOut(job: Job<()>, run: seq<Config<(), (), ()>>, workerCount: nat, ids: seq<seq<Pair>>,
                processed: seq<Pair>, more: seq<seq<Pair>>, s': Sched) returns (run': seq<Config<(), (), ()>>)
    requires ValidJob(job) && IsSyncRun(OneGo(), job, run) && |run[0].workers| == workerCount
    requires var c := run[|run| - 1];
             && c.workers == Returned(ids, workerCount, |ids|) && LogPairs(c.exec.log) == processed
             && Flatten(AllHeld(c.workers)) == Flatten(ids) && (c.calls == 0 || Flatten(ids) != [])
             && s' == Sched(c.sched.remained - PairSet(Flatten(ids)), ItemsOf(Flatten(more)), [])
    requires Round(job.batchSize, workerCount, s'.remained, more)
    ensures InRound(job, run', workerCount, s', more, processed)
  {
    var c := run[|run| - 1];
    SyncRunKeeps(OneGo(), job, run, |run| - 1);
    var c' := RoundStep(job, c, more, workerCount, s');
    Extend(job, run, c');
    run' := run + [c'];
  }

  lemma RoundStep(job: Job<()>, c: Config<(), (), ()>, more: seq<seq<Pair>>, workerCount: nat, s': Sched)
    returns (c': Config<(), (), ()>)
    requires SlotsAgree(c) && AtBarrier(c.workers) && |c.workers| == workerCount
    requires c.calls == 0 || Flatten(AllHeld(c.workers)) != []
    requires s' == Sched(c.sched.remained - PairSet(Flatten(AllHeld(c.workers))), ItemsOf(Flatten(more)), [])
    requires Round(job.batchSize, workerCount, s'.remained, more)
    ensures SyncStep(OneGo(), job, c, c')
    ensures c'.sched == s' && c'.workers == Manned(more, workerCount) && c'.calls == c.calls + 1
    ensures c'.exec.log == c.exec.log
  {
    c' := AfterRound(OneGo(), c, more);
    BeginFirstSlots(OneGo(), c.exec, more, |more|);
    assert RoundBy(OneGo(), job, c, c', more);
  }

  /** When all have come back, they hold the pairs of the round. */
  lemma ReturnedHeld(ids: seq<seq<Pair>>, workerCount: nat)
    requires |ids| <= workerCount
    ensures Flatten(AllHeld(Returned(ids, workerCount, |ids|))) == Flatten(ids)
  {
    HeldPadded(ids, Returned(ids, workerCount, |ids|));
  }

  lemma HeldPadded(ids: seq<seq<Pair>>, workers: seq<Worker>)
    requires |ids| <= |workers|
    requires forall u :: 0 <= u < |workers| ==> workers[u] == Asking(if u < |ids| then ids[u] else [])
    ensures Flatten(AllHeld(workers)) == Flatten(ids)
  {
    var n := |workers| - |ids|;
    HeldAt(ids, workers, ids + seq(n, _ => []));
    FlattenPad(ids, n);
  }

  lemma HeldAt(ids: seq<seq<Pair>>, workers: seq<Worker>, padded: seq<seq<Pair>>)
    requires |padded| == |workers|
    requires forall u :: 0 <= u < |workers| ==> workers[u] == Asking(if u < |ids| then ids[u] else [])
    requires forall u :: 0 <= u < |workers| ==> padded[u] == if u < |ids| then ids[u] else []
    ensures AllHeld(workers) == padded
  {
  }

  lemma NobodyManned(workerCount: nat)
    ensures AtBarrier(Manned([], workerCount)) && Flatten(AllHeld(Manned([], workerCount))) == []
  {
    HeldPadded([], Manned([], workerCount));
  }

  /** An empty round stops the loop with everything executed. */
  lemma EmptyRoundStops(job: Job<()>, run: seq<Config<(), (), ()>>, workerCount: nat, s: Sched, processed: seq<Pair>)
    requires InRound(job, run, workerCount, s, [], processed)
    ensures Stopped(run[|run| - 1]) && s.remained == {}
    ensures multiset(processed) == multiset(job.pairs)
  {
    NobodyManned(workerCount);
    assert Stopped(run[|run| - 1]);
    SyncComplete(OneGo(), job, run, |run| - 1);
  }

  /** Starts one task for each batch of the round and waits for all of them. */
  method RunRound(ids: seq<seq<Pair>>, workerCount: nat, ghost job: Job<()>, ghost run: seq<Config<(), (), ()>>,
                  ghost s: Sched, ghost processed: seq<Pair>)
    returns (round: seq<seq<Pair>>, ghost run': seq<Config<(), (), ()>>)
    requires InRound(job, run, workerCount, s, ids, processed)
    ensures round == ids
    ensures AfterBarrier(job, run', workerCount, s, ids, processed + Flatten(ids))
  {
    round, run' := [], run;
    var workerId := 0;
    assert Returned(ids, workerCount, 0) == Manned(ids, workerCount);
    assert processed + Flatten(ids[..0]) == processed;
    while workerId < workerCount && workerId < |ids|
      invariant 0 <= workerId <= |ids| && round == ids[..workerId]
      invariant Reaches(job, run', s, Returned(ids, workerCount, workerId), processed + Flatten(ids[..workerId]))
    {
      run' := FinishWorker(job, run', s, ids, workerCount, processed, workerId, workerId + 1);
      round := round + [ids[workerId]];
      workerId := workerId + 1;
    }
    assert ids[..|ids|] == ids;
  }

  /** The next worker comes back from the round. */
  lemma FinishWorker(job: Job<()>, run: seq<Config<(), (), ()>>, s: Sched, ids: seq<seq<Pair>>, workerCount: nat,
                     processed: seq<Pair>, t: nat, next: nat) returns (run': seq<Config<(), (), ()>>)
    requires t < |ids| <= workerCount && next == t + 1
    requires Reaches(job, run, s, Returned(ids, workerCount, t), processed + Flatten(ids[..t]))
    ensures Reaches(job, run', s, Returned(ids, workerCount, next), processed + Flatten(ids[..next]))
  {
    var workers := Returned(ids, workerCount, t);
    assert workers[t] == Working(ids[t], 0);
    run' := FinishBatch(job, run, s, workers, processed + Flatten(ids[..t]), t);
    assert ids[t][0..] == ids[t];
    ReturnedNext(ids, workerCount, t, next);
    FlattenNext(ids, t, next);
    assert processed + Flatten(ids[..t]) + ids[t] == processed + Flatten(ids[..next]);
  }

  lemma ReturnedNext(ids: seq<seq<Pair>>, workerCount: nat, t: nat, next: nat)
    requires t < |ids| <= workerCount && next == t + 1
    ensures Returned(ids, workerCount, t)[t := Asking(ids[t])] == Returned(ids, workerCount, next)
  {
  }

  lemma FlattenNext(ids: seq<seq<Pair>>, t: nat, next: nat)
    requires t < |ids| && next == t + 1
    ensures Flatten(ids[..next]) == Flatten(ids[..t]) + ids[t]
  {
    assert ids[..next][..t] == ids[..t];
  }

  /** A worker finishes what is left of its batch, pair by pair. */
  lemma {:induction false} FinishBatch(job: Job<()>, run: seq<Config<(), (), ()>>, s: Sched, workers: seq<Worker>,
                                       processed: seq<Pair>, w: nat) returns (run': seq<Config<(), (), ()>>)
    requires Reaches(job, run, s, workers, processed) && w < |workers| && workers[w].Working?
    ensures workers[w].pos < |workers[w].batch|
    ensures var Working(batch, pos) := workers[w];
            Reaches(job, run', s, workers[w := Asking(batch)], processed + batch[pos..])
    decreases if workers[w].pos < |workers[w].batch| then |workers[w].batch| - workers[w].pos else 0
  {
    var Working(batch, pos) := workers[w];
    run' := FinishNext(job, run, s, workers, processed, w);
    if pos + 1 < |batch| {
      var next := workers[w := Working(batch, pos + 1)];
      run' := FinishBatch(job, run', s, next, processed + [batch[pos]], w);
      assert next[w := Asking(batch)] == workers[w := Asking(batch)];
      assert processed + [batch[pos]] + batch[pos + 1..] == processed + batch[pos..];
    } else {
      assert [batch[pos]] == batch[pos..];
    }
  }

  /** A worker finishes the next pair of its batch. */
  lemma FinishNext(job: Job<()>, run: seq<Config<(), (), ()>>, s: Sched, workers: seq<Worker>, processed: seq<Pair>,
                   w: nat) returns (run': seq<Config<(), (), ()>>)
    requires Reaches(job, run, s, workers, processed) && w < |workers| && workers[w].Working?
    ensures workers[w].pos < |workers[w].batch|
    ensures Reaches(job, run', s, workers[w := AfterPair(workers[w])], processed + [workers[w].batch[workers[w].pos]])
  {
    var c := run[|run| - 1];
    SyncRunKeeps(OneGo(), job, run, |run| - 1);
    var c' := FinishStep(job, c, w);
    Extend(job, run, c');
    run' := run + [c'];
  }

  // ----- Asynchronous workers -----

  /** The run of the transition system that the objects have followed so far ends in their state. */
  ghost predicate Tracks(job: Job<()>, run: seq<Config<(), (), ()>>, s: Sched, workers: seq<Worker>,
                         processed: seq<Pair>)
  {
    && ValidJob(job) && IsRun(OneGo(), job, run) && |run[0].workers| == |workers|
    && var c := run[|run| - 1];
       c.sched == s && c.workers == workers && LogPairs(c.exec.log) == processed
  }

  /** The steps still possible: calls of `next` and pairs to process. */
  ghost function Budget(job: Job<()>, run: seq<Config<(), (), ()>>): int
    requires run != []
  {
    2 * |job.pairs| + |run[0].workers| - run[|run| - 1].calls - |run[|run| - 1].exec.log|
  }

  lemma BudgetLeft(job: Job<()>, run: seq<Config<(), (), ()>>)
    requires ValidJob(job) && IsRun(OneGo(), job, run)
    ensures Budget(job, run) >= 0
  {
    CallsBounded(OneGo(), job, run, |run| - 1);
  }

  lemma TrackStart(job: Job<()>, s: Sched, workers: seq<Worker>) returns (run: seq<Config<(), (), ()>>)
    requires ValidJob(job) && s == Sched(job.pairs, {}, [])
    requires forall w :: 0 <= w < |workers| ==> workers[w] == Asking([])
    ensures Tracks(job, run, s, workers, [])
  {
    run := [Config(s, workers, Exec(job.items0, seq(|workers|, _ => Idle), []), 0)];
  }

  lemma ExtendRun(job: Job<()>, run: seq<Config<(), (), ()>>, c': Config<(), (), ()>)
    requires IsRun(OneGo(), job, run) && Step(OneGo(), job, run[|run| - 1], c')
    ensures IsRun(OneGo(), job, run + [c'])
  {
  }

  lemma TrackCall(job: Job<()>, run: seq<Config<(), (), ()>>, s: Sched, workers: seq<Worker>, processed: seq<Pair>,
                  w: nat, got: seq<Pair>, s': Sched) returns (run': seq<Config<(), (), ()>>)
    requires Tracks(job, run, s, workers, processed)
    requires w < |workers| && workers[w].Asking? && NextCall(job.batchSize, s, workers[w].prev, got, s')
    ensures Tracks(job, run', s', workers[w := if got == [] then Gone else Working(got, 0)], processed)
    ensures Budget(job, run') == Budget(job, run) - 1
  {
    var c := run[|run| - 1];
    RunKeeps(OneGo(), job, run, |run| - 1);
    var c' := CallStep(job, c, w, got, s');
    ExtendRun(job, run, c');
    run' := run + [c'];
  }

  lemma CallStep(job: Job<()>, c: Config<(), (), ()>, w: nat, got: seq<Pair>, s': Sched)
    returns (c': Config<(), (), ()>)
    requires SlotsAgree(c) && w < |c.workers| && c.workers[w].Asking?
    requires NextCall(job.batchSize, c.sched, c.workers[w].prev, got, s')
    ensures Step(OneGo(), job, c, c') && c'.sched == s' && c'.calls == c.calls + 1 && c'.exec.log == c.exec.log
    ensures c'.workers == c.workers[w := if got == [] then Gone else Working(got, 0)]
  {
    c' := AfterCall(OneGo(), c, w, got, s');
    assert Call(OneGo(), job, c, c', w);
    assert StepOf(OneGo(), job, c, c', w);
  }

  lemma TrackFinish(job: Job<()>, run: seq<Config<(), (), ()>>, s: Sched, workers: seq<Worker>, processed: seq<Pair>,
                    w: nat) returns (run': seq<Config<(), (), ()>>)
    requires Tracks(job, run, s, workers, processed)
    requires w < |workers| && workers[w].Working?
    ensures workers[w].pos < |workers[w].batch|
    ensures Tracks(job, run', s, workers[w := AfterPair(workers[w])], processed + [workers[w].batch[workers[w].pos]])
    ensures Budget(job, run') == Budget(job, run) - 1
  {
    var c := run[|run| - 1];
    RunKeeps(OneGo(), job, run, |run| - 1);
    var c' := FinishStep(job, c, w);
    ExtendRun(job, run, c');
    run' := run + [c'];
  }

  /** The worker goes on with the next pair of its batch, or asks again. */
  function AfterPair(worker: Worker): Worker
    requires worker.Working?
  {
    if worker.pos + 1 < |worker.batch| then Working(worker.batch, worker.pos + 1) else Asking(worker.batch)
  }

  lemma FinishIsStep(job: Job<()>, c: Config<(), (), ()>, c': Config<(), (), ()>, w: nat)
    requires FinishPair(OneGo(), c, c', w)
    ensures Step(OneGo(), job, c, c') && SyncStep(OneGo(), job, c, c')
  {
    assert StepOf(OneGo(), job, c, c', w);
  }

  /** Nothing keeps a worker from finishing its pair. */
  lemma CanFinish(job: Job<()>, c: Config<(), (), ()>, w: nat)
    requires SlotsAgree(c) && Simulated(OneGo(), c.exec, job.items0) && w < |c.workers| && c.workers[w].Working?
    ensures CanEnd(OneGo(), c.exec, w)
    ensures c.workers[w].pos < |c.workers[w].batch|
    ensures c.exec.slots[w].p == c.workers[w].batch[c.workers[w].pos]
  {
    assert SlotSimulated(OneGo(), c.exec, w, Serial(OneGo(), c.exec.log, job.items0));
  }

  lemma FinishedWorkers(c: Config<(), (), ()>, w: nat)
    requires w < |c.workers| && w < |c.exec.slots| && c.workers[w].Working? && c.exec.slots[w].Active?
    ensures AfterFinish(OneGo(), c, w).workers == c.workers[w := AfterPair(c.workers[w])]
  {
  }

  /** A pair processed in one go can always be finished, in both modes. */
  lemma FinishStep(job: Job<()>, c: Config<(), (), ()>, w: nat) returns (c': Config<(), (), ()>)
    requires SlotsAgree(c) && Simulated(OneGo(), c.exec, job.items0) && w < |c.workers| && c.workers[w].Working?
    ensures Step(OneGo(), job, c, c') && SyncStep(OneGo(), job, c, c')
    ensures c'.sched == c.sched && c'.calls == c.calls && c'.workers == c.workers[w := AfterPair(c.workers[w])]
    ensures c.workers[w].pos < |c.workers[w].batch|
    ensures LogPairs(c'.exec.log) == LogPairs(c.exec.log) + [c.workers[w].batch[c.workers[w].pos]]
    ensures |c'.exec.log| == |c.exec.log| + 1
  {
    CanFinish(job, c, w);
    c' := AfterFinish(OneGo(), c, w);
    FinishIsStep(job, c, c', w);
    FinishedWorkers(c, w);
    FinishKeepsHeld(OneGo(), c, c', w);
    LogPairsExtend(c.exec.log, Entry(c.exec.slots[w].p, c.exec.slots[w].cs));
  }

  /** One turn of worker w: a call of `next`, or the next pair of its batch. */
  method TakeTurn(d: AsynchronousDispatcher, workers: seq<Worker>, processed: seq<Pair>, w: nat,
                  ghost job: Job<()>, ghost run: seq<Config<(), (), ()>>)
    returns (workers': seq<Worker>, processed': seq<Pair>, ghost run': seq<Config<(), (), ()>>)
    requires d.Ready() && d.base.batchSize == job.batchSize
    requires w < |workers| && !workers[w].Gone?
    requires Tracks(job, run, d.State(), workers, processed)
    modifies d`queue, d.base`locked, d.base`remained
    ensures d.Ready()
    ensures |workers'| == |workers| && workers' == workers[w := workers'[w]]
    ensures Tracks(job, run', d.State(), workers', processed')
    ensures Budget(job, run') == Budget(job, run) - 1
  {
    match workers[w] {
      case Asking(prev) =>
        ghost var s := d.State();
        var got := d.Next(prev);
        workers', processed' := workers[w := if got == [] then Gone else Working(got, 0)], processed;
        run' := TrackCall(job, run, s, workers, processed, w, got, d.State());
      case Working(batch, pos) =>
        run' := TrackFinish(job, run, d.State(), workers, processed, w);
        processed' := processed + [batch[pos]];
        workers' := workers[w := AfterPair(workers[w])];
    }
  }

  /** The worker loops under an arbitrary scheduler: at each turn, any worker that has not left
      either calls the dispatcher or processes the next pair of its batch. The dispatcher object
      and the workers follow the transition system step by step. */
  method RunAsynchronouslyOnCoupledData(d: AsynchronousDispatcher, workerCount: nat) returns (processed: seq<Pair>)
    requires d.Ready() && d.State() == Sched(d.base.remained, {}, []) && workerCount >= 1
    modifies d`queue, d.base`locked, d.base`remained
    ensures multiset(processed) == multiset(old(d.base.remained))
    ensures d.State() == Sched({}, {}, [])
  {
    var workers: seq<Worker> := seq(workerCount, _ => Asking([]));
    processed := [];
    ghost var job := Job(d.base.remained, d.base.batchSize, seq(d.base.itemCount, _ => ()));
    ghost var run := TrackStart(job, d.State(), workers);
    var live := Indices(workerCount);
    while live != {}
      invariant d.Ready() && d.base.batchSize == job.batchSize
      invariant |workers| == workerCount
      invariant forall w: nat :: w in live <==> w < workerCount && !workers[w].Gone?
      invariant Tracks(job, run, d.State(), workers, processed)
      decreases Budget(job, run)
    {
      BudgetLeft(job, run);
      var w :| w in live;
      workers, processed, run := TakeTurn(d, workers, processed, w, job, run);
      if workers[w].Gone? {
        live := live - {w};
      }
      BudgetLeft(job, run);
    }
    NoLostWork(OneGo(), job, run, |run| - 1);
  }

  // ----- Block partition -----

  /** A half-open range of item indices given to one thread. */
  datatype Block = Block(start: nat, end: nat)

  ghost predicate InBlock(b: Block, x: int) {
    b.start <= x < b.end
  }

  ghost predicate Covered(blocks: seq<Block>, x: int) {
    exists t :: 0 <= t < |blocks| && InBlock(blocks[t], x)
  }

  /** Non-empty blocks in increasing order that cover the indices below `low` and no others. */
  ghost predicate Partition(blocks: seq<Block>, low: nat, itemCount: nat) {
    && (forall t :: 0 <= t < |blocks| ==> blocks[t].start < blocks[t].end <= itemCount)
    && (forall t, u :: 0 <= t < u < |blocks| ==> blocks[t].end <= blocks[u].start)
    && (forall t :: 0 <= t < |blocks| ==> blocks[t].end <= low)
    && (forall x :: 0 <= x < low && x < itemCount ==> Covered(blocks, x))
  }

  lemma PartitionGrows(blocks: seq<Block>, low: nat, block: Block, itemCount: nat)
    requires Partition(blocks, low, itemCount) && block.start == low < block.end <= itemCount
    ensures Partition(blocks + [block], block.end, itemCount)
  {
    CoverMore(blocks, block);
    var more := blocks + [block];
    assert forall t :: 0 <= t < |blocks| ==> more[t] == blocks[t];
  }

  function Length(b: Block): int {
    b.end - b.start
  }

  /** No block is longer than the rounded-up quotient, and all but the last are equally long. */
  ghost predicate Balanced(blocks: seq<Block>, itemCount: nat, workerCount: nat) {
    && (forall t :: 0 <= t < |blocks| ==> (Length(blocks[t]) - 1) * workerCount < itemCount)
    && (forall t, u :: 0 <= t < |blocks| - 1 && 0 <= u < |blocks| ==> Length(blocks[t]) >= Length(blocks[u]))
  }

  /** The blocks as the loop computes them. */
  ghost predicate Ranges(blocks: seq<Block>, perThread: nat, itemCount: nat) {
    forall t :: 0 <= t < |blocks| ==> IsRange(blocks[t], t, perThread, itemCount)
  }

  ghost predicate IsRange(b: Block, t: nat, perThread: nat, itemCount: nat) {
    b.start == Offset(t, perThread) < itemCount && b.end == Capped(Offset(t + 1, perThread), itemCount)
  }

  lemma RangesBalanced(blocks: seq<Block>, perThread: nat, itemCount: nat, workerCount: nat)
    requires Ranges(blocks, perThread, itemCount)
    requires itemCount > 0 ==> perThread > 0 && (perThread - 1) * workerCount < itemCount
    ensures Balanced(blocks, itemCount, workerCount)
  {
    forall t | 0 <= t < |blocks|
      ensures Length(blocks[t]) <= perThread && (t + 1 < |blocks| ==> Length(blocks[t]) == perThread)
    {
      assert Offset(t + 1, perThread) == Offset(t, perThread) + perThread;
      assert IsRange(blocks[t], t, perThread, itemCount);
      assert t + 1 < |blocks| ==> IsRange(blocks[t + 1], t + 1, perThread, itemCount);
    }
    forall t | 0 <= t < |blocks| ensures (Length(blocks[t]) - 1) * workerCount < itemCount {
      TimesOrder(Length(blocks[t]) - 1, perThread - 1, workerCount);
    }
  }

  lemma TimesOrder(a: int, b: int, n: nat)
    requires a <= b
    ensures a * n <= b * n
  {
  }

  /** Splits [0, itemCount) evenly over at most `workerCount` threads. */
  method RunParallelInBlock(itemCount: nat, workerCount: nat) returns (blocks: seq<Block>)
    requires workerCount >= 1
    ensures |blocks| <= workerCount && Partition(blocks, itemCount, itemCount)
    ensures Balanced(blocks, itemCount, workerCount)
  {
    var perThread := ItemsPerThread(itemCount, workerCount);
    blocks := Split(itemCount, workerCount, perThread);
    RangesBalanced(blocks, perThread, itemCount, workerCount);
  }

  lemma RangesGrow(blocks: seq<Block>, block: Block, perThread: nat, itemCount: nat, t: nat)
    requires Ranges(blocks, perThread, itemCount) && t == |blocks| && IsRange(block, t, perThread, itemCount)
    ensures Ranges(blocks + [block], perThread, itemCount)
  {
    var more := blocks + [block];
    forall u | 0 <= u < |more| ensures IsRange(more[u], u, perThread, itemCount) {
      if u < t {
        assert IsRange(blocks[u], u, perThread, itemCount);
      }
    }
  }

  /** The loop over the threads. */
  method Split(itemCount: nat, workerCount: nat, perThread: nat) returns (blocks: seq<Block>)
    requires Offset(workerCount, perThread) >= itemCount && (itemCount > 0 ==> perThread > 0)
    ensures |blocks| <= workerCount && Partition(blocks, itemCount, itemCount)
    ensures Ranges(blocks, perThread, itemCount)
  {
    blocks := [];
    var t := 0;
    ghost var low := 0;
    while t < workerCount
      invariant 0 <= t <= workerCount && |blocks| == t
      invariant low == Capped(Offset(t, perThread), itemCount)
      invariant Partition(blocks, low, itemCount) && Ranges(blocks, perThread, itemCount)
    {
      var none, block := RangeOf(t, perThread, itemCount);
      if none {
        break;
      }
      PartitionGrows(blocks, low, block, itemCount);
      RangesGrow(blocks, block, perThread, itemCount, t);
      blocks := blocks + [block];
      t, low := t + 1, block.end;
    }
    assert low == itemCount;
  }

  /** The quotient, rounded up. */
  method ItemsPerThread(itemCount: nat, workerCount: nat) returns (perThread: nat)
    requires workerCount >= 1
    ensures Offset(workerCount, perThread) >= itemCount
    ensures itemCount > 0 ==> perThread > 0 && (perThread - 1) * workerCount < itemCount
  {
    perThread := itemCount / workerCount;
    if itemCount > 0 && itemCount % workerCount != 0 {
      perThread := perThread + 1;
    }
    Enough(itemCount, workerCount, perThread);
  }

  /** The range of task t, cut at the item count; there is none if it starts beyond. */
  method RangeOf(t: nat, perThread: nat, itemCount: nat) returns (none: bool, block: Block)
    requires itemCount > 0 ==> perThread > 0
    ensures none <==> Offset(t, perThread) >= itemCount
    ensures !none ==> block.start == Offset(t, perThread) < block.end == Capped(Offset(t + 1, perThread), itemCount)
  {
    var start := StartOf(t, perThread);
    var end := StartOf(t + 1, perThread);
    if start >= itemCount {
      return true, Block(start, end);
    }
    if end > itemCount {
      end := itemCount;
    }
    return false, Block(start, end);
  }

  function Capped(x: nat, limit: nat): nat {
    if x < limit then x else limit
  }

  /** Where block t starts. */
  function Offset(t: nat, perThread: nat): nat {
    if t == 0 then 0 else Offset(t - 1, perThread) + perThread
  }

  lemma {:induction false} OffsetIsProduct(t: nat, perThread: nat)
    ensures Offset(t, perThread) == t * perThread
  {
    if t > 0 {
      OffsetIsProduct(t - 1, perThread);
      assert t * perThread == (t - 1) * perThread + perThread;
    }
  }

  method StartOf(t: nat, perThread: nat) returns (start: nat)
    ensures start == Offset(t, perThread)
  {
    OffsetIsProduct(t, perThread);
    start := t * perThread;
  }

  lemma CoverMore(blocks: seq<Block>, block: Block)
    ensures forall x :: Covered(blocks + [block], x) <==> Covered(blocks, x) || InBlock(block, x)
  {
    var more := blocks + [block];
    forall x ensures Covered(more, x) <==> Covered(blocks, x) || InBlock(block, x) {
      if t :| 0 <= t < |blocks| && InBlock(blocks[t], x) {
        assert InBlock(more[t], x);
      }
      if InBlock(block, x) {
        assert InBlock(more[|blocks|], x);
      }
    }
  }

  lemma Enough(itemCount: nat, workerCount: nat, perThread: nat)
    requires workerCount >= 1
    requires perThread == itemCount / workerCount + (if itemCount > 0 && itemCount % workerCount != 0 then 1 else 0)
    ensures Offset(workerCount, perThread) >= itemCount
    ensures itemCount > 0 ==> perThread > 0
  {
    OffsetIsProduct(workerCount, perThread);
    assert itemCount == workerCount * (itemCount / workerCount) + itemCount % workerCount;
  }
}
