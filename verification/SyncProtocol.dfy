/** The synchronous (barrier) run: the main thread hands one batch to each worker, waits for all of
    them, retires the round and repeats until a round comes back empty. Within a round, workers
    interleave freely; a worker that finished its batch waits at the barrier. */
module SyncProtocol {
  import opened Pairs
  import opened Scheduling
  import opened Execution
  import opened ParallelAccessors
  import opened AsyncProtocol

  // ----- Rounds as lists of batches -----

  lemma {:induction false} BatchInFlatten(batches: seq<seq<Pair>>, t: nat)
    requires t < |batches|
    ensures ItemsOf(batches[t]) <= ItemsOf(Flatten(batches))
    ensures forall p :: p in batches[t] ==> p in Flatten(batches)
  {
    var front := batches[..|batches| - 1];
    ItemsOfConcat(Flatten(front), batches[|batches| - 1]);
    if t < |front| {
      BatchInFlatten(front, t);
    }
  }

  lemma {:induction false} FlattenMember(batches: seq<seq<Pair>>, p: Pair) returns (t: nat)
    requires p in Flatten(batches)
    ensures t < |batches| && p in batches[t]
  {
    var last := |batches| - 1;
    if p in batches[last] {
      t := last;
    } else {
      t := FlattenMember(batches[..last], p);
    }
  }

  /** The batches of a conflict-free round are conflict-free and pairwise item-disjoint. */
  lemma {:induction false} RoundBatchesApart(batches: seq<seq<Pair>>)
    requires ConflictFree(Flatten(batches))
    ensures forall t :: 0 <= t < |batches| ==> ConflictFree(batches[t])
    ensures forall t, u :: 0 <= t < u < |batches| ==> ItemsOf(batches[t]) !! ItemsOf(batches[u])
  {
    if batches != [] {
      var last := |batches| - 1;
      var front := batches[..last];
      ConflictFreeConcat(Flatten(front), batches[last]);
      RoundBatchesApart(front);
      forall t, u | 0 <= t < u < |batches| ensures ItemsOf(batches[t]) !! ItemsOf(batches[u]) {
        if u == last {
          BatchInFlatten(front, t);
          assert front[t] == batches[t];
        } else {
          assert front[t] == batches[t] && front[u] == batches[u];
        }
      }
      forall t | 0 <= t < |batches| ensures ConflictFree(batches[t]) {
        assert t < last ==> front[t] == batches[t];
      }
    }
  }

  lemma {:induction false} FlattenItems(batches: seq<seq<Pair>>)
    ensures ItemsOf(Flatten(batches)) == HeldItems(batches)
  {
    if batches != [] {
      var last := |batches| - 1;
      var front := batches[..last];
      FlattenItems(front);
      ItemsOfConcat(Flatten(front), batches[last]);
      forall x | x in HeldItems(batches) ensures x in HeldItems(front) + ItemsOf(batches[last]) {
        var t :| 0 <= t < |batches| && x in ItemsOf(batches[t]);
        assert t < last ==> front[t] == batches[t];
      }
      forall x | x in HeldItems(front) ensures x in HeldItems(batches) {
        var t :| 0 <= t < |front| && x in ItemsOf(front[t]);
        assert front[t] == batches[t];
      }
    }
  }

  lemma {:induction false} FlattenPad(batches: seq<seq<Pair>>, n: nat)
    ensures Flatten(batches + seq(n, _ => [])) == Flatten(batches)
  {
    var padded := batches + seq(n, _ => []);
    if n == 0 {
      assert padded == batches;
    } else {
      assert padded[..|padded| - 1] == batches + seq(n - 1, _ => []);
      FlattenPad(batches, n - 1);
    }
  }

  // ----- Steps -----

  /** The workers of a new round: worker t takes batch t, the others stay at the barrier. */
  function Manned(batches: seq<seq<Pair>>, workerCount: nat): seq<Worker> {
    seq(workerCount, t requires 0 <= t < workerCount =>
          if t < |batches| && batches[t] != [] then Working(batches[t], 0) else Asking([]))
  }

  ghost predicate NonEmpty(batches: seq<seq<Pair>>) {
    forall t :: 0 <= t < |batches| ==> batches[t] != []
  }

  /** The first `n` workers of the round start on the first pair of their batch. */
  ghost function BeginFirst<L, S, C>(k: Kernel<L, S, C>, e: Exec<L, S, C>, batches: seq<seq<Pair>>, n: nat)
    : (r: Exec<L, S, C>)
    requires n <= |batches| <= |e.slots|
    requires NonEmpty(batches)
    ensures |r.slots| == |e.slots|
  {
    if n == 0 then e else Begin(k, BeginFirst(k, e, batches, n - 1), n - 1, batches[n - 1][0])
  }

  ghost predicate AtBarrier(workers: seq<Worker>) {
    forall w :: 0 <= w < |workers| ==> workers[w].Asking?
  }

  /** The previous round is retired and every worker with a batch starts on it. */
  ghost function AfterRound<L, S, C>(k: Kernel<L, S, C>, c: Config<L, S, C>, batches: seq<seq<Pair>>): Config<L, S, C>
    requires |batches| <= |c.workers| == |c.exec.slots| && NonEmpty(batches)
  {
    Config(Sched(c.sched.remained - PairSet(Flatten(AllHeld(c.workers))), ItemsOf(Flatten(batches)), []),
           Manned(batches, |c.workers|), BeginFirst(k, c.exec, batches, |batches|), c.calls + 1)
  }

  ghost predicate RoundBy<L, S, C>(k: Kernel<L, S, C>, job: Job<S>, c: Config<L, S, C>, c': Config<L, S, C>,
                                   batches: seq<seq<Pair>>)
  {
    && AtBarrier(c.workers)
    && (c.calls == 0 || Flatten(AllHeld(c.workers)) != [])
    && |c.exec.slots| == |c.workers|
    && Round(job.batchSize, |c.workers|, c'.sched.remained, batches)
    && c' == AfterRound(k, c, batches)
  }

  ghost predicate SyncStep<L, S, C(!new)>(k: Kernel<L, S, C>, job: Job<S>, c: Config<L, S, C>, c': Config<L, S, C>) {
    || (exists batches :: RoundBy(k, job, c, c', batches))
    || (exists w, choice :: SubStep(k, c, c', w, choice))
    || (exists w :: FinishPair(k, c, c', w))
  }

  ghost predicate SyncInitial<L, S, C>(job: Job<S>, c: Config<L, S, C>) {
    Initial(job, c) && c.sched == Sched(job.pairs, {}, [])
  }

  ghost predicate IsSyncRun<L, S, C(!new)>(k: Kernel<L, S, C>, job: Job<S>, run: seq<Config<L, S, C>>) {
    && run != [] && SyncInitial(job, run[0])
    && forall t :: 0 <= t < |run| - 1 ==> SyncStep(k, job, run[t], run[t + 1])
  }

  /** The main loop has stopped: the last round was empty. */
  ghost predicate Stopped<L, S, C>(c: Config<L, S, C>) {
    c.calls > 0 && AtBarrier(c.workers) && Flatten(AllHeld(c.workers)) == []
  }

  ghost predicate RoundCountInv<L, S, C>(job: Job<S>, c: Config<L, S, C>) {
    && c.calls + |c.sched.remained| <= |job.pairs| + (if c.calls == 0 then 0 else 1)
    && (c.calls > 0 && Flatten(AllHeld(c.workers)) == [] ==> c.sched.remained == {})
    && c.sched.queue == []
    && forall w :: 0 <= w < |c.workers| ==> !c.workers[w].Gone?
  }

  ghost predicate SyncInv<L, S, C>(k: Kernel<L, S, C>, job: Job<S>, c: Config<L, S, C>) {
    && SlotsAgree(c)
    && SchedInv(job, c)
    && Simulated(k, c.exec, job.items0)
    && WorkInv(job, c)
    && RoundCountInv(job, c)
  }

  // ----- A round keeps the invariants -----

  lemma MannedHeld(batches: seq<seq<Pair>>, workerCount: nat)
    requires |batches| <= workerCount && NonEmpty(batches)
    ensures AllHeld(Manned(batches, workerCount)) == batches + seq(workerCount - |batches|, _ => [])
    ensures Flatten(AllHeld(Manned(batches, workerCount))) == Flatten(batches)
  {
    var held, padded := AllHeld(Manned(batches, workerCount)), batches + seq(workerCount - |batches|, _ => []);
    forall t | 0 <= t < workerCount ensures held[t] == padded[t] {
    }
    assert held == padded;
    FlattenPad(batches, workerCount - |batches|);
  }

  lemma RoundKeepsSched<L, S, C>(k: Kernel<L, S, C>, job: Job<S>, c: Config<L, S, C>, c': Config<L, S, C>,
                                 batches: seq<seq<Pair>>)
    requires SchedInv(job, c) && RoundBy(k, job, c, c', batches)
    ensures SchedInv(job, c')
  {
    var held := AllHeld(c'.workers);
    MannedHeld(batches, |c.workers|);
    RoundBatchesApart(held);
    FlattenItems(held);
    forall w, p | 0 <= w < |held| && p in held[w] ensures p in c'.sched.remained {
      BatchInFlatten(held, w);
    }
  }

  lemma {:induction false} BeginFirstSlots<L, S, C>(k: Kernel<L, S, C>, e: Exec<L, S, C>, batches: seq<seq<Pair>>,
                                                    n: nat)
    requires n <= |batches| <= |e.slots|
    requires NonEmpty(batches)
    ensures var e' := BeginFirst(k, e, batches, n);
            && e'.items == e.items && e'.log == e.log && |e'.slots| == |e.slots|
            && (forall t :: 0 <= t < n ==> e'.slots[t] == Active(batches[t][0], k.start(batches[t][0]), []))
            && (forall t :: n <= t < |e.slots| ==> e'.slots[t] == e.slots[t])
  {
    if n > 0 {
      BeginFirstSlots(k, e, batches, n - 1);
    }
  }

  ghost predicate AllIdle<L, S, C>(e: Exec<L, S, C>) {
    forall w :: 0 <= w < |e.slots| ==> e.slots[w].Idle?
  }

  lemma BeginOneKeeps<L, S, C>(k: Kernel<L, S, C>, e: Exec<L, S, C>, before: Exec<L, S, C>, batches: seq<seq<Pair>>,
                               t: nat, items0: seq<S>)
    requires t < |batches| <= |e.slots| && NonEmpty(batches) && AllIdle(e)
    requires ConflictFree(Flatten(batches)) && InRange(PairSet(Flatten(batches)), |items0|)
    requires before == BeginFirst(k, e, batches, t) && |e.items| == |items0| && Simulated(k, before, items0)
    ensures Simulated(k, Begin(k, before, t, batches[t][0]), items0)
  {
    CanBeginNext(k, e, batches, t);
    BeginKeeps(k, before, t, batches[t][0], items0);
  }

  lemma BeginOneMore<L, S, C>(k: Kernel<L, S, C>, e: Exec<L, S, C>, batches: seq<seq<Pair>>, t: nat, n: nat)
    requires n == t + 1 <= |batches| <= |e.slots| && NonEmpty(batches)
    ensures BeginFirst(k, e, batches, n) == Begin(k, BeginFirst(k, e, batches, t), t, batches[t][0])
  {
  }

  lemma {:induction false} BeginFirstKeeps<L, S, C>(k: Kernel<L, S, C>, e: Exec<L, S, C>, batches: seq<seq<Pair>>,
                                                    n: nat, items0: seq<S>)
    requires n <= |batches| <= |e.slots|
    requires NonEmpty(batches) && AllIdle(e)
    requires ConflictFree(Flatten(batches)) && InRange(PairSet(Flatten(batches)), |items0|)
    requires Simulated(k, e, items0)
    ensures Simulated(k, BeginFirst(k, e, batches, n), items0)
  {
    if n > 0 {
      var t := n - 1;
      BeginFirstKeeps(k, e, batches, t, items0);
      BeginOneKeeps(k, e, BeginFirst(k, e, batches, t), batches, t, items0);
      BeginOneMore(k, e, batches, t, n);
    }
  }

  /** The first pair of each batch is free of the pairs the workers before it started on. */
  lemma CanBeginNext<L, S, C>(k: Kernel<L, S, C>, e: Exec<L, S, C>, batches: seq<seq<Pair>>, n: nat)
    requires n < |batches| <= |e.slots| && NonEmpty(batches) && AllIdle(e)
    requires ConflictFree(Flatten(batches)) && InRange(PairSet(Flatten(batches)), |e.items|)
    ensures CanBegin(BeginFirst(k, e, batches, n), n, batches[n][0])
  {
    BeginFirstSlots(k, e, batches, n);
    RoundBatchesApart(batches);
    BatchInFlatten(batches, n);
    var before, p := BeginFirst(k, e, batches, n), batches[n][0];
    assert p in PairSet(Flatten(batches));
    ItemsOfMember(batches[n], p);
    forall v | 0 <= v < |before.slots| && before.slots[v].Active? ensures Items(before.slots[v].p) !! Items(p) {
      ItemsOfMember(batches[v], batches[v][0]);
    }
  }

  lemma RoundKeepsExec<L, S, C>(k: Kernel<L, S, C>, job: Job<S>, c: Config<L, S, C>, c': Config<L, S, C>,
                                batches: seq<seq<Pair>>)
    requires ValidJob(job) && SlotsAgree(c) && Simulated(k, c.exec, job.items0)
    requires SchedInv(job, c') && RoundBy(k, job, c, c', batches)
    ensures SlotsAgree(c') && Simulated(k, c'.exec, job.items0)
  {
    BeginFirstSlots(k, c.exec, batches, |batches|);
    BeginFirstKeeps(k, c.exec, batches, |batches|, job.items0);
  }

  lemma RoundKeepsWork<L, S, C>(k: Kernel<L, S, C>, job: Job<S>, c: Config<L, S, C>, c': Config<L, S, C>,
                                batches: seq<seq<Pair>>)
    requires WorkInv(job, c) && RoundBy(k, job, c, c', batches)
    requires c'.exec.log == c.exec.log
    requires SchedInv(job, c)
    ensures WorkInv(job, c')
  {
    var held := AllHeld(c.workers);
    var done := LogPairs(c.exec.log);
    forall p | p in Flatten(held) ensures p in done {
      var w := FlattenMember(held, p);
      assert p in Finished(c.workers[w]);
    }
    forall p | p in c'.sched.remained ensures p in done <==> FinishedBySome(c'.workers, p) {
      if v :| 0 <= v < |c.workers| && p in Finished(c.workers[v]) {
        assert p in held[v];
        BatchInFlatten(held, v);
      }
      forall v | 0 <= v < |c'.workers| ensures Finished(c'.workers[v]) == [] {
      }
    }
  }

  lemma NotEmpty(batches: seq<seq<Pair>>)
    requires batches != [] && NonEmpty(batches)
    ensures Flatten(batches) != []
  {
  }

  lemma ShrinkRemaining(before: set<Pair>, round: seq<Pair>)
    requires round != [] && forall p :: p in round ==> p in before
    ensures |before - PairSet(round)| < |before|
  {
    assert round[0] in PairSet(round);
    SubsetSize(before - PairSet(round), before - {round[0]});
  }

  lemma HeldRemain(s: Sched, held: seq<seq<Pair>>)
    requires InFlight(s, held)
    ensures forall p :: p in Flatten(held) ==> p in s.remained
  {
    forall p | p in Flatten(held) ensures p in s.remained {
      var w := FlattenMember(held, p);
    }
  }

  lemma RoundKeepsCount<L, S, C>(k: Kernel<L, S, C>, job: Job<S>, c: Config<L, S, C>, c': Config<L, S, C>,
                                 batches: seq<seq<Pair>>)
    requires SchedInv(job, c) && RoundCountInv(job, c) && RoundBy(k, job, c, c', batches)
    ensures RoundCountInv(job, c')
    ensures c.calls > 0 ==> |c'.sched.remained| < |c.sched.remained|
  {
    var flat := Flatten(AllHeld(c.workers));
    MannedHeld(batches, |c.workers|);
    HeldRemain(c.sched, AllHeld(c.workers));
    if flat != [] {
      ShrinkRemaining(c.sched.remained, flat);
    }
    SubsetSize(c'.sched.remained, c.sched.remained);
    if batches != [] {
      NotEmpty(batches);
    }
  }

  lemma RoundKeeps<L, S, C>(k: Kernel<L, S, C>, job: Job<S>, c: Config<L, S, C>, c': Config<L, S, C>,
                            batches: seq<seq<Pair>>)
    requires ValidJob(job) && SyncInv(k, job, c) && RoundBy(k, job, c, c', batches)
    ensures SyncInv(k, job, c')
  {
    RoundKeepsSched(k, job, c, c', batches);
    RoundKeepsExec(k, job, c, c', batches);
    BeginFirstSlots(k, c.exec, batches, |batches|);
    RoundKeepsWork(k, job, c, c', batches);
    RoundKeepsCount(k, job, c, c', batches);
  }

  // ----- Whole runs -----

  lemma SyncFinishKeeps<L, S, C>(k: Kernel<L, S, C>, job: Job<S>, c: Config<L, S, C>, c': Config<L, S, C>, w: nat)
    requires ValidJob(job) && SyncInv(k, job, c) && FinishPair(k, c, c', w)
    ensures SyncInv(k, job, c')
  {
    FinishKeepsHeld(k, c, c', w);
    FinishKeepsExec(k, job, c, c', w);
    FinishKeepsWork(k, job, c, c', w);
  }

  lemma SyncSubStepKeeps<L, S, C>(k: Kernel<L, S, C>, job: Job<S>, c: Config<L, S, C>, c': Config<L, S, C>, w: nat,
                                  choice: C)
    requires SyncInv(k, job, c) && SubStep(k, c, c', w, choice)
    ensures SyncInv(k, job, c')
  {
    SubStepAgrees(k, c, c', w, choice);
    MicroKeeps(k, c.exec, w, choice, job.items0);
  }

  lemma SyncStepKeeps<L, S, C(!new)>(k: Kernel<L, S, C>, job: Job<S>, c: Config<L, S, C>, c': Config<L, S, C>)
    requires ValidJob(job) && SyncInv(k, job, c) && SyncStep(k, job, c, c')
    ensures SyncInv(k, job, c')
    ensures |c'.workers| == |c.workers|
  {
    if batches :| RoundBy(k, job, c, c', batches) {
      RoundKeeps(k, job, c, c', batches);
    } else if w, choice :| SubStep(k, c, c', w, choice) {
      SyncSubStepKeeps(k, job, c, c', w, choice);
    } else {
      var w :| FinishPair(k, c, c', w);
      SyncFinishKeeps(k, job, c, c', w);
    }
  }

  lemma {:induction false} SyncRunKeeps<L, S, C(!new)>(k: Kernel<L, S, C>, job: Job<S>, run: seq<Config<L, S, C>>,
                                                       t: nat)
    requires ValidJob(job) && IsSyncRun(k, job, run) && t < |run|
    ensures SyncInv(k, job, run[t])
    ensures |run[t].workers| == |run[0].workers|
  {
    if t == 0 {
      InitialInv(k, job, run[0]);
    } else {
      SyncRunKeeps(k, job, run, t - 1);
      assert SyncStep(k, job, run[t - 1], run[t - 1 + 1]);
      SyncStepKeeps(k, job, run[t - 1], run[t]);
    }
  }

  /** The barrier mode starts at most one round per pair and a last, empty one. */
  lemma RoundsBounded<L, S, C(!new)>(k: Kernel<L, S, C>, job: Job<S>, run: seq<Config<L, S, C>>, t: nat)
    requires ValidJob(job) && IsSyncRun(k, job, run) && t < |run|
    ensures run[t].calls <= |job.pairs| + 1
  {
    SyncRunKeeps(k, job, run, t);
  }

  /** When the main loop stops, every pair was executed exactly once, and the items are as the
      serial run in completion order leaves them. */
  lemma SyncComplete<L, S, C(!new)>(k: Kernel<L, S, C>, job: Job<S>, run: seq<Config<L, S, C>>, t: nat)
    requires ValidJob(job) && IsSyncRun(k, job, run) && t < |run|
    requires Stopped(run[t])
    ensures run[t].sched.remained == {}
    ensures multiset(LogPairs(run[t].exec.log)) == multiset(job.pairs)
    ensures LogInRange(run[t].exec.log, |job.items0|)
    ensures CompleteLog(k, run[t].exec.log, job.items0)
    ensures run[t].exec.items == Serial(k, run[t].exec.log, job.items0)
  {
    SyncRunKeeps(k, job, run, t);
    var c := run[t];
    Serializable(k, c.exec, job.items0);
    var done := LogPairs(c.exec.log);
    NoDuplicatesMultiset(done);
    assert PairSet(done) == job.pairs;
  }

  /** Progress: until the main loop stops, a worker can take a step or the next round can start. */
  lemma SyncProgress<L, S, C(!new)>(k: Kernel<L, S, C>, job: Job<S>, c: Config<L, S, C>, choice: C)
    returns (c': Config<L, S, C>)
    requires ValidJob(job) && SyncInv(k, job, c) && |c.workers| >= 1 && !Stopped(c)
    ensures SyncStep(k, job, c, c')
  {
    if w: nat :| w < |c.workers| && c.workers[w].Working? {
      c' := WorkerProgress(k, job, c, w, choice);
    } else {
      var batches := RoundExists(job.batchSize, |c.workers|, c.sched.remained - PairSet(Flatten(AllHeld(c.workers))));
      c' := AfterRound(k, c, batches);
      assert RoundBy(k, job, c, c', batches);
    }
  }

  lemma WorkerProgress<L, S, C(!new)>(k: Kernel<L, S, C>, job: Job<S>, c: Config<L, S, C>, w: nat, choice: C)
    returns (c': Config<L, S, C>)
    requires SlotsAgree(c) && Simulated(k, c.exec, job.items0) && w < |c.workers| && c.workers[w].Working?
    ensures SyncStep(k, job, c, c')
  {
    assert SlotSimulated(k, c.exec, w, Serial(k, c.exec.log, job.items0));
    if k.done(c.exec.slots[w].p, c.exec.slots[w].l) {
      c' := AfterFinish(k, c, w);
      assert FinishPair(k, c, c', w);
    } else {
      c' := c.(exec := Micro(k, c.exec, w, choice));
      assert SubStep(k, c, c', w, choice);
    }
  }

  /** Some batch can always be taken. */
  lemma BatchExists(batchSize: nat, remained: set<Pair>, locked: set<nat>) returns (got: seq<Pair>)
    ensures Taken(batchSize, remained, locked, got)
  {
    var news := SelectionExists(remained, locked);
    got := news;
    if |news| > batchSize {
      got := news[..batchSize];
      assert news == got + news[batchSize..];
      ConflictFreeConcat(got, news[batchSize..]);
      ItemsOfConcat(got, news[batchSize..]);
    }
  }

  /** Some round can always be handed out. */
  lemma RoundExists(batchSize: nat, workerCount: nat, remained: set<Pair>) returns (batches: seq<seq<Pair>>)
    requires batchSize >= 1 && workerCount >= 1
    ensures Round(batchSize, workerCount, remained, batches)
  {
    batches := FillingExists(batchSize, workerCount, remained);
    FilledRound(remained, ItemsOf(Flatten(batches)), batchSize, batches, workerCount);
  }

  lemma {:induction false} FillingExists(batchSize: nat, t: nat, remained: set<Pair>) returns (batches: seq<seq<Pair>>)
    requires batchSize >= 1
    ensures Filling(remained, ItemsOf(Flatten(batches)), batchSize, batches, t)
  {
    batches := [];
    if t > 0 {
      batches := FillingExists(batchSize, t - 1, remained);
      var locked := ItemsOf(Flatten(batches));
      var got := BatchExists(batchSize, remained, locked);
      NothingReturned(remained, locked);
      if got != [] {
        AnotherBatch(remained, locked, batchSize, batches, t - 1, got, t);
        batches := batches + [got];
      }
    }
  }

  /** Both modes execute the same pairs the same number of times. */
  lemma ModesAgree<L, S, C(!new)>(k: Kernel<L, S, C>, job: Job<S>, sync: seq<Config<L, S, C>>,
                                  async: seq<Config<L, S, C>>)
    requires ValidJob(job) && IsSyncRun(k, job, sync) && IsRun(k, job, async)
    requires Stopped(sync[|sync| - 1])
    requires |async[0].workers| >= 1 && AllGone(async[|async| - 1].workers)
    ensures multiset(LogPairs(sync[|sync| - 1].exec.log)) == multiset(LogPairs(async[|async| - 1].exec.log))
  {
    SyncComplete(k, job, sync, |sync| - 1);
    NoLostWork(k, job, async, |async| - 1);
  }
}
