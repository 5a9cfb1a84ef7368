/** The asynchronous run: workers that loop over `next(prev)`, process the batch they get pair by
    pair, and leave for good on an empty batch. `next` is one atomic step (it holds the mutex);
    processing a pair is a series of sub-steps that interleave freely with the other workers. */
module AsyncProtocol {
  import opened Pairs
  import opened Scheduling
  import opened Execution

  datatype Worker = Asking(prev: seq<Pair>) | Working(batch: seq<Pair>, pos: nat) | Gone

  datatype Config<L, S, C> = Config(sched: Sched, workers: seq<Worker>, exec: Exec<L, S, C>, calls: nat)

  /** What is fixed during a run. */
  datatype Job<S> = Job(pairs: set<Pair>, batchSize: nat, items0: seq<S>)

  ghost predicate ValidJob<S>(job: Job<S>) {
    job.batchSize >= 1 && InRange(job.pairs, |job.items0|)
  }

  /** The pairs a worker holds locks for. */
  function Held(worker: Worker): seq<Pair> {
    match worker
    case Asking(prev) => prev
    case Working(batch, _) => batch
    case Gone => []
  }

  function AllHeld(workers: seq<Worker>): seq<seq<Pair>> {
    seq(|workers|, w requires 0 <= w < |workers| => Held(workers[w]))
  }

  /** The held pairs a worker has already processed. */
  function Finished(worker: Worker): seq<Pair> {
    match worker
    case Asking(prev) => prev
    case Working(batch, pos) => if pos <= |batch| then batch[..pos] else batch
    case Gone => []
  }

  function LogPairs<C>(log: seq<Entry<C>>): seq<Pair> {
    seq(|log|, t requires 0 <= t < |log| => log[t].p)
  }

  // ----- Steps -----

  ghost predicate Initial<L, S, C>(job: Job<S>, c: Config<L, S, C>) {
    && (c.sched == Sched(job.pairs, {}, []) || Refilled(Sched(job.pairs, {}, []), c.sched))
    && (forall w :: 0 <= w < |c.workers| ==> c.workers[w] == Asking([]))
    && c.exec.items == job.items0 && c.exec.log == []
    && |c.exec.slots| == |c.workers|
    && (forall w :: 0 <= w < |c.workers| ==> c.exec.slots[w].Idle?)
    && c.calls == 0
  }

  /** Worker w has been given the batch `got`: it starts on the first pair, or leaves. */
  function AfterCall<L, S, C>(k: Kernel<L, S, C>, c: Config<L, S, C>, w: nat, got: seq<Pair>, s': Sched)
    : Config<L, S, C>
    requires w < |c.workers| && w < |c.exec.slots|
  {
    if got == [] then Config(s', c.workers[w := Gone], c.exec, c.calls + 1)
    else Config(s', c.workers[w := Working(got, 0)], Begin(k, c.exec, w, got[0]), c.calls + 1)
  }

  ghost predicate Call<L, S, C>(k: Kernel<L, S, C>, job: Job<S>, c: Config<L, S, C>, c': Config<L, S, C>, w: nat) {
    && w < |c.workers| == |c'.workers| && w < |c.exec.slots| && c.workers[w].Asking?
    && var got := Held(c'.workers[w]);
       && NextCall(job.batchSize, c.sched, c.workers[w].prev, got, c'.sched)
       && c' == AfterCall(k, c, w, got, c'.sched)
  }

  ghost predicate SubStep<L, S, C>(k: Kernel<L, S, C>, c: Config<L, S, C>, c': Config<L, S, C>, w: nat, choice: C) {
    && w < |c.workers| && c.workers[w].Working?
    && CanMicro(k, c.exec, w)
    && c' == c.(exec := Micro(k, c.exec, w, choice))
  }

  /** Worker w has processed a pair: it goes on with the next pair of its batch, or asks again. */
  function AfterFinish<L, S, C>(k: Kernel<L, S, C>, c: Config<L, S, C>, w: nat): Config<L, S, C>
    requires w < |c.workers| && w < |c.exec.slots| && c.workers[w].Working? && c.exec.slots[w].Active?
  {
    var Working(batch, pos) := c.workers[w];
    var ended := End(c.exec, w);
    if pos + 1 < |batch|
    then c.(workers := c.workers[w := Working(batch, pos + 1)], exec := Begin(k, ended, w, batch[pos + 1]))
    else c.(workers := c.workers[w := Asking(batch)], exec := ended)
  }

  ghost predicate FinishPair<L, S, C>(k: Kernel<L, S, C>, c: Config<L, S, C>, c': Config<L, S, C>, w: nat) {
    && w < |c.workers| && c.workers[w].Working?
    && CanEnd(k, c.exec, w)
    && c' == AfterFinish(k, c, w)
  }

  ghost predicate StepOf<L, S, C(!new)>(k: Kernel<L, S, C>, job: Job<S>, c: Config<L, S, C>, c': Config<L, S, C>,
                                        w: nat)
  {
    Call(k, job, c, c', w) || (exists choice :: SubStep(k, c, c', w, choice)) || FinishPair(k, c, c', w)
  }

  ghost predicate Step<L, S, C(!new)>(k: Kernel<L, S, C>, job: Job<S>, c: Config<L, S, C>, c': Config<L, S, C>) {
    exists w :: StepOf(k, job, c, c', w)
  }

  /** A run: any finite sequence of configurations from an initial one, one step at a time. */
  ghost predicate IsRun<L, S, C(!new)>(k: Kernel<L, S, C>, job: Job<S>, run: seq<Config<L, S, C>>) {
    && run != [] && Initial(job, run[0])
    && forall t :: 0 <= t < |run| - 1 ==> Step(k, job, run[t], run[t + 1])
  }

  // ----- Invariants -----

  /** Worker and slot agree on the pair in progress. */
  ghost predicate SlotsAgree<L, S, C>(c: Config<L, S, C>) {
    && |c.exec.slots| == |c.workers|
    && forall w :: 0 <= w < |c.workers| ==>
         match c.workers[w]
         case Working(batch, pos) => pos < |batch| && c.exec.slots[w].Active? && c.exec.slots[w].p == batch[pos]
         case _ => c.exec.slots[w].Idle?
  }

  ghost predicate SchedInv<L, S, C>(job: Job<S>, c: Config<L, S, C>) {
    InFlight(c.sched, AllHeld(c.workers)) && c.sched.remained <= job.pairs
  }

  ghost predicate FinishedBySome(workers: seq<Worker>, p: Pair) {
    exists w :: 0 <= w < |workers| && p in Finished(workers[w])
  }

  /** Bookkeeping: no pair is executed twice, a pair leaves the remaining set only after it was
      executed, and an executed pair that still remains is waiting to be retired by its worker. */
  ghost predicate WorkInv<L, S, C>(job: Job<S>, c: Config<L, S, C>) {
    var done := LogPairs(c.exec.log);
    && NoDuplicates(done)
    && (forall p :: p in done ==> p in job.pairs)
    && (forall p :: p in job.pairs ==> p in c.sched.remained || p in done)
    && (forall p :: p in c.sched.remained ==> (p in done <==> FinishedBySome(c.workers, p)))
  }

  function Started(workers: seq<Worker>): nat {
    if workers == [] then 0
    else Started(workers[..|workers| - 1]) + if workers[|workers| - 1] == Asking([]) then 0 else 1
  }

  ghost predicate CallInv<L, S, C>(job: Job<S>, c: Config<L, S, C>) {
    c.calls + |c.sched.remained| <= |job.pairs| + Started(c.workers)
  }

  ghost predicate AllGone(workers: seq<Worker>) {
    forall w :: 0 <= w < |workers| ==> workers[w].Gone?
  }

  /** If every worker has left, nothing was left behind. */
  ghost predicate ExitInv<L, S, C>(c: Config<L, S, C>) {
    AllGone(c.workers) ==> c.workers == [] || (c.sched.queue == [] && c.sched.remained == {})
  }

  ghost predicate Inv<L, S, C>(k: Kernel<L, S, C>, job: Job<S>, c: Config<L, S, C>) {
    && SlotsAgree(c)
    && SchedInv(job, c)
    && Simulated(k, c.exec, job.items0)
    && WorkInv(job, c)
    && CallInv(job, c)
    && ExitInv(c)
  }

  // ----- Start -----

  lemma {:induction false} NoneStarted(workers: seq<Worker>)
    requires forall w :: 0 <= w < |workers| ==> workers[w] == Asking([])
    ensures Started(workers) == 0
  {
    if workers != [] {
      NoneStarted(workers[..|workers| - 1]);
    }
  }

  lemma InitialInv<L, S, C>(k: Kernel<L, S, C>, job: Job<S>, c: Config<L, S, C>)
    requires ValidJob(job) && Initial(job, c)
    ensures Inv(k, job, c)
  {
    var held := AllHeld(c.workers);
    var s0 := Sched(job.pairs, {}, []);
    assert InFlight(s0, held);
    if c.sched != s0 {
      RefillKeeps(s0, c.sched, held);
    }
    StartSimulated(k, c.exec, job.items0);
    NoneStarted(c.workers);
  }

  // ----- Call -----

  lemma HeldUpdate(workers: seq<Worker>, w: nat, worker: Worker)
    requires w < |workers|
    ensures AllHeld(workers[w := worker]) == AllHeld(workers)[w := Held(worker)]
  {
  }

  lemma {:induction false} StartedUpdate(workers: seq<Worker>, w: nat, worker: Worker)
    requires w < |workers| && worker != Asking([])
    ensures Started(workers[w := worker]) == Started(workers) + if workers[w] == Asking([]) then 1 else 0
  {
    var last := |workers| - 1;
    if w == last {
      assert workers[w := worker][..last] == workers[..last];
    } else {
      assert workers[w := worker][..last] == workers[..last][w := worker];
      StartedUpdate(workers[..last], w, worker);
    }
  }

  lemma CallKeepsSched<L, S, C>(k: Kernel<L, S, C>, job: Job<S>, c: Config<L, S, C>, c': Config<L, S, C>, w: nat)
    requires SchedInv(job, c) && Call(k, job, c, c', w)
    ensures SchedInv(job, c')
  {
    var got := Held(c'.workers[w]);
    HeldUpdate(c.workers, w, c'.workers[w]);
    NextKeepsInFlight(job.batchSize, c.sched, AllHeld(c.workers), w, got, c'.sched);
  }

  /** The pair a worker starts with shares no item with any pair in progress. */
  lemma BatchIsFree<L, S, C>(job: Job<S>, c: Config<L, S, C>, w: nat, p: Pair)
    requires ValidJob(job) && SlotsAgree(c) && SchedInv(job, c)
    requires w < |c.workers| && p in Held(c.workers[w])
    requires |c.exec.items| == |job.items0|
    ensures p.i < |c.exec.items| && p.j < |c.exec.items|
    ensures forall v :: 0 <= v < |c.workers| && v != w && c.exec.slots[v].Active? ==>
              Items(c.exec.slots[v].p) !! Items(p)
  {
    var held := AllHeld(c.workers);
    assert held[w] == Held(c.workers[w]);
    ItemsOfMember(held[w], p);
    forall v | 0 <= v < |c.workers| && v != w && c.exec.slots[v].Active?
      ensures Items(c.exec.slots[v].p) !! Items(p)
    {
      assert c.workers[v].Working? && held[v] == c.workers[v].batch;
      ItemsOfMember(held[v], c.exec.slots[v].p);
      assert ItemsOf(held[v]) !! ItemsOf(held[w]);
    }
  }

  lemma CallKeepsSlots<L, S, C>(k: Kernel<L, S, C>, job: Job<S>, c: Config<L, S, C>, c': Config<L, S, C>, w: nat)
    requires SlotsAgree(c) && Call(k, job, c, c', w)
    ensures SlotsAgree(c')
  {
  }

  lemma CallKeepsExec<L, S, C>(k: Kernel<L, S, C>, job: Job<S>, c: Config<L, S, C>, c': Config<L, S, C>, w: nat)
    requires ValidJob(job) && SlotsAgree(c) && SchedInv(job, c') && Call(k, job, c, c', w)
    requires Simulated(k, c.exec, job.items0)
    ensures SlotsAgree(c')
    ensures Simulated(k, c'.exec, job.items0)
  {
    var got := Held(c'.workers[w]);
    CallKeepsSlots(k, job, c, c', w);
    if got != [] {
      BatchIsFree(job, c', w, got[0]);
      assert forall v :: 0 <= v < |c.workers| && v != w ==> c'.exec.slots[v] == c.exec.slots[v];
      BeginKeeps(k, c.exec, w, got[0], job.items0);
    }
  }

  lemma CallKeepsWork<L, S, C>(k: Kernel<L, S, C>, job: Job<S>, c: Config<L, S, C>, c': Config<L, S, C>, w: nat)
    requires SchedInv(job, c) && WorkInv(job, c) && Call(k, job, c, c', w)
    ensures WorkInv(job, c')
  {
    var prev := c.workers[w].prev;
    var done := LogPairs(c.exec.log);
    assert c'.sched.remained == c.sched.remained - PairSet(prev);
    assert c'.exec.log == c.exec.log;
    assert AllHeld(c.workers)[w] == prev;
    forall p | p in prev ensures p in done {
      assert p in Finished(c.workers[w]);
    }
    forall p | p in c'.sched.remained ensures p in done <==> FinishedBySome(c'.workers, p) {
      assert p !in prev;
      if v :| 0 <= v < |c.workers| && p in Finished(c.workers[v]) {
        assert v != w && c'.workers[v] == c.workers[v];
      }
      if v :| 0 <= v < |c'.workers| && p in Finished(c'.workers[v]) {
        assert v != w && c'.workers[v] == c.workers[v];
      }
    }
  }

  lemma CallKeepsCount<L, S, C>(k: Kernel<L, S, C>, job: Job<S>, c: Config<L, S, C>, c': Config<L, S, C>, w: nat)
    requires SchedInv(job, c) && CallInv(job, c) && Call(k, job, c, c', w)
    ensures CallInv(job, c')
  {
    var prev := c.workers[w].prev;
    StartedUpdate(c.workers, w, c'.workers[w]);
    assert c'.sched.remained == c.sched.remained - PairSet(prev);
    if prev != [] {
      assert AllHeld(c.workers)[w] == prev;
      assert prev[0] in PairSet(prev) && prev[0] in c.sched.remained;
      assert c'.sched.remained <= c.sched.remained - {prev[0]};
      SubsetSize(c'.sched.remained, c.sched.remained - {prev[0]});
    }
  }

  lemma CallKeepsExit<L, S, C>(k: Kernel<L, S, C>, job: Job<S>, c: Config<L, S, C>, c': Config<L, S, C>, w: nat)
    requires ValidJob(job) && SchedInv(job, c) && Call(k, job, c, c', w)
    ensures ExitInv(c')
  {
    if AllGone(c'.workers) {
      var held := AllHeld(c.workers);
      forall v | 0 <= v < |held| && v != w ensures held[v] == [] {
        assert c'.workers[v] == c.workers[v];
      }
      if p :| p in c'.sched.remained {
        EmptyHandedOnlyIfBlocked(job.batchSize, c.sched, held, w, c'.sched, p);
      }
    }
  }

  lemma CallKeeps<L, S, C>(k: Kernel<L, S, C>, job: Job<S>, c: Config<L, S, C>, c': Config<L, S, C>, w: nat)
    requires ValidJob(job) && Inv(k, job, c) && Call(k, job, c, c', w)
    ensures Inv(k, job, c')
  {
    CallKeepsSched(k, job, c, c', w);
    CallKeepsExec(k, job, c, c', w);
    CallKeepsWork(k, job, c, c', w);
    CallKeepsCount(k, job, c, c', w);
    CallKeepsExit(k, job, c, c', w);
  }

  // ----- Sub-step -----

  lemma SubStepAgrees<L, S, C>(k: Kernel<L, S, C>, c: Config<L, S, C>, c': Config<L, S, C>, w: nat, choice: C)
    requires SlotsAgree(c) && SubStep(k, c, c', w, choice)
    ensures SlotsAgree(c')
    ensures c'.sched == c.sched && c'.workers == c.workers && c'.calls == c.calls && c'.exec.log == c.exec.log
  {
  }

  lemma SubStepKeeps<L, S, C>(k: Kernel<L, S, C>, job: Job<S>, c: Config<L, S, C>, c': Config<L, S, C>, w: nat,
                              choice: C)
    requires Inv(k, job, c) && SubStep(k, c, c', w, choice)
    ensures Inv(k, job, c')
  {
    SubStepAgrees(k, c, c', w, choice);
    MicroKeeps(k, c.exec, w, choice, job.items0);
  }

  // ----- Finishing a pair -----

  lemma FinishKeepsHeld<L, S, C>(k: Kernel<L, S, C>, c: Config<L, S, C>, c': Config<L, S, C>, w: nat)
    requires FinishPair(k, c, c', w)
    ensures AllHeld(c'.workers) == AllHeld(c.workers)
    ensures c'.sched == c.sched && c'.calls == c.calls
    ensures c'.workers == c.workers[w := c'.workers[w]]
    ensures c'.exec.log == c.exec.log + [Entry(c.exec.slots[w].p, c.exec.slots[w].cs)]
  {
    HeldUpdate(c.workers, w, c'.workers[w]);
    assert AllHeld(c.workers)[w] == Held(c.workers[w]);
  }

  lemma FinishKeepsSlots<L, S, C>(k: Kernel<L, S, C>, c: Config<L, S, C>, c': Config<L, S, C>, w: nat)
    requires SlotsAgree(c) && FinishPair(k, c, c', w)
    ensures SlotsAgree(c')
  {
  }

  /** The next pair of a batch shares no item with what the other workers are processing. */
  lemma NextPairIsFree<L, S, C>(job: Job<S>, c: Config<L, S, C>, w: nat, p: Pair)
    requires ValidJob(job) && SlotsAgree(c) && SchedInv(job, c)
    requires w < |c.workers| && c.workers[w].Working? && p in c.workers[w].batch
    requires |c.exec.items| == |job.items0|
    ensures CanBegin(End(c.exec, w), w, p)
  {
    var ended := End(c.exec, w);
    BatchIsFree(job, c, w, p);
    forall v | 0 <= v < |ended.slots| && ended.slots[v].Active? ensures Items(ended.slots[v].p) !! Items(p) {
      assert v != w && ended.slots[v] == c.exec.slots[v];
    }
  }

  lemma FinishSimulated<L, S, C>(k: Kernel<L, S, C>, job: Job<S>, c: Config<L, S, C>, w: nat)
    requires ValidJob(job) && SlotsAgree(c) && SchedInv(job, c) && Simulated(k, c.exec, job.items0)
    requires w < |c.workers| && c.workers[w].Working? && CanEnd(k, c.exec, w)
    ensures Simulated(k, AfterFinish(k, c, w).exec, job.items0)
  {
    var Working(batch, pos) := c.workers[w];
    EndKeeps(k, c.exec, w, job.items0);
    if pos + 1 < |batch| {
      NextPairIsFree(job, c, w, batch[pos + 1]);
      BeginKeeps(k, End(c.exec, w), w, batch[pos + 1], job.items0);
    }
  }

  lemma FinishKeepsExec<L, S, C>(k: Kernel<L, S, C>, job: Job<S>, c: Config<L, S, C>, c': Config<L, S, C>, w: nat)
    requires ValidJob(job) && SlotsAgree(c) && SchedInv(job, c) && FinishPair(k, c, c', w)
    requires Simulated(k, c.exec, job.items0)
    ensures SlotsAgree(c')
    ensures Simulated(k, c'.exec, job.items0)
  {
    FinishKeepsSlots(k, c, c', w);
    FinishSimulated(k, job, c, w);
  }

  /** A pair in progress was not executed before. */
  lemma InProgressIsNew<L, S, C>(job: Job<S>, c: Config<L, S, C>, w: nat)
    requires SlotsAgree(c) && SchedInv(job, c) && WorkInv(job, c)
    requires w < |c.workers| && c.workers[w].Working?
    ensures c.exec.slots[w].p in c.sched.remained
    ensures c.exec.slots[w].p !in LogPairs(c.exec.log)
  {
    var Working(batch, pos) := c.workers[w];
    var held := AllHeld(c.workers);
    var p := batch[pos];
    assert held[w] == batch;
    if v :| 0 <= v < |c.workers| && p in Finished(c.workers[v]) {
      assert held[v] == Held(c.workers[v]);
      if v != w {
        assert ItemsOf(held[v]) !! ItemsOf(held[w]);
        Scheduling.Apart(held[v], held[w], p);
      }
    }
  }

  lemma LogPairsExtend<C>(log: seq<Entry<C>>, next: Entry<C>)
    ensures LogPairs(log + [next]) == LogPairs(log) + [next.p]
  {
  }

  lemma FinishedUpdate(workers: seq<Worker>, w: nat, worker: Worker, p: Pair, q: Pair)
    requires w < |workers| && Finished(worker) == Finished(workers[w]) + [p]
    ensures FinishedBySome(workers[w := worker], q) <==> FinishedBySome(workers, q) || q == p
  {
    var more := workers[w := worker];
    assert p in Finished(worker) && more[w] == worker;
    if v :| 0 <= v < |workers| && q in Finished(workers[v]) {
      assert q in Finished(more[v]);
    }
    if v :| 0 <= v < |more| && q in Finished(more[v]) {
      assert v != w ==> more[v] == workers[v];
    }
  }

  lemma FinishKeepsWork<L, S, C>(k: Kernel<L, S, C>, job: Job<S>, c: Config<L, S, C>, c': Config<L, S, C>, w: nat)
    requires SlotsAgree(c) && SchedInv(job, c) && WorkInv(job, c) && FinishPair(k, c, c', w)
    ensures WorkInv(job, c')
  {
    var Working(batch, pos) := c.workers[w];
    var p := c.exec.slots[w].p;
    FinishKeepsHeld(k, c, c', w);
    InProgressIsNew(job, c, w);
    LogPairsExtend(c.exec.log, Entry(p, c.exec.slots[w].cs));
    assert batch[..pos + 1] == batch[..pos] + [p];
    assert pos + 1 == |batch| ==> batch[..pos + 1] == batch;
    forall q ensures FinishedBySome(c'.workers, q) <==> FinishedBySome(c.workers, q) || q == p {
      FinishedUpdate(c.workers, w, c'.workers[w], p, q);
    }
  }

  lemma FinishKeeps<L, S, C>(k: Kernel<L, S, C>, job: Job<S>, c: Config<L, S, C>, c': Config<L, S, C>, w: nat)
    requires ValidJob(job) && Inv(k, job, c) && FinishPair(k, c, c', w)
    ensures Inv(k, job, c')
  {
    FinishKeepsHeld(k, c, c', w);
    FinishKeepsExec(k, job, c, c', w);
    FinishKeepsWork(k, job, c, c', w);
    StartedUpdate(c.workers, w, c'.workers[w]);
    assert !c'.workers[w].Gone?;
  }

  // ----- Whole runs -----

  lemma StepKeeps<L, S, C(!new)>(k: Kernel<L, S, C>, job: Job<S>, c: Config<L, S, C>, c': Config<L, S, C>)
    requires ValidJob(job) && Inv(k, job, c) && Step(k, job, c, c')
    ensures Inv(k, job, c')
    ensures |c'.workers| == |c.workers|
  {
    var w :| StepOf(k, job, c, c', w);
    if Call(k, job, c, c', w) {
      CallKeeps(k, job, c, c', w);
    } else if FinishPair(k, c, c', w) {
      FinishKeeps(k, job, c, c', w);
    } else {
      var choice :| SubStep(k, c, c', w, choice);
      SubStepKeeps(k, job, c, c', w, choice);
    }
  }

  lemma {:induction false} RunKeeps<L, S, C(!new)>(k: Kernel<L, S, C>, job: Job<S>, run: seq<Config<L, S, C>>, t: nat)
    requires ValidJob(job) && IsRun(k, job, run) && t < |run|
    ensures Inv(k, job, run[t])
    ensures |run[t].workers| == |run[0].workers|
  {
    if t == 0 {
      InitialInv(k, job, run[0]);
    } else {
      RunKeeps(k, job, run, t - 1);
      assert Step(k, job, run[t - 1], run[t - 1 + 1]);
      StepKeeps(k, job, run[t - 1], run[t]);
    }
  }

  /** In every reachable state, pairs being processed at the same time share no item. */
  lemma ConcurrentPairsApart<L, S, C(!new)>(k: Kernel<L, S, C>, job: Job<S>, run: seq<Config<L, S, C>>, t: nat, v: nat,
                                            w: nat)
    requires ValidJob(job) && IsRun(k, job, run) && t < |run|
    requires v < w < |run[t].workers| && run[t].workers[v].Working? && run[t].workers[w].Working?
    ensures run[t].workers[v].pos < |run[t].workers[v].batch| && run[t].workers[w].pos < |run[t].workers[w].batch|
    ensures var a, b := run[t].workers[v], run[t].workers[w];
            Items(a.batch[a.pos]) !! Items(b.batch[b.pos])
  {
    RunKeeps(k, job, run, t);
    assert Execution.Apart(run[t].exec);
  }

  /** In every reachable state, the locked items are exactly the items of the pairs queued or held,
      and these pairs are remaining pairs that share no item. */
  lemma LocksAreInFlight<L, S, C(!new)>(k: Kernel<L, S, C>, job: Job<S>, run: seq<Config<L, S, C>>, t: nat)
    requires ValidJob(job) && IsRun(k, job, run) && t < |run|
    ensures InFlight(run[t].sched, AllHeld(run[t].workers))
  {
    RunKeeps(k, job, run, t);
  }

  /** No pair is ever executed twice, in any run. */
  lemma ExecutedAtMostOnce<L, S, C(!new)>(k: Kernel<L, S, C>, job: Job<S>, run: seq<Config<L, S, C>>, t: nat)
    requires ValidJob(job) && IsRun(k, job, run) && t < |run|
    ensures NoDuplicates(LogPairs(run[t].exec.log))
    ensures forall p :: p in LogPairs(run[t].exec.log) ==> p in job.pairs
  {
    RunKeeps(k, job, run, t);
  }

  lemma {:induction false} StartedBound(workers: seq<Worker>)
    ensures Started(workers) <= |workers|
  {
    if workers != [] {
      StartedBound(workers[..|workers| - 1]);
    }
  }

  /** Termination bound: a run never calls `next` more often than once per pair and worker. */
  lemma CallsBounded<L, S, C(!new)>(k: Kernel<L, S, C>, job: Job<S>, run: seq<Config<L, S, C>>, t: nat)
    requires ValidJob(job) && IsRun(k, job, run) && t < |run|
    ensures run[t].calls <= |job.pairs| + |run[0].workers|
    ensures |run[t].exec.log| <= |job.pairs|
  {
    RunKeeps(k, job, run, t);
    StartedBound(run[t].workers);
    var done := LogPairs(run[t].exec.log);
    NoDuplicatesSize(done);
    SubsetSize(PairSet(done), job.pairs);
  }

  /** No lost work: once every worker has left (each on an empty batch, possibly while others were
      still busy), nothing remains, nothing is queued or locked, every pair was executed exactly
      once, and the items are as the serial run in completion order leaves them. */
  lemma NoLostWork<L, S, C(!new)>(k: Kernel<L, S, C>, job: Job<S>, run: seq<Config<L, S, C>>, t: nat)
    requires ValidJob(job) && IsRun(k, job, run) && t < |run|
    requires |run[0].workers| >= 1 && AllGone(run[t].workers)
    ensures run[t].sched == Sched({}, {}, [])
    ensures multiset(LogPairs(run[t].exec.log)) == multiset(job.pairs)
    ensures LogInRange(run[t].exec.log, |job.items0|)
    ensures CompleteLog(k, run[t].exec.log, job.items0)
    ensures run[t].exec.items == Serial(k, run[t].exec.log, job.items0)
  {
    RunKeeps(k, job, run, t);
    var c := run[t];
    assert AllHeld(c.workers) == seq(|c.workers|, w => []);
    assert HeldItems(AllHeld(c.workers)) == {};
    Serializable(k, c.exec, job.items0);
    var done := LogPairs(c.exec.log);
    NoDuplicatesMultiset(done);
    assert PairSet(done) == job.pairs;
  }

  /** Progress: unless every worker has left, some worker can take a step. */
  lemma Progress<L, S, C(!new)>(k: Kernel<L, S, C>, job: Job<S>, c: Config<L, S, C>, choice: C)
    returns (c': Config<L, S, C>)
    requires ValidJob(job) && Inv(k, job, c) && !AllGone(c.workers)
    ensures Step(k, job, c, c')
  {
    var w: nat :| w < |c.workers| && !c.workers[w].Gone?;
    if c.workers[w].Asking? {
      var got, s' := NextEnabled(job.batchSize, c.sched, c.workers[w].prev);
      c' := AfterCall(k, c, w, got, s');
      assert Call(k, job, c, c', w);
    } else {
      assert SlotSimulated(k, c.exec, w, Serial(k, c.exec.log, job.items0));
      if k.done(c.exec.slots[w].p, c.exec.slots[w].l) {
        c' := AfterFinish(k, c, w);
        assert FinishPair(k, c, c', w);
      } else {
        c' := c.(exec := Micro(k, c.exec, w, choice));
        assert SubStep(k, c, c', w, choice);
      }
    }
    assert StepOf(k, job, c, c', w);
  }
}
