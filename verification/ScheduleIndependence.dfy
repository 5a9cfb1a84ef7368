/** The parallel detector records, in every schedule, what the naive serial loop over all pairs
    above the diagonal records without any filter: each row ends as the same multiset. */
module ScheduleIndependence {
  import opened Pairs
  import opened Scheduling
  import opened CollisionTypes
  import opened BoundBoxes
  import opened Execution
  import opened AsyncProtocol
  import opened SyncProtocol
  import opened CollisionDetection
  import opened CouplingMatrices
  import ParallelAccessors

  // ----- The detector as a kernel: two pushes, one for each row -----

  predicate HasFinding(s: Settings, p: Pair) {
    ValidPair(s, p) && PairFinding(s, p).Some?
  }

  /** How many of the two rows a worker has pushed to; the item state is the item's row. */
  datatype Pushed = Neither | First | Both

  function DetectorKernel(s: Settings): Kernel<Pushed, InfoRow, ()> {
    Kernel(
      p => if HasFinding(s, p) then Neither else Both,
      (p: Pair, l: Pushed) => l == Both,
      (p: Pair, c: (), l: Pushed, a: InfoRow, b: InfoRow) =>
        if !HasFinding(s, p) then (Both, a, b)
        else if l == Neither then (First, a + EntryFor(s, p, p.i), b)
        else (Both, a, b + EntryFor(s, p, p.j)))
  }

  /** What every complete run of the kernel on a pair does, alone. */
  lemma AloneRecords(s: Settings, p: Pair, cs: seq<()>, a: InfoRow, b: InfoRow)
    requires ValidPair(s, p) && p.i != p.j
    requires Complete(DetectorKernel(s), p, cs, a, b)
    ensures Alone(DetectorKernel(s), p, cs, a, b).1 == a + EntryFor(s, p, p.i)
    ensures Alone(DetectorKernel(s), p, cs, a, b).2 == b + EntryFor(s, p, p.j)
  {
    var k := DetectorKernel(s);
    if HasFinding(s, p) {
      assert cs != [];
      var one := cs[..1];
      assert one[..0] == [];
      assert Alone(k, p, one, a, b) == (First, a + EntryFor(s, p, p.i), b);
      assert |cs| >= 2;
      var two := cs[..2];
      assert two[..1] == one;
      assert Alone(k, p, two, a, b).0 == Both;
      if |cs| > 2 {
        UnfinishedPrefix(k, p, cs, a, b, 2);
      }
      assert cs == two;
    } else {
      if cs != [] {
        UnfinishedPrefix(k, p, cs, a, b, 0);
      }
      assert a + [] == a && b + [] == b;
    }
  }

  ghost predicate NoSelfPairs(ps: seq<Pair>) {
    forall t :: 0 <= t < |ps| ==> ps[t].i != ps[t].j
  }

  lemma RecordedEntries(s: Settings, p: Pair, rows: seq<InfoRow>)
    requires ValidPair(s, p) && p.i != p.j && |rows| == |s.boxes|
    ensures forall x :: 0 <= x < |rows| ==> Recorded(rows, p, PairFinding(s, p))[x] == rows[x] + EntryFor(s, p, x)
  {
    forall x | 0 <= x < |rows| ensures Recorded(rows, p, PairFinding(s, p))[x] == rows[x] + EntryFor(s, p, x) {
      assert rows[x] + [] == rows[x];
    }
  }

  lemma {:induction false} SerialRecords(s: Settings, log: seq<Entry<()>>, rows: seq<InfoRow>)
    requires |rows| == |s.boxes| && LogInRange(log, |rows|) && NoSelfPairs(LogPairs(log))
    requires CompleteLog(DetectorKernel(s), log, rows)
    ensures AllValid(s, LogPairs(log))
    ensures Serial(DetectorKernel(s), log, rows) == RecordAll(s, LogPairs(log), rows)
  {
    if log != [] {
      var k := DetectorKernel(s);
      var before, last := log[..|log| - 1], log[|log| - 1];
      assert LogPairs(before) == LogPairs(log)[..|log| - 1];
      SerialRecords(s, before, rows);
      var start := Serial(k, before, rows);
      assert LogPairs(log)[|log| - 1] == last.p;
      AloneRecords(s, last.p, last.cs, start[last.p.i], start[last.p.j]);
      StepRecords(s, last.p, start);
    }
  }

  lemma StepRecords(s: Settings, p: Pair, rows: seq<InfoRow>)
    requires ValidPair(s, p) && p.i != p.j && |rows| == |s.boxes|
    ensures Store(rows, p, rows[p.i] + EntryFor(s, p, p.i), rows[p.j] + EntryFor(s, p, p.j))
         == Recorded(rows, p, PairFinding(s, p))
  {
    RecordedEntries(s, p, rows);
  }

  // ----- What a row contains -----

  ghost predicate Upper(s: Settings, ps: seq<Pair>) {
    forall t :: 0 <= t < |ps| ==> ps[t].i < ps[t].j < |s.boxes|
  }

  function EmptyRows(n: nat): seq<InfoRow> {
    seq(n, _ => [])
  }

  /** The pair above the diagonal that a row entry stems from. */
  function Source(e: CollisionInfo): Pair {
    if e.first < e.second then Pair(e.first, e.second) else Pair(e.second, e.first)
  }

  /** Row `x` contains exactly the entries of the recorded pairs. */
  lemma {:induction false} RowMembers(s: Settings, ps: seq<Pair>, x: nat, e: CollisionInfo)
    requires Upper(s, ps) && x < |s.boxes|
    ensures AllValid(s, ps)
    ensures e in RecordAll(s, ps, EmptyRows(|s.boxes|))[x] <==>
            Source(e) in ps && Source(e).j < |s.boxes| && e in EntryFor(s, Source(e), x)
  {
    if ps != [] {
      var front, last := ps[..|ps| - 1], ps[|ps| - 1];
      assert ps == front + [last];
      RowMembers(s, front, x, e);
      RecordedEntries(s, last, RecordAll(s, front, EmptyRows(|s.boxes|)));
    }
  }

  /** Distinct pairs leave distinct entries: no row repeats one. */
  lemma {:induction false} RowDistinct(s: Settings, ps: seq<Pair>, x: nat)
    requires Upper(s, ps) && NoDuplicates(ps) && x < |s.boxes|
    ensures AllValid(s, ps)
    ensures NoDuplicates(RecordAll(s, ps, EmptyRows(|s.boxes|))[x])
  {
    if ps != [] {
      var front, last := ps[..|ps| - 1], ps[|ps| - 1];
      RowDistinct(s, front, x);
      var before := RecordAll(s, front, EmptyRows(|s.boxes|));
      RecordedEntries(s, last, before);
      var added := EntryFor(s, last, x);
      if added != [] {
        RowMembers(s, front, x, added[0]);
        assert Source(added[0]) == last && last !in front;
        assert added == [added[0]];
      } else {
        assert before[x] + [] == before[x];
      }
    }
  }

  /** Symmetry: row x records a relation to y exactly when row y records the same relation to x. */
  lemma RowsSymmetric(s: Settings, ps: seq<Pair>, x: nat, y: nat, v: real, c: CollisionType)
    requires Upper(s, ps) && x < |s.boxes| && y < |s.boxes|
    ensures AllValid(s, ps)
    ensures var rows := RecordAll(s, ps, EmptyRows(|s.boxes|));
            CollisionInfo(x, y, v, c) in rows[x] <==> CollisionInfo(y, x, v, c) in rows[y]
  {
    RowMembers(s, ps, x, CollisionInfo(x, y, v, c));
    RowMembers(s, ps, y, CollisionInfo(y, x, v, c));
  }

  /** At most one relation per pair: two entries of row x to the same item are the same entry. */
  lemma OneRelationPerPair(s: Settings, ps: seq<Pair>, x: nat, a: nat, b: nat)
    requires Upper(s, ps) && NoDuplicates(ps) && x < |s.boxes|
    requires AllValid(s, ps)
    requires a < b < |RecordAll(s, ps, EmptyRows(|s.boxes|))[x]|
    ensures var row := RecordAll(s, ps, EmptyRows(|s.boxes|))[x];
            row[a].first == row[b].first == x && row[a].second != row[b].second
  {
    var row := RecordAll(s, ps, EmptyRows(|s.boxes|))[x];
    RowDistinct(s, ps, x);
    RowMembers(s, ps, x, row[a]);
    RowMembers(s, ps, x, row[b]);
  }

  // ----- The naive loop over all pairs above the diagonal -----

  function AllPairs(i: nat, n: nat): seq<Pair> {
    if i == 0 then [] else AllPairs(i - 1, n) + RowPairs(i - 1, n)
  }

  lemma NoDuplicatesOfBoth<T>(a: seq<T>, b: seq<T>)
    requires NoDuplicates(a) && NoDuplicates(b)
    requires forall x :: x in a ==> x !in b
    ensures NoDuplicates(a + b)
  {
    var c := a + b;
    forall m, n | 0 <= m < n < |c| ensures c[m] != c[n] {
      assert m < |a| ==> c[m] in a;
      assert n >= |a| ==> c[n] in b;
    }
  }

  lemma RowPairsMember(i: nat, n: nat, p: Pair)
    ensures p in RowPairs(i, n) <==> p.i == i && i < p.j < n
  {
    RowPairsList(i, n);
  }

  lemma InEither<T>(a: seq<T>, b: seq<T>, c: seq<T>, x: T)
    requires c == a + b
    ensures x in c <==> x in a || x in b
  {
  }

  lemma {:induction false} AllPairsMember(i: nat, n: nat, p: Pair)
    ensures p in AllPairs(i, n) <==> p.i < i && p.i < p.j < n
  {
    if i > 0 {
      AllPairsMember(i - 1, n, p);
      RowPairsMember(i - 1, n, p);
      InEither(AllPairs(i - 1, n), RowPairs(i - 1, n), AllPairs(i, n), p);
    }
  }

  /** They are the pairs above the diagonal, each once. */
  lemma {:induction false} AllPairsList(i: nat, n: nat)
    ensures forall p :: p in AllPairs(i, n) <==> p.i < i && p.i < p.j < n
    ensures NoDuplicates(AllPairs(i, n))
  {
    forall p ensures p in AllPairs(i, n) <==> p.i < i && p.i < p.j < n {
      AllPairsMember(i, n, p);
    }
    if i > 0 {
      AllPairsList(i - 1, n);
      RowPairsList(i - 1, n);
      NoDuplicatesOfBoth(AllPairs(i - 1, n), RowPairs(i - 1, n));
    }
  }

  lemma {:induction false} RowPairsList(i: nat, n: nat)
    ensures forall p :: p in RowPairs(i, n) <==> p.i == i && i < p.j < n
    ensures NoDuplicates(RowPairs(i, n))
    decreases n
  {
    if n > i + 1 {
      RowPairsList(i, n - 1);
    }
  }

  /** The rows after the unfiltered serial loop over all pairs of n items. */
  ghost function NaiveRows(s: Settings): seq<InfoRow> {
    var n := |s.boxes|;
    assert AllValid(s, AllPairs(n, n)) by {
      AllPairsList(n, n);
      forall t | 0 <= t < |AllPairs(n, n)| ensures ValidPair(s, AllPairs(n, n)[t]) {
        assert AllPairs(n, n)[t] in AllPairs(n, n);
      }
    }
    RecordAll(s, AllPairs(n, n), EmptyRows(n))
  }

  // ----- Main results -----

  /** The job the executor sets up: the coupled pairs above the diagonal, and empty rows. */
  ghost predicate DetectorJob(s: Settings, job: Job<InfoRow>) {
    && job.batchSize >= 1
    && job.items0 == EmptyRows(|s.boxes|)
    && forall p :: p in job.pairs <==> p.i < p.j < |s.boxes| && IsCoupledPair(s, p)
  }

  /** The coupling matrix built from the detector's own pair test yields that job. */
  lemma MatrixGivesDetectorJob(s: Settings, coupled: (nat, nat) -> bool, rows: seq<ParallelAccessors.Row>,
                               job: Job<InfoRow>)
    requires forall i: nat, j: nat :: i < |s.boxes| && j < |s.boxes| ==> coupled(i, j) == IsCoupledPair(s, Pair(i, j))
    requires |rows| == |s.boxes|
    requires forall i :: 0 <= i < |rows| ==> rows[i] == CoupledRow(coupled, i, i + 1, |rows|)
    requires job == Job(ParallelAccessors.MatrixPairs(rows), job.batchSize, EmptyRows(|s.boxes|)) && job.batchSize >= 1
    ensures DetectorJob(s, job)
  {
    forall p ensures p in job.pairs <==> p.i < p.j < |s.boxes| && IsCoupledPair(s, p) {
      MatrixPairsAreCoupled(coupled, |rows|, rows, p);
    }
  }

  /** Any order of executing the coupled pairs, each exactly once, gives rows that are permutations
      of the naive loop's rows. */
  lemma AnyOrderRecordsTheSame(s: Settings, job: Job<InfoRow>, log: seq<Entry<()>>, x: nat)
    requires DetectorJob(s, job) && SoundFilter(s) && x < |s.boxes|
    requires LogInRange(log, |job.items0|) && CompleteLog(DetectorKernel(s), log, job.items0)
    requires multiset(LogPairs(log)) == multiset(job.pairs)
    ensures multiset(Serial(DetectorKernel(s), log, job.items0)[x]) == multiset(NaiveRows(s)[x])
  {
    var n := |s.boxes|;
    var ps, all := LogPairs(log), AllPairs(n, n);
    AllPairsList(n, n);
    OnceEach(ps, job.pairs);
    forall t | 0 <= t < |ps| ensures ps[t].i < ps[t].j < n && IsCoupledPair(s, ps[t]) {
      assert ps[t] in ps;
    }
    SerialRecords(s, log, job.items0);
    forall t | 0 <= t < |all| ensures all[t].i < all[t].j < n {
      assert all[t] in all;
    }
    RowDistinct(s, ps, x);
    RowDistinct(s, all, x);
    var row, naive := RecordAll(s, ps, EmptyRows(n))[x], NaiveRows(s)[x];
    forall e ensures e in row <==> e in naive {
      RowMembers(s, ps, x, e);
      RowMembers(s, all, x, e);
      var p := Source(e);
      if p in all && p !in ps {
        UncoupledRecordsNothing(s, p);
      }
    }
    SameEntries(row, naive);
  }

  lemma SameEntries<T>(a: seq<T>, b: seq<T>)
    requires NoDuplicates(a) && NoDuplicates(b)
    requires forall e :: e in a <==> e in b
    ensures multiset(a) == multiset(b)
  {
    NoDuplicatesMultiset(a);
    NoDuplicatesMultiset(b);
    assert (set e | e in a) == (set e | e in b);
  }

  lemma RepeatedCount(ps: seq<Pair>, a: nat, b: nat)
    requires a < b < |ps| && ps[a] == ps[b]
    ensures multiset(ps)[ps[a]] >= 2
  {
    assert ps == ps[..b] + [ps[b]] + ps[b + 1..];
    assert ps[a] in ps[..b];
  }

  lemma OnceEach(ps: seq<Pair>, pairs: set<Pair>)
    requires multiset(ps) == multiset(pairs)
    ensures NoDuplicates(ps)
    ensures forall p :: p in ps <==> p in pairs
  {
    forall a, b | 0 <= a < b < |ps| ensures ps[a] != ps[b] {
      assert multiset(pairs)[ps[a]] <= 1;
      if ps[a] == ps[b] {
        RepeatedCount(ps, a, b);
      }
    }
    assert forall p :: p in ps <==> p in multiset(ps);
  }

  /** Schedule independence of the detector, asynchronous mode: for every number of workers, batch
      size and interleaving, each row of the result is the naive loop's row up to order. */
  lemma DetectorScheduleIndependent(s: Settings, job: Job<InfoRow>, run: seq<Config<Pushed, InfoRow, ()>>, x: nat)
    requires DetectorJob(s, job) && x < |s.boxes|
    requires s.oriented.Some? || ClampGap(s.toleranceThreshold) <= ClampGap(s.clearanceThreshold)
    requires IsRun(DetectorKernel(s), job, run)
    requires |run[0].workers| >= 1 && AllGone(run[|run| - 1].workers)
    ensures |run[|run| - 1].exec.items| == |s.boxes|
    ensures multiset(run[|run| - 1].exec.items[x]) == multiset(NaiveRows(s)[x])
  {
    OrderedGapsAreSound(s);
    NoLostWork(DetectorKernel(s), job, run, |run| - 1);
    AnyOrderRecordsTheSame(s, job, run[|run| - 1].exec.log, x);
  }

  /** The same for the barrier mode. */
  lemma SyncDetectorScheduleIndependent(s: Settings, job: Job<InfoRow>, run: seq<Config<Pushed, InfoRow, ()>>, x: nat)
    requires DetectorJob(s, job) && x < |s.boxes|
    requires s.oriented.Some? || ClampGap(s.toleranceThreshold) <= ClampGap(s.clearanceThreshold)
    requires IsSyncRun(DetectorKernel(s), job, run)
    requires Stopped(run[|run| - 1])
    ensures |run[|run| - 1].exec.items| == |s.boxes|
    ensures multiset(run[|run| - 1].exec.items[x]) == multiset(NaiveRows(s)[x])
  {
    OrderedGapsAreSound(s);
    SyncComplete(DetectorKernel(s), job, run, |run| - 1);
    AnyOrderRecordsTheSame(s, job, run[|run| - 1].exec.log, x);
  }
}
