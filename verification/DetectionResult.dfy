/** Both phases together: the outcome of collision detection does not depend on the schedule. */
module DetectionResult {
  import opened CollisionTypes
  import opened BoundBoxes
  import opened AsyncProtocol
  import opened SyncProtocol
  import opened CollisionDetection
  import opened CollisionResolution
  import opened ResolutionProperties
  import opened ScheduleIndependence

  /** The naive rows relate items in range, both ways. */
  lemma NaiveRowsWellFormed(s: Settings, o: Options)
    requires |o.ids| == |o.volumes| == |s.boxes|
    ensures ValidRows(o, NaiveRows(s))
    ensures Symmetric(NaiveRows(s))
  {
    var n := |s.boxes|;
    var all, rows := AllPairs(n, n), NaiveRows(s);
    AllPairsList(n, n);
    forall t | 0 <= t < |all| ensures all[t].i < all[t].j < n {
      assert all[t] in all;
    }
    forall i: nat, info: CollisionInfo | i < n && info in rows[i]
      ensures info.second < n && CollisionInfo(info.second, i, info.value, info.ctype) in rows[info.second]
    {
      RowMembers(s, all, i, info);
      assert info == CollisionInfo(i, info.second, info.value, info.ctype);
      RowsSymmetric(s, all, i, info.second, info.value, info.ctype);
    }
  }

  lemma PermutedWellFormed(o: Options, rows: seq<InfoRow>, rows': seq<InfoRow>)
    requires ValidRows(o, rows) && SameUpToOrder(rows, rows') && Symmetric(rows)
    ensures ValidRows(o, rows') && Symmetric(rows')
  {
    forall i: nat, t | i < |rows'| && 0 <= t < |rows'[i]| ensures rows'[i][t].second < |rows'| {
      SameMembers(rows, rows', i, rows'[i][t]);
      assert rows'[i][t] in rows'[i];
    }
    forall i: nat, info: CollisionInfo | i < |rows'| && info in rows'[i]
      ensures info.second < |rows'|
      ensures CollisionInfo(info.second, i, info.value, info.ctype) in rows'[info.second]
    {
      SameMembers(rows, rows', i, info);
      SameMembers(rows, rows', info.second, CollisionInfo(info.second, i, info.value, info.ctype));
    }
  }

  /** The outcome of the second phase on rows that are, up to order, the naive rows is the outcome
      on the naive rows. */
  lemma OutcomeOfPermutedRows(s: Settings, o: Options, rows: seq<InfoRow>, errors: Errors, final: Errors, naive: Errors)
    requires |o.ids| == |o.volumes| == |s.boxes|
    requires SameUpToOrder(NaiveRows(s), rows)
    ensures ValidRows(o, rows) && Symmetric(rows) && ValidRows(o, NaiveRows(s))
    ensures SecondPhase(o, rows, errors, final) && SecondPhase(o, NaiveRows(s), errors, naive) ==> final == naive
  {
    NaiveRowsWellFormed(s, o);
    PermutedWellFormed(o, NaiveRows(s), rows);
    if SecondPhase(o, rows, errors, final) && SecondPhase(o, NaiveRows(s), errors, naive) {
      RowOrderBlind(o, NaiveRows(s), rows, errors, naive, final);
    }
  }

  /** For every number of workers, batch size and interleaving, the suppressed items and their error
      codes are those of the naive serial loop followed by the same second phase. */
  lemma SuppressionScheduleIndependent(s: Settings, o: Options, job: Job<InfoRow>,
                                       run: seq<Config<Pushed, InfoRow, ()>>,
                                       errors: Errors, final: Errors, naive: Errors)
    requires |o.ids| == |o.volumes| == |s.boxes|
    requires DetectorJob(s, job)
    requires s.oriented.Some? || ClampGap(s.toleranceThreshold) <= ClampGap(s.clearanceThreshold)
    requires IsRun(DetectorKernel(s), job, run)
    requires |run[0].workers| >= 1 && AllGone(run[|run| - 1].workers)
    ensures var rows := run[|run| - 1].exec.items;
            && ValidRows(o, rows) && Symmetric(rows) && ValidRows(o, NaiveRows(s))
            && (SecondPhase(o, rows, errors, final) && SecondPhase(o, NaiveRows(s), errors, naive) ==> final == naive)
  {
    var rows := run[|run| - 1].exec.items;
    OrderedGapsAreSound(s);
    NoLostWork(DetectorKernel(s), job, run, |run| - 1);
    forall x | 0 <= x < |rows| ensures multiset(NaiveRows(s)[x]) == multiset(rows[x]) {
      DetectorScheduleIndependent(s, job, run, x);
    }
    OutcomeOfPermutedRows(s, o, rows, errors, final, naive);
  }

  /** The barrier mode gives the same outcome. */
  lemma SyncSuppressionScheduleIndependent(s: Settings, o: Options, job: Job<InfoRow>,
                                           run: seq<Config<Pushed, InfoRow, ()>>,
                                       errors: Errors, final: Errors, naive: Errors)
    requires |o.ids| == |o.volumes| == |s.boxes|
    requires DetectorJob(s, job)
    requires s.oriented.Some? || ClampGap(s.toleranceThreshold) <= ClampGap(s.clearanceThreshold)
    requires IsSyncRun(DetectorKernel(s), job, run)
    requires Stopped(run[|run| - 1])
    ensures var rows := run[|run| - 1].exec.items;
            && ValidRows(o, rows) && Symmetric(rows) && ValidRows(o, NaiveRows(s))
            && (SecondPhase(o, rows, errors, final) && SecondPhase(o, NaiveRows(s), errors, naive) ==> final == naive)
  {
    var rows := run[|run| - 1].exec.items;
    OrderedGapsAreSound(s);
    SyncComplete(DetectorKernel(s), job, run, |run| - 1);
    forall x | 0 <= x < |rows| ensures multiset(NaiveRows(s)[x]) == multiset(rows[x]) {
      SyncDetectorScheduleIndependent(s, job, run, x);
    }
    OutcomeOfPermutedRows(s, o, rows, errors, final, naive);
  }
}
