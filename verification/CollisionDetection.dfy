/** Phase 1 of collision detection: what is recorded for one item pair. The geometry kernel is a
    function of the pair: the outcome of each general-fuse attempt, and the distance. */
module CollisionDetection {
  import opened Pairs
  import opened BoundBoxes
  import opened CollisionTypes

  /** One general fuse attempt: it threw, or it produced pieces and a verdict. */
  datatype Attempt = Threw | Fused(pieces: nat, hasErrors: bool, verdict: CollisionType)

  datatype Settings = Settings(
    toleranceThreshold: real,
    clearanceThreshold: real,
    tolerance: real,
    boxes: seq<Box>,
    /** the oriented-box test, when oriented boxes are available */
    oriented: Option<(nat, nat) -> bool>,
    attempt: (nat, nat, nat) -> Attempt,
    /** the distance of two items; None when the kernel throws */
    distance: (nat, nat) -> Option<real>)

  predicate ValidPair(s: Settings, p: Pair) {
    p.i < |s.boxes| && p.j < |s.boxes|
  }

  function BoxesOverlap(s: Settings, p: Pair, clearance: real): bool
    requires ValidPair(s, p)
  {
    match s.oriented
    case Some(test) => test(p.i, p.j)
    case None => Overlapped(s.boxes[p.i], s.boxes[p.j], clearance)
  }

  /** The scheduler's filter. */
  predicate IsCoupledPair(s: Settings, p: Pair)
    requires ValidPair(s, p)
  {
    BoxesOverlap(s, p, s.clearanceThreshold)
  }

  /** What a pair adds to the rows of its two items: a relation and its value. */
  datatype Finding = Finding(ctype: CollisionType, value: real)

  /** The clearance check records a positive distance within the threshold. */
  function ClearanceFinding(s: Settings, p: Pair): Option<Finding> {
    match s.distance(p.i, p.j)
    case Some(d) => if 0.0 < d <= s.clearanceThreshold then Some(Finding(Clearance, d)) else None
    case None => None
  }

  /** A weak interference is always repaired into a face contact. */
  function Repaired(c: CollisionType): CollisionType {
    if c == WeakInterference then FaceContact else c
  }

  /** A fused result judged on the last attempt: fusion errors count, and an error verdict is
      withdrawn when the items are measurably apart. None: the distance check threw. */
  function LastVerdict(s: Settings, p: Pair, a: Attempt): Option<CollisionType>
    requires a.Fused?
  {
    if a.hasErrors then Some(Error)
    else if AtLeast(a.verdict, Error) then
      match s.distance(p.i, p.j)
      case None => None
      case Some(d) =>
        if d > 0.0 then Some(if d <= s.clearanceThreshold then Clearance else NoCollision) else Some(a.verdict)
    else Some(Repaired(a.verdict))
  }

  /** The relation decided for a pair, first attempt with tolerance, second without. */
  function Verdict(s: Settings, p: Pair): Option<CollisionType> {
    var first, second := s.attempt(p.i, p.j, 0), s.attempt(p.i, p.j, 1);
    if first.Fused? && !AtLeast(first.verdict, Error) then Some(Repaired(first.verdict))
    else if first.Fused? && first.pieces == 2 then Some(first.verdict)
    else if second.Fused? then LastVerdict(s, p, second)
    else if first.Fused? then LastVerdict(s, p, first)
    else Some(Error)
  }

  function CollisionFinding(s: Settings, p: Pair): Option<Finding> {
    match Verdict(s, p)
    case None => None
    case Some(c) =>
      if c == NoCollision then ClearanceFinding(s, p)
      else if AtLeast(c, FaceContact) then Some(Finding(c, s.tolerance))
      else None
  }

  /** What `processItemPair` records for a pair. */
  function PairFinding(s: Settings, p: Pair): Option<Finding>
    requires ValidPair(s, p)
  {
    if BoxesOverlap(s, p, s.toleranceThreshold) then CollisionFinding(s, p)
    else if BoxesOverlap(s, p, s.clearanceThreshold) then ClearanceFinding(s, p)
    else None
  }

  /** The entry a pair adds to row `x`: none unless x is one of its items. */
  function EntryFor(s: Settings, p: Pair, x: nat): InfoRow
    requires ValidPair(s, p)
  {
    match PairFinding(s, p)
    case None => []
    case Some(f) =>
      if x == p.i then [CollisionInfo(p.i, p.j, f.value, f.ctype)]
      else if x == p.j then [CollisionInfo(p.j, p.i, f.value, f.ctype)]
      else []
  }

  /** The rows after recording a finding for pair p. */
  function Recorded(rows: seq<InfoRow>, p: Pair, f: Option<Finding>): (r: seq<InfoRow>)
    requires p.i < |rows| && p.j < |rows|
    ensures |r| == |rows|
  {
    match f
    case None => rows
    case Some(f) =>
      var more := rows[p.i := rows[p.i] + [CollisionInfo(p.i, p.j, f.value, f.ctype)]];
      more[p.j := more[p.j] + [CollisionInfo(p.j, p.i, f.value, f.ctype)]]
  }

  class CollisionRecorder {
    const settings: Settings
    var rows: seq<InfoRow>

    constructor (settings: Settings)
      ensures this.settings == settings && rows == seq(|settings.boxes|, _ => [])
    {
      this.settings := settings;
      rows := seq(|settings.boxes|, _ => []);
    }

    predicate Holds(p: Pair)
      reads this
    {
      |rows| == |settings.boxes| && ValidPair(settings, p)
    }

    method Record(p: Pair, value: real, ctype: CollisionType)
      requires Holds(p)
      modifies this`rows
      ensures rows == Recorded(old(rows), p, Some(Finding(ctype, value)))
    {
      rows := rows[p.i := rows[p.i] + [CollisionInfo(p.i, p.j, value, ctype)]];
      rows := rows[p.j := rows[p.j] + [CollisionInfo(p.j, p.i, value, ctype)]];
    }

    method CalcClearance(p: Pair) returns (c: CollisionType)
      requires Holds(p)
      modifies this`rows
      ensures rows == Recorded(old(rows), p, ClearanceFinding(settings, p))
      ensures c == Clearance <==> ClearanceFinding(settings, p).Some?
      ensures c == NoCollision <==>
                settings.distance(p.i, p.j).Some? && settings.distance(p.i, p.j).value > settings.clearanceThreshold
      ensures c == Clearance || c == NoCollision || c == Error
    {
      var dist := settings.distance(p.i, p.j);
      if dist.None? {
        return Error;
      }
      if dist.value > settings.clearanceThreshold {
        return NoCollision;
      } else if dist.value <= settings.clearanceThreshold && dist.value > 0.0 {
        Record(p, dist.value, Clearance);
        return Clearance;
      } else {
        return Error;
      }
    }

    /** The retry loop: fuse with the tolerance, and again without it if the first attempt failed
        or judged the pair an error. `threw` tells that the last distance check threw. */
    method DetectCollision(p: Pair) returns (threw: bool)
      requires Holds(p)
      modifies this`rows
      ensures threw <==> Verdict(settings, p).None?
      ensures rows == Recorded(old(rows), p, CollisionFinding(settings, p))
    {
      var ctype := NoCollision;
      var completed := false;
      var fuser: Option<Attempt> := None;
      var first, second := settings.attempt(p.i, p.j, 0), settings.attempt(p.i, p.j, 1);
      threw := false;
      var r := 0;
      while r < 2 && !completed
        invariant 0 <= r <= 2
        invariant r == 0 ==> ctype == NoCollision && !completed && fuser.None?
        invariant r == 1 ==> AtLeast(ctype, Error)
        invariant r == 1 ==> if first.Fused? then fuser == Some(first) else fuser.None?
        invariant r == 1 && completed ==> first.Fused? && first.pieces == 2 && ctype == first.verdict
        invariant r == 1 && !completed ==> first.Fused? ==> first.pieces != 2 && AtLeast(first.verdict, Error)
        invariant r == 2 ==> Verdict(settings, p) == Some(ctype) && AtLeast(ctype, Error)
        invariant rows == old(rows)
      {
        var attempt := settings.attempt(p.i, p.j, r);
        if attempt.Fused? {
          fuser := Some(attempt);
          completed := attempt.pieces == 2;
        } else {
          ctype := Error;
        }
        if fuser.Some? {
          if fuser.value.hasErrors && r == 1 {
            ctype := Error;
          } else {
            ctype := fuser.value.verdict;
            if AtLeast(ctype, Error) && r == 1 {
              var solved := SolveErrorByDistanceCheck(p);
              if solved.None? {
                return true;
              }
              if Code(solved.value) <= Code(Clearance) {
                ctype := solved.value;
              }
            }
            if ctype == WeakInterference {
              ctype := FaceContact;
            }
            if ctype == NoCollision {
              var _ := CalcClearance(p);
            }
          }
        }
        if !AtLeast(ctype, Error) {
          break;
        }
        r := r + 1;
      }
      assert Verdict(settings, p) == Some(ctype);
      if AtLeast(ctype, FaceContact) {
        Record(p, settings.tolerance, ctype);
      }
    }

    /** None when the distance computation throws: the exception leaves the pair unrecorded. */
    method SolveErrorByDistanceCheck(p: Pair) returns (c: Option<CollisionType>)
      ensures match settings.distance(p.i, p.j)
              case None => c == None
              case Some(d) =>
                c == Some(if d <= 0.0 then Error
                          else if d <= settings.clearanceThreshold then Clearance else NoCollision)
    {
      var dist := settings.distance(p.i, p.j);
      if dist.None? {
        return None;
      }
      if dist.value > 0.0 {
        if dist.value <= settings.clearanceThreshold {
          return Some(Clearance);
        } else {
          return Some(NoCollision);
        }
      }
      return Some(Error);
    }

    method ProcessItemPair(p: Pair)
      requires Holds(p)
      modifies this`rows
      ensures rows == Recorded(old(rows), p, PairFinding(settings, p))
    {
      if BoxesOverlap(settings, p, settings.toleranceThreshold) {
        var _ := DetectCollision(p);
      } else {
        if BoxesOverlap(settings, p, settings.clearanceThreshold) {
          var _ := CalcClearance(p);
        }
      }
    }

    method ProcessIfCoupled(p: Pair)
      requires Holds(p)
      modifies this`rows
      ensures |rows| == |old(rows)|
      ensures rows == RecordCoupled(settings, p, old(rows))
    {
      if IsCoupledPair(settings, p) {
        ProcessItemPair(p);
      }
    }

    /** The serial reference: process every coupled pair above the diagonal of row `i`. */
    method ProcessItem(i: nat)
      requires |rows| == |settings.boxes| && i < |rows|
      modifies this`rows
      ensures |rows| == |settings.boxes|
      ensures rows == RecordRow(settings, i, |settings.boxes|, old(rows))
    {
      ghost var was := rows;
      for j := i + 1 to |settings.boxes|
        invariant |rows| == |settings.boxes|
        invariant rows == RecordRow(settings, i, j, was)
      {
        ProcessIfCoupled(Pair(i, j));
      }
    }
  }

  function RecordCoupled(s: Settings, p: Pair, rows: seq<InfoRow>): (r: seq<InfoRow>)
    requires ValidPair(s, p) && |rows| == |s.boxes|
    ensures |r| == |rows|
  {
    if IsCoupledPair(s, p) then Recorded(rows, p, PairFinding(s, p)) else rows
  }

  /** The rows after the serial loop over row `i` has come to column `j`. */
  function RecordRow(s: Settings, i: nat, j: nat, rows: seq<InfoRow>): (r: seq<InfoRow>)
    requires i < j <= |s.boxes| == |rows|
    ensures |r| == |rows|
  {
    if j == i + 1 then rows else RecordCoupled(s, Pair(i, j - 1), RecordRow(s, i, j - 1, rows))
  }

  ghost predicate AllValid(s: Settings, ps: seq<Pair>) {
    forall t :: 0 <= t < |ps| ==> ValidPair(s, ps[t])
  }

  /** The pairs (i, i+1) .. (i, n-1). */
  function RowPairs(i: nat, n: nat): (r: seq<Pair>)
    ensures forall t :: 0 <= t < |r| ==> r[t].i == i && r[t].i < r[t].j < n
    ensures |r| == if n <= i then 0 else n - i - 1
    decreases n
  {
    if n <= i + 1 then [] else RowPairs(i, n - 1) + [Pair(i, n - 1)]
  }

  /** Recording a list of pairs, in order. */
  ghost function RecordAll(s: Settings, ps: seq<Pair>, rows: seq<InfoRow>): (r: seq<InfoRow>)
    requires AllValid(s, ps) && |rows| == |s.boxes|
    ensures |r| == |rows|
  {
    if ps == [] then rows
    else Recorded(RecordAll(s, ps[..|ps| - 1], rows), ps[|ps| - 1], PairFinding(s, ps[|ps| - 1]))
  }

  /** The filter rejects no pair that would leave a record. */
  ghost predicate SoundFilter(s: Settings) {
    forall p :: ValidPair(s, p) && BoxesOverlap(s, p, s.toleranceThreshold) ==> IsCoupledPair(s, p)
  }

  lemma OrderedGapsAreSound(s: Settings)
    requires s.oriented.Some? || ClampGap(s.toleranceThreshold) <= ClampGap(s.clearanceThreshold)
    ensures SoundFilter(s)
  {
    forall p | ValidPair(s, p) && BoxesOverlap(s, p, s.toleranceThreshold) ensures IsCoupledPair(s, p) {
      if s.oriented.None? {
        OverlapMonotone(s.boxes[p.i], s.boxes[p.j], s.toleranceThreshold, s.clearanceThreshold);
      }
    }
  }

  lemma UncoupledRecordsNothing(s: Settings, p: Pair)
    requires SoundFilter(s) && ValidPair(s, p) && !IsCoupledPair(s, p)
    ensures PairFinding(s, p) == None
  {
    assert !BoxesOverlap(s, p, s.toleranceThreshold);
  }

  lemma RecordOneMore(s: Settings, ps: seq<Pair>, p: Pair, more: seq<Pair>, rows: seq<InfoRow>)
    requires more == ps + [p] && AllValid(s, ps) && AllValid(s, more) && ValidPair(s, p) && |rows| == |s.boxes|
    ensures RecordAll(s, more, rows) == Recorded(RecordAll(s, ps, rows), p, PairFinding(s, p))
  {
    assert more[..|ps|] == ps;
  }

  lemma CoupledOrNot(s: Settings, p: Pair, rows: seq<InfoRow>)
    requires SoundFilter(s) && ValidPair(s, p) && |rows| == |s.boxes|
    ensures RecordCoupled(s, p, rows) == Recorded(rows, p, PairFinding(s, p))
  {
    if !IsCoupledPair(s, p) {
      UncoupledRecordsNothing(s, p);
    }
  }

  lemma RowPairsStep(s: Settings, i: nat, k: nat, j: nat)
    requires i < k && j == k + 1 <= |s.boxes|
    ensures RowPairs(i, j) == RowPairs(i, k) + [Pair(i, k)]
    ensures AllValid(s, RowPairs(i, j)) && AllValid(s, RowPairs(i, k)) && ValidPair(s, Pair(i, k))
  {
  }

  lemma RecordRowStep(s: Settings, i: nat, k: nat, j: nat, rows: seq<InfoRow>)
    requires i < k && j == k + 1 <= |s.boxes| == |rows|
    ensures RecordRow(s, i, j, rows) == RecordCoupled(s, Pair(i, k), RecordRow(s, i, k, rows))
  {
  }

  /** With a sound filter, the serial loop over a row records what it would record unfiltered. */
  lemma {:induction false} RowRecordsAll(s: Settings, i: nat, j: nat, rows: seq<InfoRow>)
    requires SoundFilter(s)
    requires i < j <= |s.boxes| == |rows|
    ensures RecordRow(s, i, j, rows) == RecordAll(s, RowPairs(i, j), rows)
  {
    if j > i + 1 {
      var k, p := j - 1, Pair(i, j - 1);
      RowRecordsAll(s, i, k, rows);
      RowPairsStep(s, i, k, j);
      RecordRowStep(s, i, k, j, rows);
      CoupledOrNot(s, p, RecordRow(s, i, k, rows));
      RecordOneMore(s, RowPairs(i, k), p, RowPairs(i, j), rows);
    }
  }

  /** Only clearances, face contacts and the relations above an interference are ever recorded: a
      weak interference is repaired, vertex and edge contacts are dropped. */
  lemma RecordedTypes(s: Settings, p: Pair)
    requires ValidPair(s, p) && PairFinding(s, p).Some?
    ensures var f := PairFinding(s, p).value;
            || (f.ctype == Clearance && 0.0 < f.value <= s.clearanceThreshold && s.distance(p.i, p.j) == Some(f.value))
            || (f.ctype == FaceContact && f.value == s.tolerance)
            || (AtLeast(f.ctype, Interference) && f.value == s.tolerance)
  {
  }
}
