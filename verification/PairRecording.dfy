/** When a pair records which relation, told from the boxes, the fuse attempts and the distance. */
module PairRecording {
  import opened Pairs
  import opened BoundBoxes
  import opened CollisionTypes
  import opened CollisionDetection

  /** The pair passes the box test for the gap: by the oriented boxes if there are any, else by the axes. */
  predicate InReach(s: Settings, p: Pair, gap: real)
    requires ValidPair(s, p)
  {
    || (s.oriented.Some? && s.oriented.value(p.i, p.j))
    || (s.oriented.None? && BoxesMeet(s.boxes[p.i], s.boxes[p.j], ClampGap(gap)))
  }

  predicate IsFailure(c: CollisionType) {
    c == Error || c == Unknown
  }

  /** The first attempt is not trusted, so there is a second one. */
  predicate TriesAgain(first: Attempt) {
    first.Threw? || (IsFailure(first.verdict) && first.pieces != 2)
  }

  /** The fused result judged last: that of the second attempt, or of the first if the second threw. */
  function LastFused(first: Attempt, second: Attempt): Attempt {
    if second.Fused? then second else first
  }

  /** Some attempt gives the relation c, which is no failure. */
  predicate Clean(first: Attempt, second: Attempt, c: CollisionType) {
    && !IsFailure(c)
    && ((first.Fused? && first.verdict == c)
        || (TriesAgain(first) && second.Fused? && !second.hasErrors && second.verdict == c))
  }

  /** The failure c stands: of a first attempt that kept both pieces, or of the last fused result, and the
      items are not measurably apart. */
  predicate Failed(first: Attempt, second: Attempt, distance: Option<real>, c: CollisionType) {
    && IsFailure(c)
    && ((first.Fused? && first.pieces == 2 && first.verdict == c)
        || (TriesAgain(first)
            && var last := LastFused(first, second);
               last.Fused? && !last.hasErrors && last.verdict == c && distance.Some? && distance.value <= 0.0))
  }

  /** Both attempts threw, or the last fused result has errors of its own. */
  predicate FuseFailed(first: Attempt, second: Attempt) {
    TriesAgain(first) && var last := LastFused(first, second); last.Threw? || last.hasErrors
  }

  /** A measured distance within the clearance threshold. */
  predicate IsClearance(s: Settings, p: Pair, d: real) {
    s.distance(p.i, p.j) == Some(d) && 0.0 < d <= s.clearanceThreshold
  }

  /** What two fuse attempts record. */
  predicate FuseRecords(s: Settings, p: Pair, c: CollisionType, v: real) {
    var first, second := s.attempt(p.i, p.j, 0), s.attempt(p.i, p.j, 1);
    match c
    case Clearance => IsClearance(s, p, v) && Clean(first, second, NoCollision)
    case FaceContact =>
      v == s.tolerance && (Clean(first, second, FaceContact) || Clean(first, second, WeakInterference))
    case Interference => v == s.tolerance && Clean(first, second, c)
    case Coincidence => v == s.tolerance && Clean(first, second, c)
    case Enclosure => v == s.tolerance && Clean(first, second, c)
    case Error =>
      v == s.tolerance && (FuseFailed(first, second) || Failed(first, second, s.distance(p.i, p.j), Error))
    case Unknown => v == s.tolerance && Failed(first, second, s.distance(p.i, p.j), Unknown)
    case _ => false
  }

  /** The pair records the relation c with the value v. */
  predicate Records(s: Settings, p: Pair, c: CollisionType, v: real)
    requires ValidPair(s, p)
  {
    if InReach(s, p, s.toleranceThreshold) then FuseRecords(s, p, c, v)
    else InReach(s, p, s.clearanceThreshold) && c == Clearance && IsClearance(s, p, v)
  }

  lemma InReachIff(s: Settings, p: Pair, gap: real)
    requires ValidPair(s, p)
    ensures InReach(s, p, gap) <==> BoxesOverlap(s, p, gap)
  {
    if s.oriented.None? {
      OverlappedIffMeet(s.boxes[p.i], s.boxes[p.j], gap);
    }
  }

  lemma FuseRecordsIff(s: Settings, p: Pair, c: CollisionType, v: real)
    ensures CollisionFinding(s, p) == Some(Finding(c, v)) <==> FuseRecords(s, p, c, v)
  {
  }

  lemma FindingIff(s: Settings, p: Pair, c: CollisionType, v: real)
    requires ValidPair(s, p)
    ensures PairFinding(s, p) == Some(Finding(c, v)) <==> Records(s, p, c, v)
  {
    InReachIff(s, p, s.toleranceThreshold);
    InReachIff(s, p, s.clearanceThreshold);
    FuseRecordsIff(s, p, c, v);
  }

  /** The rows with the relation of type c and value v added at both ends. */
  function WithRelation(rows: seq<InfoRow>, p: Pair, c: CollisionType, v: real): seq<InfoRow>
    requires p.i < |rows| && p.j < |rows| && p.i != p.j
  {
    rows[p.i := rows[p.i] + [CollisionInfo(p.i, p.j, v, c)]][p.j := rows[p.j] + [CollisionInfo(p.j, p.i, v, c)]]
  }

  /** Exactly when the rows of the two items gain exactly this mirrored relation. */
  lemma PairRecordsIff(s: Settings, p: Pair, rows: seq<InfoRow>, c: CollisionType, v: real)
    requires ValidPair(s, p) && p.i != p.j && |rows| == |s.boxes|
    ensures Recorded(rows, p, PairFinding(s, p)) == WithRelation(rows, p, c, v) <==> Records(s, p, c, v)
  {
    FindingIff(s, p, c, v);
    var more := Recorded(rows, p, PairFinding(s, p));
    if more == WithRelation(rows, p, c, v) {
      assert |more[p.i]| == |rows[p.i]| + 1 && more[p.i][|rows[p.i]|] == CollisionInfo(p.i, p.j, v, c);
      assert PairFinding(s, p).Some?;
    }
  }

  /** And when they stay as they are. */
  lemma NothingRecordedIff(s: Settings, p: Pair, rows: seq<InfoRow>)
    requires ValidPair(s, p) && p.i != p.j && |rows| == |s.boxes|
    ensures Recorded(rows, p, PairFinding(s, p)) == rows <==> !exists c, v :: Records(s, p, c, v)
  {
    match PairFinding(s, p)
    case Some(f) =>
      FindingIff(s, p, f.ctype, f.value);
      assert |Recorded(rows, p, PairFinding(s, p))[p.i]| == |rows[p.i]| + 1;
    case None =>
      forall c, v ensures !Records(s, p, c, v) {
        FindingIff(s, p, c, v);
      }
  }
}
