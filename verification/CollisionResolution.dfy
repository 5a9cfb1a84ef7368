/** Phase 2 of collision detection: items are suppressed, serially, from the recorded relations. */
module CollisionResolution {
  import opened CollisionTypes

  /** Suppression is stored under the shape ID of an item; items with equal IDs share it. */
  type Errors = map<int, ShapeErrorType>

  datatype Options = Options(
    suppressFloating: bool,
    suppressErroneous: bool,
    ignoreUnknown: bool,
    ids: seq<int>,
    volumes: seq<real>)

  ghost predicate ValidRows(o: Options, rows: seq<InfoRow>) {
    && |rows| == |o.ids| == |o.volumes|
    && forall i, t :: 0 <= i < |rows| && 0 <= t < |rows[i]| ==> rows[i][t].second < |rows|
  }

  predicate Suppressed(errors: Errors, id: int) {
    id in errors && errors[id] != NoError
  }

  /** Number of relations of type `c` in a row. */
  function CountType(row: InfoRow, c: CollisionType): nat {
    if row == [] then 0
    else CountType(row[..|row| - 1], c) + if row[|row| - 1].ctype == c then 1 else 0
  }

  ghost predicate HasAtLeastType(row: InfoRow, c: CollisionType) {
    exists info :: info in row && AtLeast(info.ctype, c)
  }

  // ----- Specification of one item's turn -----

  function SuppressIfNot(errors: Errors, id: int, e: ShapeErrorType): Errors {
    if Suppressed(errors, id) then errors else errors[id := e]
  }

  /** Item i has more relations of type `c` than each of its partners has of the shared type. */
  ghost predicate Outweighs(rows: seq<InfoRow>, i: nat, c: CollisionType)
    requires i < |rows|
    requires forall info :: info in rows[i] ==> info.second < |rows|
  {
    && CountType(rows[i], c) > 0
    && forall info :: info in rows[i] ==> CountType(rows[i], c) > CountType(rows[info.second], info.ctype)
  }

  ghost function ErrorResolved(o: Options, rows: seq<InfoRow>, errors: Errors, i: nat, c: CollisionType): Errors
    requires ValidRows(o, rows) && i < |rows|
  {
    if Outweighs(rows, i, c) then SuppressIfNot(errors, o.ids[i], ToShapeError(c)) else errors
  }

  function SingleResolved(o: Options, errors: Errors, i: nat, info: CollisionInfo): Errors
    requires i < |o.ids| == |o.volumes| && info.second < |o.ids|
  {
    match info.ctype
    case Enclosure =>
      var k := if o.volumes[i] < o.volumes[info.second] then i else info.second;
      SuppressIfNot(errors, o.ids[k], EnclosureError)
    case Error => SuppressIfNot(errors, o.ids[i], UnknownError)
    case Interference => SuppressIfNot(errors, o.ids[i], InterferenceError)
    case Coincidence => SuppressIfNot(errors, o.ids[i], CoincidenceError)
    case _ => errors
  }

  /** Item i coincides with an item of a higher index. */
  ghost predicate CoincidesAbove(row: InfoRow, i: nat) {
    exists info :: info in row && info.ctype == Coincidence && i < info.second
  }

  ghost function SeveralResolved(o: Options, rows: seq<InfoRow>, errors: Errors, i: nat): Errors
    requires ValidRows(o, rows) && i < |rows|
  {
    if HasAtLeastType(rows[i], Interference) then
      var e1 := if CoincidesAbove(rows[i], i) then errors[o.ids[i] := CoincidenceError] else errors;
      ErrorResolved(o, rows, ErrorResolved(o, rows, e1, i, Interference), i, Error)
    else errors
  }

  ghost function ItemResolved(o: Options, rows: seq<InfoRow>, errors: Errors, i: nat): Errors
    requires ValidRows(o, rows) && i < |rows|
  {
    if Suppressed(errors, o.ids[i]) then errors
    else if |rows[i]| == 0 then (if o.suppressFloating then errors[o.ids[i] := FloatingShape] else errors)
    else if |rows[i]| == 1 then SingleResolved(o, errors, i, rows[i][0])
    else SeveralResolved(o, rows, errors, i)
  }

  /** The turns of items 0 .. n-1, in order. */
  ghost function ItemsResolved(o: Options, rows: seq<InfoRow>, errors: Errors, n: nat): Errors
    requires ValidRows(o, rows) && n <= |rows|
  {
    if n == 0 then errors else ItemResolved(o, rows, ItemsResolved(o, rows, errors, n - 1), n - 1)
  }

  // ----- Specification of the final check -----

  /** A relation that must not stay between two items that both go downstream. */
  predicate MustResolve(o: Options, c: CollisionType) {
    (c == Unknown && !o.ignoreUnknown) || (AtLeast(c, Interference) && !AtLeast(c, Unknown) && o.suppressErroneous)
  }

  ghost predicate UnresolvedRelation(o: Options, rows: seq<InfoRow>, errors: Errors, i: nat, info: CollisionInfo)
    requires ValidRows(o, rows)
  {
    && i < |rows| && info in rows[i] && info.second < |rows|
    && MustResolve(o, info.ctype)
    && !Suppressed(errors, o.ids[i]) && !Suppressed(errors, o.ids[info.second])
  }

  ghost predicate AllResolved(o: Options, rows: seq<InfoRow>, errors: Errors)
    requires ValidRows(o, rows)
  {
    forall i, info :: !UnresolvedRelation(o, rows, errors, i, info)
  }

  ghost predicate UnresolvedItem(o: Options, rows: seq<InfoRow>, errors: Errors, k: nat)
    requires ValidRows(o, rows)
  {
    exists i, info :: UnresolvedRelation(o, rows, errors, i, info) && (k == i || k == info.second)
  }

  ghost predicate UnresolvedId(o: Options, rows: seq<InfoRow>, errors: Errors, id: int)
    requires ValidRows(o, rows)
  {
    exists k: nat :: k < |rows| && UnresolvedItem(o, rows, errors, k) && o.ids[k] == id
  }

  /** `errors'` adds exactly the unresolved items, all with the unknown error. */
  ghost predicate Forced(o: Options, rows: seq<InfoRow>, errors: Errors, errors': Errors)
    requires ValidRows(o, rows)
  {
    forall id ::
      if UnresolvedId(o, rows, errors, id) then id in errors' && errors'[id] == UnknownError
      else (id in errors' <==> id in errors) && (id in errors ==> errors'[id] == errors[id])
  }

  // ----- What the check is for, on the relation types themselves -----

  /** Relation t of row i must not stay, and both its items are kept: a relation of one of four types if
      erroneous items are to be suppressed, or an unknown one unless these are ignored. */
  ghost predicate Stands(o: Options, rows: seq<InfoRow>, errors: Errors, i: nat, t: nat)
    requires ValidRows(o, rows)
  {
    && i < |rows| && t < |rows[i]|
    && ((o.suppressErroneous && rows[i][t].ctype in {Interference, Coincidence, Enclosure, Error})
        || (!o.ignoreUnknown && rows[i][t].ctype == Unknown))
    && !Suppressed(errors, o.ids[i]) && !Suppressed(errors, o.ids[rows[i][t].second])
  }

  ghost predicate Settled(o: Options, rows: seq<InfoRow>, errors: Errors)
    requires ValidRows(o, rows)
  {
    forall i: nat, t: nat :: !Stands(o, rows, errors, i, t)
  }

  /** The item is at one of the ends of a standing relation. */
  ghost predicate InStanding(o: Options, rows: seq<InfoRow>, errors: Errors, k: nat)
    requires ValidRows(o, rows)
  {
    exists i: nat, t: nat :: Stands(o, rows, errors, i, t) && (k == i || k == rows[i][t].second)
  }

  /** Exactly the IDs of these items get the unknown error, all others stay as they are. */
  ghost predicate StandingForced(o: Options, rows: seq<InfoRow>, errors: Errors, errors': Errors)
    requires ValidRows(o, rows)
  {
    && (forall k: nat :: k < |rows| && InStanding(o, rows, errors, k) ==>
          o.ids[k] in errors' && errors'[o.ids[k]] == UnknownError)
    && (forall id :: (forall k: nat :: k < |rows| && o.ids[k] == id ==> !InStanding(o, rows, errors, k)) ==>
          (id in errors' <==> id in errors) && (id in errors ==> errors'[id] == errors[id]))
  }

  lemma MustResolveTypes(o: Options, c: CollisionType)
    ensures MustResolve(o, c) <==>
              (o.suppressErroneous && c in {Interference, Coincidence, Enclosure, Error})
              || (!o.ignoreUnknown && c == Unknown)
  {
  }

  lemma StandsIffUnresolved(o: Options, rows: seq<InfoRow>, errors: Errors, i: nat, t: nat)
    requires ValidRows(o, rows) && i < |rows| && t < |rows[i]|
    ensures Stands(o, rows, errors, i, t) <==> UnresolvedRelation(o, rows, errors, i, rows[i][t])
  {
    MustResolveTypes(o, rows[i][t].ctype);
  }

  lemma SettledIffAllResolved(o: Options, rows: seq<InfoRow>, errors: Errors)
    requires ValidRows(o, rows)
    ensures Settled(o, rows, errors) <==> AllResolved(o, rows, errors)
  {
    if AllResolved(o, rows, errors) {
      forall i: nat, t: nat ensures !Stands(o, rows, errors, i, t) {
        if i < |rows| && t < |rows[i]| {
          StandsIffUnresolved(o, rows, errors, i, t);
        }
      }
    }
    if Settled(o, rows, errors) {
      forall i: nat, info ensures !UnresolvedRelation(o, rows, errors, i, info) {
        if i < |rows| && info in rows[i] {
          var t: nat :| t < |rows[i]| && rows[i][t] == info;
          StandsIffUnresolved(o, rows, errors, i, t);
        }
      }
    }
  }

  lemma InStandingIff(o: Options, rows: seq<InfoRow>, errors: Errors, k: nat)
    requires ValidRows(o, rows)
    ensures InStanding(o, rows, errors, k) <==> UnresolvedItem(o, rows, errors, k)
  {
    if InStanding(o, rows, errors, k) {
      var i: nat, t: nat :| Stands(o, rows, errors, i, t) && (k == i || k == rows[i][t].second);
      StandsIffUnresolved(o, rows, errors, i, t);
    }
    if UnresolvedItem(o, rows, errors, k) {
      var i: nat, info :| UnresolvedRelation(o, rows, errors, i, info) && (k == i || k == info.second);
      var t: nat :| t < |rows[i]| && rows[i][t] == info;
      StandsIffUnresolved(o, rows, errors, i, t);
    }
  }

  lemma ForcedIsStandingForced(o: Options, rows: seq<InfoRow>, errors: Errors, errors': Errors)
    requires ValidRows(o, rows) && Forced(o, rows, errors, errors')
    ensures StandingForced(o, rows, errors, errors')
  {
    forall k: nat | k < |rows| ensures InStanding(o, rows, errors, k) <==> UnresolvedItem(o, rows, errors, k) {
      InStandingIff(o, rows, errors, k);
    }
    forall k: nat | k < |rows| && InStanding(o, rows, errors, k)
      ensures o.ids[k] in errors' && errors'[o.ids[k]] == UnknownError
    {
      assert UnresolvedId(o, rows, errors, o.ids[k]);
    }
    forall id | forall k: nat :: k < |rows| && o.ids[k] == id ==> !InStanding(o, rows, errors, k)
      ensures (id in errors' <==> id in errors) && (id in errors ==> errors'[id] == errors[id])
    {
      assert !UnresolvedId(o, rows, errors, id);
    }
  }

  /** What was suppressed before the check is suppressed after it. */
  lemma KeptByForce(o: Options, rows: seq<InfoRow>, errors: Errors, final: Errors, id: int)
    requires ValidRows(o, rows) && StandingForced(o, rows, errors, final)
    ensures Suppressed(errors, id) ==> Suppressed(final, id)
  {
    if k: nat :| k < |rows| && o.ids[k] == id && InStanding(o, rows, errors, k) {
      assert o.ids[k] in final && final[o.ids[k]] == UnknownError;
    }
  }

  lemma NoLongerStands(o: Options, rows: seq<InfoRow>, errors: Errors, final: Errors, i: nat, t: nat)
    requires ValidRows(o, rows) && StandingForced(o, rows, errors, final)
    ensures !Stands(o, rows, final, i, t)
  {
    if i < |rows| && t < |rows[i]| {
      KeptByForce(o, rows, errors, final, o.ids[i]);
      KeptByForce(o, rows, errors, final, o.ids[rows[i][t].second]);
      if Stands(o, rows, errors, i, t) {
        assert InStanding(o, rows, errors, i);
      }
    }
  }

  lemma SettledUnchanged(o: Options, rows: seq<InfoRow>, errors: Errors, final: Errors)
    requires ValidRows(o, rows) && StandingForced(o, rows, errors, final) && Settled(o, rows, errors)
    ensures final == errors
  {
    forall k: nat | k < |rows| ensures !InStanding(o, rows, errors, k) {
    }
    forall id
      ensures id in final <==> id in errors
      ensures id in final ==> id in errors && final[id] == errors[id]
    {
    }
    assert final.Keys == errors.Keys;
  }

  lemma ForcedSettles(o: Options, rows: seq<InfoRow>, errors: Errors, final: Errors)
    requires ValidRows(o, rows) && Forced(o, rows, errors, final)
    ensures Settled(o, rows, final)
    ensures Settled(o, rows, errors) ==> final == errors
  {
    ForcedIsStandingForced(o, rows, errors, final);
    forall i: nat, t: nat ensures !Stands(o, rows, final, i, t) {
      NoLongerStands(o, rows, errors, final, i, t);
    }
    if Settled(o, rows, errors) {
      SettledUnchanged(o, rows, errors, final);
    }
  }

  // ----- The imperative form -----

  class Resolver {
    const options: Options
    const rows: seq<InfoRow>
    var errors: Errors

    constructor (options: Options, rows: seq<InfoRow>, errors: Errors)
      ensures this.options == options && this.rows == rows && this.errors == errors
    {
      this.options, this.rows, this.errors := options, rows, errors;
    }

    predicate ItemSuppressed(i: nat)
      requires i < |options.ids|
      reads this
    {
      Suppressed(errors, options.ids[i])
    }

    method SuppressItem(i: nat, e: ShapeErrorType)
      requires i < |options.ids|
      modifies this
      ensures errors == old(errors)[options.ids[i] := e]
    {
      errors := errors[options.ids[i] := e];
    }

    method CountTypeOf(i: nat, c: CollisionType) returns (n: nat)
      requires i < |rows|
      ensures n == CountType(rows[i], c)
    {
      var row := rows[i];
      n := 0;
      for t := 0 to |row|
        invariant n == CountType(row[..t], c)
      {
        assert row[..t + 1][..t] == row[..t];
        if row[t].ctype == c {
          n := n + 1;
        }
      }
      assert row[..|row|] == row;
    }

    method HasAtLeast(i: nat, c: CollisionType) returns (r: bool)
      requires i < |rows|
      ensures r <==> HasAtLeastType(rows[i], c)
    {
      var row := rows[i];
      for t := 0 to |row|
        invariant forall u :: 0 <= u < t ==> !AtLeast(row[u].ctype, c)
      {
        if AtLeast(row[t].ctype, c) {
          return true;
        }
      }
      return false;
    }

    method ResolveCollisionError(i: nat, c: CollisionType)
      requires ValidRows(options, rows) && i < |rows|
      modifies this
      ensures errors == ErrorResolved(options, rows, old(errors), i, c)
    {
      var thisCount := CountTypeOf(i, c);
      if thisCount > 0 {
        var maxOther := MaxOther(i);
        OutweighsMax(rows, i, c, maxOther);
        if thisCount > maxOther {
          if !ItemSuppressed(i) {
            SuppressItem(i, ToShapeError(c));
          }
        }
      }
    }

    /** The largest count, over the relations of row i, of that relation's type at the partner. */
    method MaxOther(i: nat) returns (max: nat)
      requires ValidRows(options, rows) && i < |rows| && rows[i] != []
      ensures IsMaxOther(rows, i, max)
    {
      var row := rows[i];
      max := 0;
      for t := 0 to |row|
        invariant forall u :: 0 <= u < t ==> CountType(rows[row[u].second], row[u].ctype) <= max
        invariant t > 0 ==> exists u :: 0 <= u < t && max == CountType(rows[row[u].second], row[u].ctype)
      {
        var n := CountTypeOf(row[t].second, row[t].ctype);
        if t == 0 || n > max {
          max := n;
        }
      }
    }

    method ProcessCollisionInfo(i: nat)
      requires ValidRows(options, rows) && i < |rows|
      modifies this
      ensures errors == ItemResolved(options, rows, old(errors), i)
    {
      if ItemSuppressed(i) {
        return;
      }
      var row := rows[i];
      if |row| == 0 {
        if options.suppressFloating {
          SuppressItem(i, FloatingShape);
        }
      } else if |row| == 1 {
        var ctype, j := row[0].ctype, row[0].second;
        if ctype == Enclosure {
          var k := if options.volumes[i] < options.volumes[j] then i else j;
          if !ItemSuppressed(k) {
            SuppressItem(k, ToShapeError(Enclosure));
          }
        } else if ctype == Error {
          if !ItemSuppressed(i) {
            SuppressItem(i, ToShapeError(ctype));
          }
        } else if ctype == Clearance {
        } else if ctype == Interference {
          if !ItemSuppressed(i) {
            SuppressItem(i, ToShapeError(ctype));
          }
        } else if ctype == Coincidence {
          if !ItemSuppressed(i) {
            SuppressItem(i, ToShapeError(ctype));
          }
        }
      } else {
        var serious := HasAtLeast(i, Interference);
        if serious {
          SuppressCoincident(i);
          ResolveCollisionError(i, Interference);
          ResolveCollisionError(i, Error);
        }
      }
    }

    method SuppressCoincident(i: nat)
      requires ValidRows(options, rows) && i < |rows|
      modifies this
      ensures errors ==
                if CoincidesAbove(rows[i], i) then old(errors)[options.ids[i] := CoincidenceError] else old(errors)
    {
      var row := rows[i];
      ghost var hit := false;
      for t := 0 to |row|
        invariant hit <==> exists u :: 0 <= u < t && row[u].ctype == Coincidence && i < row[u].second
        invariant errors == if hit then old(errors)[options.ids[i] := CoincidenceError] else old(errors)
      {
        if row[t].ctype == Coincidence {
          if i < row[t].second {
            SuppressItem(i, CoincidenceError);
            hit := true;
          }
        }
      }
    }

    /** True exactly when nothing had to be forced. */
    method CheckCollisionResolution() returns (resolved: bool)
      requires ValidRows(options, rows)
      modifies this
      ensures Forced(options, rows, old(errors), errors)
      ensures StandingForced(options, rows, old(errors), errors) && Settled(options, rows, errors)
      ensures resolved <==> Settled(options, rows, old(errors))
      ensures resolved ==> errors == old(errors)
    {
      var unresolved := CollectAll();
      resolved := unresolved == {};
      ghost var before := errors;
      NotifyAll(unresolved);
      ForcedByList(options, rows, before, errors, unresolved);
      SettledIffAllResolved(options, rows, before);
      ForcedIsStandingForced(options, rows, before, errors);
      ForcedSettles(options, rows, before, errors);
    }

    method CollectAll() returns (unresolved: set<nat>)
      requires ValidRows(options, rows)
      ensures forall k :: k in unresolved ==> k < |rows|
      ensures forall id :: Listed(options, unresolved, id) <==> UnresolvedId(options, rows, errors, id)
      ensures unresolved == {} <==> AllResolved(options, rows, errors)
    {
      unresolved := {};
      for i := 0 to |rows|
        invariant Collected(options, rows, errors, unresolved, i)
      {
        unresolved := CollectRow(i, unresolved);
      }
      CollectedAll(options, rows, errors, unresolved);
    }

    /** Adds both ends of every unresolved relation of row i. Of the map that keeps the relation
        for the log message, only the keys matter. */
    method CollectRow(i: nat, before: set<nat>) returns (unresolved: set<nat>)
      requires ValidRows(options, rows) && i < |rows|
      requires Collected(options, rows, errors, before, i)
      ensures Collected(options, rows, errors, unresolved, i + 1)
    {
      unresolved := before;
      var row := rows[i];
      for t := 0 to |row|
        invariant unresolved == before + RowEnds(options, rows, errors, i, t)
      {
        var hit := IsUnresolved(i, row[t]);
        if hit {
          unresolved := unresolved + {i};
          unresolved := unresolved + {row[t].second};
        }
      }
      RowCollected(options, rows, errors, before, i, i + 1);
    }

    /** Both conditions lead to the same insertions, and no type meets both. */
    method IsUnresolved(i: nat, info: CollisionInfo) returns (r: bool)
      requires ValidRows(options, rows) && i < |rows| && info in rows[i]
      ensures r <==> UnresolvedRelation(options, rows, errors, i, info)
    {
      r := false;
      if info.ctype == Unknown {
        if !(ItemSuppressed(i) || ItemSuppressed(info.second)) && !options.ignoreUnknown {
          r := true;
        }
      }
      if AtLeast(info.ctype, Interference) && !AtLeast(info.ctype, Unknown) {
        if !(ItemSuppressed(i) || ItemSuppressed(info.second)) && options.suppressErroneous {
          r := true;
        }
      }
    }

    /** Suppresses every listed item with the unknown error. */
    method NotifyAll(items: set<nat>)
      requires ValidRows(options, rows)
      requires forall k :: k in items ==> k < |rows|
      modifies this
      ensures ForcedOn(options, items, old(errors), errors)
    {
      var todo := items;
      while todo != {}
        invariant todo <= items
        invariant ForcedOn(options, items - todo, old(errors), errors)
      {
        var k :| k in todo;
        ListMore(options, items - todo, k);
        assert items - (todo - {k}) == (items - todo) + {k};
        todo := todo - {k};
        SuppressItem(k, ToShapeError(Error));
      }
    }

    /** The whole second phase. */
    method PrepareOutput() returns (resolved: bool)
      requires ValidRows(options, rows)
      modifies this
      ensures Forced(options, rows, ItemsResolved(options, rows, old(errors), |rows|), errors)
      ensures Settled(options, rows, errors)
      ensures resolved <==> Settled(options, rows, ItemsResolved(options, rows, old(errors), |rows|))
    {
      for i := 0 to |rows|
        invariant errors == ItemsResolved(options, rows, old(errors), i)
      {
        ProcessCollisionInfo(i);
      }
      resolved := CheckCollisionResolution();
    }
  }

  /** The unresolved items found in the first `n` rows. */
  ghost predicate Collected(o: Options, rows: seq<InfoRow>, errors: Errors, unresolved: set<nat>, n: nat)
    requires ValidRows(o, rows)
  {
    && (forall k :: k in unresolved ==> k < |rows| && UnresolvedItem(o, rows, errors, k))
    && (forall a: nat, info :: a < n && UnresolvedRelation(o, rows, errors, a, info) ==>
          a in unresolved && info.second in unresolved)
  }

  /** The ends of the unresolved relations among the first n of row i. */
  ghost function RowEnds(o: Options, rows: seq<InfoRow>, errors: Errors, i: nat, n: nat): set<nat>
    requires ValidRows(o, rows) && i < |rows| && n <= |rows[i]|
  {
    if n == 0 then {}
    else
      RowEnds(o, rows, errors, i, n - 1)
      + if UnresolvedRelation(o, rows, errors, i, rows[i][n - 1]) then {i, rows[i][n - 1].second} else {}
  }

  lemma {:induction false} RowEndsUnresolved(o: Options, rows: seq<InfoRow>, errors: Errors, i: nat, n: nat, k: nat)
    requires ValidRows(o, rows) && i < |rows| && n <= |rows[i]| && k in RowEnds(o, rows, errors, i, n)
    ensures k < |rows| && UnresolvedItem(o, rows, errors, k)
  {
    if k in RowEnds(o, rows, errors, i, n - 1) {
      RowEndsUnresolved(o, rows, errors, i, n - 1, k);
    } else {
      assert UnresolvedRelation(o, rows, errors, i, rows[i][n - 1]);
    }
  }

  lemma {:induction false} RowEndsHold(o: Options, rows: seq<InfoRow>, errors: Errors, i: nat, n: nat, t: nat)
    requires ValidRows(o, rows) && i < |rows| && t < n <= |rows[i]|
    requires UnresolvedRelation(o, rows, errors, i, rows[i][t])
    ensures i in RowEnds(o, rows, errors, i, n) && rows[i][t].second in RowEnds(o, rows, errors, i, n)
  {
    if t < n - 1 {
      RowEndsHold(o, rows, errors, i, n - 1, t);
    }
  }

  lemma RowCollected(o: Options, rows: seq<InfoRow>, errors: Errors, before: set<nat>, i: nat, next: nat)
    requires ValidRows(o, rows) && next == i + 1 <= |rows| && Collected(o, rows, errors, before, i)
    ensures Collected(o, rows, errors, before + RowEnds(o, rows, errors, i, |rows[i]|), next)
  {
    var ends := RowEnds(o, rows, errors, i, |rows[i]|);
    forall k | k in before + ends ensures k < |rows| && UnresolvedItem(o, rows, errors, k) {
      if k in ends {
        RowEndsUnresolved(o, rows, errors, i, |rows[i]|, k);
      }
    }
    forall a: nat, info | a < next && UnresolvedRelation(o, rows, errors, a, info)
      ensures a in before + ends && info.second in before + ends
    {
      if a == i {
        var t: nat :| t < |rows[i]| && rows[i][t] == info;
        RowEndsHold(o, rows, errors, i, |rows[i]|, t);
      }
    }
  }

  ghost predicate Listed(o: Options, items: set<nat>, id: int) {
    exists k :: k in items && k < |o.ids| && o.ids[k] == id
  }

  ghost predicate ForcedOn(o: Options, items: set<nat>, errors: Errors, errors': Errors) {
    forall id ::
      if Listed(o, items, id) then id in errors' && errors'[id] == UnknownError
      else (id in errors' <==> id in errors) && (id in errors ==> errors'[id] == errors[id])
  }

  lemma ForcedByList(o: Options, rows: seq<InfoRow>, errors: Errors, errors': Errors, unresolved: set<nat>)
    requires ValidRows(o, rows)
    requires forall id :: Listed(o, unresolved, id) <==> UnresolvedId(o, rows, errors, id)
    requires ForcedOn(o, unresolved, errors, errors')
    ensures Forced(o, rows, errors, errors')
  {
  }

  lemma ListMore(o: Options, items: set<nat>, k: nat)
    requires k < |o.ids|
    ensures forall id :: Listed(o, items + {k}, id) <==> Listed(o, items, id) || id == o.ids[k]
  {
    forall id ensures Listed(o, items + {k}, id) <==> Listed(o, items, id) || id == o.ids[k] {
      assert k in items + {k};
      if j :| j in items && j < |o.ids| && o.ids[j] == id {
        assert j in items + {k};
      }
    }
  }

  lemma CollectedAll(o: Options, rows: seq<InfoRow>, errors: Errors, unresolved: set<nat>)
    requires ValidRows(o, rows) && Collected(o, rows, errors, unresolved, |rows|)
    ensures forall id :: Listed(o, unresolved, id) <==> UnresolvedId(o, rows, errors, id)
    ensures unresolved == {} <==> AllResolved(o, rows, errors)
  {
    forall id ensures Listed(o, unresolved, id) <==> UnresolvedId(o, rows, errors, id) {
      if UnresolvedId(o, rows, errors, id) {
        var k: nat :| k < |rows| && UnresolvedItem(o, rows, errors, k) && o.ids[k] == id;
        assert k in unresolved;
      }
    }
    if k :| k in unresolved {
      assert UnresolvedItem(o, rows, errors, k);
    }
  }

  ghost predicate IsMaxOther(rows: seq<InfoRow>, i: nat, max: nat)
    requires i < |rows|
    requires forall info :: info in rows[i] ==> info.second < |rows|
  {
    && (forall u :: 0 <= u < |rows[i]| ==> CountType(rows[rows[i][u].second], rows[i][u].ctype) <= max)
    && (exists u :: 0 <= u < |rows[i]| && max == CountType(rows[rows[i][u].second], rows[i][u].ctype))
  }

  lemma OutweighsMax(rows: seq<InfoRow>, i: nat, c: CollisionType, max: nat)
    requires i < |rows| && CountType(rows[i], c) > 0
    requires forall info :: info in rows[i] ==> info.second < |rows|
    requires IsMaxOther(rows, i, max)
    ensures Outweighs(rows, i, c) <==> CountType(rows[i], c) > max
  {
    var u :| 0 <= u < |rows[i]| && max == CountType(rows[rows[i][u].second], rows[i][u].ctype);
    assert rows[i][u] in rows[i];
  }
}
