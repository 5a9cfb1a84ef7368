/** What the second phase does to two items whose only relation is the one they share: exactly when
    both of them go. */
module SharedRelations {
  import opened CollisionTypes
  import opened CollisionResolution
  import opened ResolutionProperties

  ghost predicate OwnId(o: Options, i: nat)
    requires i < |o.ids|
  {
    forall k: nat :: k < |o.ids| && k != i ==> o.ids[k] != o.ids[i]
  }

  /** Items i and j have a relation of type `c` to each other, none to any other item, and IDs of
      their own. */
  ghost predicate OnlyShared(o: Options, rows: seq<InfoRow>, i: nat, j: nat, v: real, c: CollisionType)
    requires ValidRows(o, rows)
  {
    && i < |rows| && j < |rows| && i != j
    && rows[i] == [CollisionInfo(i, j, v, c)] && rows[j] == [CollisionInfo(j, i, v, c)]
    && OwnId(o, i) && OwnId(o, j)
  }

  ghost predicate BothFree(o: Options, errors: Errors, i: nat, j: nat)
    requires i < |o.ids| && j < |o.ids|
  {
    !Suppressed(errors, o.ids[i]) && !Suppressed(errors, o.ids[j])
  }

  /** Relations whose single-relation rule suppresses the item whatever its partner is like. */
  predicate BlindType(c: CollisionType) {
    c == Interference || c == Coincidence || c == Error
  }

  /** The turn of any other item leaves both as they are. */
  lemma OthersLeaveBoth(o: Options, rows: seq<InfoRow>, errors: Errors, i: nat, j: nat, v: real,
                        c: CollisionType, k: nat)
    requires ValidRows(o, rows) && Symmetric(rows) && OnlyShared(o, rows, i, j, v, c)
    requires k < |rows| && k != i && k != j
    ensures var after := ItemResolved(o, rows, errors, k);
            && (Suppressed(after, o.ids[i]) <==> Suppressed(errors, o.ids[i]))
            && (Suppressed(after, o.ids[j]) <==> Suppressed(errors, o.ids[j]))
  {
    if |rows[k]| == 1 {
      var info := rows[k][0];
      assert info in rows[k];
      assert CollisionInfo(info.second, k, info.value, info.ctype) in rows[info.second];
      assert info.second != i && info.second != j;
    }
  }

  /** The turn of one of the two. */
  lemma OwnTurn(o: Options, rows: seq<InfoRow>, errors: Errors, i: nat, j: nat, v: real, c: CollisionType)
    requires ValidRows(o, rows) && OnlyShared(o, rows, i, j, v, c)
    ensures var after := ItemResolved(o, rows, errors, i);
            && (Suppressed(after, o.ids[i]) <==> Suppressed(errors, o.ids[i]) || GoesFirst(o, i, j, c))
            && (Suppressed(after, o.ids[j]) <==>
                  Suppressed(errors, o.ids[j])
                  || (!Suppressed(errors, o.ids[i]) && c == Enclosure && o.volumes[j] <= o.volumes[i]))
  {
    assert o.ids[i] != o.ids[j];
  }

  /** Item i goes if it has its turn while both are free. */
  predicate GoesFirst(o: Options, i: nat, j: nat, c: CollisionType)
    requires i < |o.volumes| && j < |o.volumes|
  {
    BlindType(c) || (c == Enclosure && o.volumes[i] < o.volumes[j])
  }

  /** Where the two stand when the items below n had their turn. */
  ghost predicate Stand(o: Options, later: Errors, i: nat, j: nat, c: CollisionType, n: nat)
    requires i < |o.ids| == |o.volumes| && j < |o.ids|
  {
    && (Suppressed(later, o.ids[i]) <==> i < n && GoesFirst(o, i, j, c))
    && (Suppressed(later, o.ids[j]) <==>
          (j < n && BlindType(c)) || (i < n && c == Enclosure && o.volumes[j] <= o.volumes[i]))
  }

  lemma NextTurn(o: Options, rows: seq<InfoRow>, errors: Errors, later: Errors, i: nat, j: nat, v: real,
                 c: CollisionType, k: nat, n: nat)
    requires ValidRows(o, rows) && Symmetric(rows) && OnlyShared(o, rows, i, j, v, c) && i < j && k < |rows|
    requires Stand(o, errors, i, j, c, k) && later == ItemResolved(o, rows, errors, k) && n == k + 1
    ensures Stand(o, later, i, j, c, n)
  {
    if k == i {
      OwnTurn(o, rows, errors, i, j, v, c);
    } else if k == j {
      OwnTurn(o, rows, errors, j, i, v, c);
    } else {
      OthersLeaveBoth(o, rows, errors, i, j, v, c, k);
    }
  }

  lemma {:induction false} TurnsOfBoth(o: Options, rows: seq<InfoRow>, errors: Errors, i: nat, j: nat, v: real,
                                       c: CollisionType, n: nat)
    requires ValidRows(o, rows) && Symmetric(rows) && OnlyShared(o, rows, i, j, v, c) && i < j
    requires BothFree(o, errors, i, j) && n <= |rows|
    ensures Stand(o, ItemsResolved(o, rows, errors, n), i, j, c, n)
  {
    if n > 0 {
      var k, before, later := n - 1, ItemsResolved(o, rows, errors, n - 1), ItemsResolved(o, rows, errors, n);
      TurnsOfBoth(o, rows, errors, i, j, v, c, k);
      NextTurn(o, rows, before, later, i, j, v, c, k, n);
    }
  }

  /** The final check forces item i only for the relation it shares with j. */
  lemma ForcedOnlyByShared(o: Options, rows: seq<InfoRow>, errors: Errors, i: nat, j: nat, v: real, c: CollisionType)
    requires ValidRows(o, rows) && Symmetric(rows) && OnlyShared(o, rows, i, j, v, c)
    ensures UnresolvedId(o, rows, errors, o.ids[i]) <==> MustResolve(o, c) && BothFree(o, errors, i, j)
  {
    if UnresolvedId(o, rows, errors, o.ids[i]) {
      var k: nat :| k < |rows| && UnresolvedItem(o, rows, errors, k) && o.ids[k] == o.ids[i];
      var a, info :| UnresolvedRelation(o, rows, errors, a, info) && (k == a || k == info.second);
      if i != a {
        assert CollisionInfo(info.second, a, info.value, info.ctype) in rows[info.second];
      }
    }
    if MustResolve(o, c) && BothFree(o, errors, i, j) {
      assert UnresolvedRelation(o, rows, errors, i, rows[i][0]);
      assert UnresolvedItem(o, rows, errors, i);
    }
  }

  /** Of two items in an enclosure, the one taken for the inner one. */
  predicate Inner(o: Options, i: nat, j: nat)
    requires i < |o.volumes| && j < |o.volumes|
  {
    o.volumes[i] < o.volumes[j] || (o.volumes[i] == o.volumes[j] && j < i)
  }

  /** Relations that cost both items: those whose rule is blind to the partner, and unknown ones that
      are left to the final check. */
  predicate CostsBoth(o: Options, c: CollisionType) {
    BlindType(c) || (c == Unknown && !o.ignoreUnknown)
  }

  /** Item i goes before the final check. */
  predicate GoesInTurn(o: Options, i: nat, j: nat, c: CollisionType)
    requires i < |o.volumes| && j < |o.volumes|
  {
    BlindType(c) || (c == Enclosure && Inner(o, i, j))
  }

  /** Where item i stands when all items had their turn, in either order. */
  lemma AfterAllTurns(o: Options, rows: seq<InfoRow>, errors: Errors, i: nat, j: nat, v: real, c: CollisionType)
    requires ValidRows(o, rows) && Symmetric(rows) && OnlyShared(o, rows, i, j, v, c)
    requires BothFree(o, errors, i, j)
    ensures Suppressed(ItemsResolved(o, rows, errors, |rows|), o.ids[i]) <==> GoesInTurn(o, i, j, c)
  {
    if i < j {
      TurnsOfBoth(o, rows, errors, i, j, v, c, |rows|);
    } else {
      TurnsOfBoth(o, rows, errors, j, i, v, c, |rows|);
    }
  }

  /** What is left to the final check. */
  lemma LeftToCheck(o: Options, i: nat, j: nat, c: CollisionType)
    requires i < |o.volumes| && j < |o.volumes| && i != j
    ensures MustResolve(o, c) && !GoesInTurn(o, i, j, c) && !GoesInTurn(o, j, i, c) <==>
              c == Unknown && !o.ignoreUnknown
  {
  }

  lemma SuppressedIff(o: Options, rows: seq<InfoRow>, errors: Errors, final: Errors, i: nat, j: nat, v: real,
                      c: CollisionType)
    requires ValidRows(o, rows) && Symmetric(rows) && OnlyShared(o, rows, i, j, v, c)
    requires BothFree(o, errors, i, j) && SecondPhase(o, rows, errors, final)
    ensures Suppressed(final, o.ids[i]) <==> CostsBoth(o, c) || (c == Enclosure && Inner(o, i, j))
  {
    AfterAllTurns(o, rows, errors, i, j, v, c);
    AfterAllTurns(o, rows, errors, j, i, v, c);
    LeftToCheck(o, i, j, c);
    ForcedSuppressed(o, rows, ItemsResolved(o, rows, errors, |rows|), final, i, j, v, c);
  }

  lemma ForcedSuppressed(o: Options, rows: seq<InfoRow>, errors: Errors, final: Errors, i: nat, j: nat, v: real,
                         c: CollisionType)
    requires ValidRows(o, rows) && Symmetric(rows) && OnlyShared(o, rows, i, j, v, c) && Forced(o, rows, errors, final)
    ensures Suppressed(final, o.ids[i]) <==>
              Suppressed(errors, o.ids[i]) || (MustResolve(o, c) && BothFree(o, errors, i, j))
  {
    ForcedOnlyByShared(o, rows, errors, i, j, v, c);
    var id := o.ids[i];
    assert if UnresolvedId(o, rows, errors, id) then id in final && final[id] == UnknownError
           else (id in final <==> id in errors) && (id in errors ==> final[id] == errors[id]);
  }

  /** Both ends of a shared relation are suppressed exactly for an interference, a coincidence, an
      error, or an unknown relation that is not ignored; of an enclosure exactly one end goes, and any
      weaker relation costs neither. */
  lemma BothSuppressedIff(o: Options, rows: seq<InfoRow>, errors: Errors, final: Errors, i: nat, j: nat, v: real,
                          c: CollisionType)
    requires ValidRows(o, rows) && Symmetric(rows) && OnlyShared(o, rows, i, j, v, c)
    requires BothFree(o, errors, i, j) && SecondPhase(o, rows, errors, final)
    ensures Suppressed(final, o.ids[i]) && Suppressed(final, o.ids[j]) <==>
              c in {Interference, Coincidence, Error} || (c == Unknown && !o.ignoreUnknown)
    ensures (Suppressed(final, o.ids[i]) <==> !Suppressed(final, o.ids[j])) <==> c == Enclosure
  {
    SuppressedIff(o, rows, errors, final, i, j, v, c);
    SuppressedIff(o, rows, errors, final, j, i, v, c);
  }

  /** Two items that interfere with each other and with nothing else: none survives. */
  lemma InterferingPairVanishes(o: Options, v: real, final: Errors)
    requires o.ids == [7, 9] && |o.volumes| == 2
    requires var rows := [[CollisionInfo(0, 1, v, Interference)], [CollisionInfo(1, 0, v, Interference)]];
             ValidRows(o, rows) && SecondPhase(o, rows, map[], final)
    ensures Suppressed(final, 7) && Suppressed(final, 9)
  {
    var rows := [[CollisionInfo(0, 1, v, Interference)], [CollisionInfo(1, 0, v, Interference)]];
    assert Symmetric(rows);
    BothSuppressedIff(o, rows, map[], final, 0, 1, v, Interference);
  }
}
