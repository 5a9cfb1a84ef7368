/** What the serial second phase guarantees, for all recorded rows. */
module ResolutionProperties {
  import opened CollisionTypes
  import opened CollisionResolution

  /** `final` is what the second phase leaves, starting from `errors`. */
  ghost predicate SecondPhase(o: Options, rows: seq<InfoRow>, errors: Errors, final: Errors)
    requires ValidRows(o, rows)
  {
    Forced(o, rows, ItemsResolved(o, rows, errors, |rows|), final)
  }

  ghost predicate Symmetric(rows: seq<InfoRow>) {
    forall i, info :: 0 <= i < |rows| && info in rows[i] ==>
      info.second < |rows| && CollisionInfo(info.second, i, info.value, info.ctype) in rows[info.second]
  }

  // ----- Row order does not matter -----

  /** The same rows, each in any order. */
  ghost predicate SameUpToOrder(rows: seq<InfoRow>, rows': seq<InfoRow>) {
    |rows| == |rows'| && forall i :: 0 <= i < |rows| ==> multiset(rows[i]) == multiset(rows'[i])
  }

  lemma {:induction false} CountConcat(a: InfoRow, b: InfoRow, c: CollisionType)
    ensures CountType(a + b, c) == CountType(a, c) + CountType(b, c)
  {
    if b == [] {
      assert a + b == a;
    } else {
      assert (a + b)[..|a + b| - 1] == a + b[..|b| - 1];
      CountConcat(a, b[..|b| - 1], c);
    }
  }

  lemma SameRest<T>(a: multiset<T>, b: multiset<T>, x: T)
    requires a + multiset{x} == b + multiset{x}
    ensures a == b
  {
    assert a == a + multiset{x} - multiset{x};
    assert b == b + multiset{x} - multiset{x};
  }

  lemma {:induction false} CountPermuted(a: InfoRow, b: InfoRow, c: CollisionType)
    requires multiset(a) == multiset(b)
    ensures CountType(a, c) == CountType(b, c)
  {
    if a == [] {
      assert |multiset(b)| == 0;
    } else {
      var front, last := a[..|a| - 1], a[|a| - 1];
      assert a == front + [last];
      assert last in multiset(b);
      var t :| 0 <= t < |b| && b[t] == last;
      var l, r := b[..t], b[t + 1..];
      assert b == l + [last] + r;
      assert multiset(b) == multiset(l + r) + multiset{last};
      assert multiset(a) == multiset(front) + multiset{last};
      SameRest(multiset(front), multiset(l + r), last);
      CountPermuted(front, l + r, c);
      CountConcat(l, r, c);
      CountConcat(l + [last], r, c);
      CountConcat(l, [last], c);
      CountConcat(front, [last], c);
    }
  }

  lemma SameMembers(rows: seq<InfoRow>, rows': seq<InfoRow>, i: nat, info: CollisionInfo)
    requires SameUpToOrder(rows, rows') && i < |rows|
    ensures info in rows[i] <==> info in rows'[i]
    ensures |rows[i]| == |rows'[i]|
  {
    assert info in rows[i] <==> info in multiset(rows[i]);
    assert info in rows'[i] <==> info in multiset(rows'[i]);
    assert |rows[i]| == |multiset(rows[i])| && |rows'[i]| == |multiset(rows'[i])|;
  }

  lemma OutweighsPermuted(o: Options, rows: seq<InfoRow>, rows': seq<InfoRow>, i: nat, c: CollisionType)
    requires ValidRows(o, rows) && ValidRows(o, rows') && SameUpToOrder(rows, rows') && i < |rows|
    ensures Outweighs(rows, i, c) <==> Outweighs(rows', i, c)
  {
    CountPermuted(rows[i], rows'[i], c);
    forall info
      ensures info in rows[i] <==> info in rows'[i]
      ensures info in rows[i] ==>
        CountType(rows[info.second], info.ctype) == CountType(rows'[info.second], info.ctype)
    {
      SameMembers(rows, rows', i, info);
      if info in rows[i] {
        CountPermuted(rows[info.second], rows'[info.second], info.ctype);
      }
    }
  }

  lemma ItemResolvedPermuted(o: Options, rows: seq<InfoRow>, rows': seq<InfoRow>, errors: Errors, i: nat)
    requires ValidRows(o, rows) && ValidRows(o, rows') && SameUpToOrder(rows, rows') && i < |rows|
    ensures ItemResolved(o, rows, errors, i) == ItemResolved(o, rows', errors, i)
  {
    forall info ensures info in rows[i] <==> info in rows'[i] {
      SameMembers(rows, rows', i, info);
    }
    SameMembers(rows, rows', i, CollisionInfo(0, 0, 0.0, Error));
    if |rows[i]| == 1 {
      assert rows[i][0] in rows[i];
    } else if |rows[i]| > 1 {
      SeveralResolvedPermuted(o, rows, rows', errors, i);
    }
  }

  lemma SeveralResolvedPermuted(o: Options, rows: seq<InfoRow>, rows': seq<InfoRow>, errors: Errors, i: nat)
    requires ValidRows(o, rows) && ValidRows(o, rows') && SameUpToOrder(rows, rows') && i < |rows|
    requires forall info :: info in rows[i] <==> info in rows'[i]
    ensures SeveralResolved(o, rows, errors, i) == SeveralResolved(o, rows', errors, i)
  {
    OutweighsPermuted(o, rows, rows', i, Interference);
    OutweighsPermuted(o, rows, rows', i, Error);
  }

  lemma {:induction false} ItemsResolvedPermuted(o: Options, rows: seq<InfoRow>, rows': seq<InfoRow>, errors: Errors,
                                                 n: nat)
    requires ValidRows(o, rows) && ValidRows(o, rows') && SameUpToOrder(rows, rows') && n <= |rows|
    ensures ItemsResolved(o, rows, errors, n) == ItemsResolved(o, rows', errors, n)
  {
    if n > 0 {
      ItemsResolvedPermuted(o, rows, rows', errors, n - 1);
      ItemResolvedPermuted(o, rows, rows', ItemsResolved(o, rows, errors, n - 1), n - 1);
    }
  }

  lemma UnresolvedPermuted(o: Options, rows: seq<InfoRow>, rows': seq<InfoRow>, errors: Errors)
    requires ValidRows(o, rows) && ValidRows(o, rows') && SameUpToOrder(rows, rows')
    ensures forall i: nat, info ::
              UnresolvedRelation(o, rows, errors, i, info) <==> UnresolvedRelation(o, rows', errors, i, info)
  {
    forall i: nat, info
      ensures UnresolvedRelation(o, rows, errors, i, info) <==> UnresolvedRelation(o, rows', errors, i, info)
    {
      if i < |rows| {
        SameMembers(rows, rows', i, info);
      }
    }
  }

  lemma UnresolvedIdPermuted(o: Options, rows: seq<InfoRow>, rows': seq<InfoRow>, errors: Errors, id: int)
    requires ValidRows(o, rows) && ValidRows(o, rows') && SameUpToOrder(rows, rows')
    requires UnresolvedId(o, rows, errors, id)
    ensures UnresolvedId(o, rows', errors, id)
  {
    UnresolvedPermuted(o, rows, rows', errors);
    var k: nat :| k < |rows| && UnresolvedItem(o, rows, errors, k) && o.ids[k] == id;
    var i, info :| UnresolvedRelation(o, rows, errors, i, info) && (k == i || k == info.second);
    assert UnresolvedRelation(o, rows', errors, i, info);
    assert UnresolvedItem(o, rows', errors, k);
  }

  /** The second phase is blind to the order of the entries inside every row: the suppressed items,
      their error codes and the returned verdict are the same. */
  lemma RowOrderBlind(o: Options, rows: seq<InfoRow>, rows': seq<InfoRow>, errors: Errors, final: Errors,
                      final': Errors)
    requires ValidRows(o, rows) && ValidRows(o, rows') && SameUpToOrder(rows, rows')
    requires SecondPhase(o, rows, errors, final) && SecondPhase(o, rows', errors, final')
    ensures final == final'
    ensures AllResolved(o, rows, ItemsResolved(o, rows, errors, |rows|))
       <==> AllResolved(o, rows', ItemsResolved(o, rows', errors, |rows'|))
  {
    ItemsResolvedPermuted(o, rows, rows', errors, |rows|);
    var mid := ItemsResolved(o, rows, errors, |rows|);
    UnresolvedPermuted(o, rows, rows', mid);
    SameForced(o, rows, rows', mid, final, final');
  }

  lemma SameForced(o: Options, rows: seq<InfoRow>, rows': seq<InfoRow>, mid: Errors, final: Errors, final': Errors)
    requires ValidRows(o, rows) && ValidRows(o, rows') && SameUpToOrder(rows, rows')
    requires Forced(o, rows, mid, final) && Forced(o, rows', mid, final')
    ensures final == final'
  {
    forall id
      ensures id in final <==> id in final'
      ensures id in final ==> id in final' && final[id] == final'[id]
    {
      if UnresolvedId(o, rows, mid, id) {
        UnresolvedIdPermuted(o, rows, rows', mid, id);
      }
      if UnresolvedId(o, rows', mid, id) {
        UnresolvedIdPermuted(o, rows', rows, mid, id);
      }
    }
    assert final.Keys == final'.Keys;
  }

  // ----- Suppression is final -----

  /** Every code set in `errors` is still there in `later`. */
  ghost predicate Kept(errors: Errors, later: Errors) {
    forall id :: Suppressed(errors, id) ==> id in later && later[id] == errors[id]
  }

  lemma {:induction false} ItemsKeep(o: Options, rows: seq<InfoRow>, errors: Errors, m: nat, n: nat)
    requires ValidRows(o, rows) && m <= n <= |rows|
    ensures Kept(ItemsResolved(o, rows, errors, m), ItemsResolved(o, rows, errors, n))
  {
    if m < n {
      ItemsKeep(o, rows, errors, m, n - 1);
    }
  }

  /** No suppression is undone, and no error code of a suppressed item is overwritten. */
  lemma SuppressionIsFinal(o: Options, rows: seq<InfoRow>, errors: Errors, final: Errors)
    requires ValidRows(o, rows) && SecondPhase(o, rows, errors, final)
    ensures Kept(errors, final)
  {
    ItemsKeep(o, rows, errors, 0, |rows|);
  }

  // ----- Every serious relation is resolved -----

  /** After the second phase no serious relation stands: of every relation of type interference,
      coincidence, enclosure or error (if erroneous items are suppressed) and of every unknown one (unless
      ignored) at least one end is suppressed. The phase reports success exactly when the items' turns had
      already achieved that, and then the final check changes nothing; otherwise it forces exactly the ends
      of the relations that stand. */
  lemma SeriousRelationsResolved(o: Options, rows: seq<InfoRow>, errors: Errors, final: Errors)
    requires ValidRows(o, rows) && SecondPhase(o, rows, errors, final)
    ensures Settled(o, rows, final)
    ensures var mid := ItemsResolved(o, rows, errors, |rows|);
            && (Settled(o, rows, mid) ==> final == mid)
            && StandingForced(o, rows, mid, final)
  {
    var mid := ItemsResolved(o, rows, errors, |rows|);
    ForcedSettles(o, rows, mid, final);
    ForcedIsStandingForced(o, rows, mid, final);
  }

  predicate WeakOnly(row: InfoRow) {
    forall info :: info in row ==>
      info.ctype in {NoCollision, Clearance, VertexContact, EdgeContact, FaceContact, WeakInterference}
  }

  lemma WeakNotStanding(o: Options, rows: seq<InfoRow>, errors: Errors, k: nat, i: nat, t: nat)
    requires ValidRows(o, rows) && Symmetric(rows) && k < |rows| && WeakOnly(rows[k]) && Stands(o, rows, errors, i, t)
    ensures k != i && k != rows[i][t].second
  {
    var info := rows[i][t];
    assert info in rows[i];
    assert CollisionInfo(info.second, i, info.value, info.ctype) in rows[info.second];
  }

  /** An item joined by weaker relations only is never forced. */
  lemma WeakNeverForced(o: Options, rows: seq<InfoRow>, mid: Errors, final: Errors, i: nat)
    requires ValidRows(o, rows) && Symmetric(rows) && Forced(o, rows, mid, final) && i < |rows| && WeakOnly(rows[i])
    requires forall k: nat :: k < |rows| && k != i ==> o.ids[k] != o.ids[i]
    ensures o.ids[i] in final <==> o.ids[i] in mid
    ensures o.ids[i] in mid ==> final[o.ids[i]] == mid[o.ids[i]]
  {
    ForcedIsStandingForced(o, rows, mid, final);
    forall a: nat, t: nat | Stands(o, rows, mid, a, t) ensures i != a && i != rows[a][t].second {
      WeakNotStanding(o, rows, mid, i, a, t);
    }
    var id := o.ids[i];
    forall k: nat | k < |rows| && o.ids[k] == id ensures !InStanding(o, rows, mid, k) {
      assert k == i && !InStanding(o, rows, mid, i);
    }
    assert (id in final <==> id in mid) && (id in mid ==> final[id] == mid[id]);
  }

  // ----- Who gets suppressed -----

  /** Two items joined by a relation of type c never both outweigh their partners in c, so the
      count rule for c never suppresses both. */
  lemma NeverBothOutweigh(o: Options, rows: seq<InfoRow>, i: nat, j: nat, v: real, c: CollisionType)
    requires ValidRows(o, rows) && i < |rows| && j < |rows|
    requires CollisionInfo(i, j, v, c) in rows[i] && CollisionInfo(j, i, v, c) in rows[j]
    ensures !(Outweighs(rows, i, c) && Outweighs(rows, j, c))
  {
    if Outweighs(rows, i, c) {
      assert CountType(rows[i], c) > CountType(rows[j], c);
    }
  }

  /** The single-relation rule does not look at the partner: an item whose only relation is an
      interference, a coincidence or an error is suppressed in any case. Two items whose only
      relation is a shared interference are therefore both suppressed. */
  lemma SoleSeriousRelation(o: Options, rows: seq<InfoRow>, errors: Errors, final: Errors, i: nat)
    requires ValidRows(o, rows) && SecondPhase(o, rows, errors, final) && i < |rows|
    requires |rows[i]| == 1 && rows[i][0].ctype in {Interference, Coincidence, Error}
    ensures Suppressed(final, o.ids[i])
  {
    var mid := ItemsResolved(o, rows, errors, |rows|);
    assert Suppressed(ItemsResolved(o, rows, errors, i + 1), o.ids[i]);
    ItemsKeep(o, rows, errors, i + 1, |rows|);
  }

  /** A reason to suppress a shape: an item with this ID has a relation from Interference up, or is
      floating while floating items are to be suppressed. */
  ghost predicate Justified(o: Options, rows: seq<InfoRow>, id: int)
    requires ValidRows(o, rows)
  {
    exists k: nat :: k < |rows| && o.ids[k] == id
      && (HasAtLeastType(rows[k], Interference) || (o.suppressFloating && rows[k] == []))
  }

  /** Everything suppressed in `later` was suppressed before or is justified. */
  ghost predicate OnlyJustified(o: Options, rows: seq<InfoRow>, errors: Errors, later: Errors)
    requires ValidRows(o, rows)
  {
    forall id :: Suppressed(later, id) ==> Suppressed(errors, id) || Justified(o, rows, id)
  }

  lemma {:induction false} ItemsJustified(o: Options, rows: seq<InfoRow>, errors: Errors, n: nat)
    requires ValidRows(o, rows) && Symmetric(rows) && n <= |rows|
    ensures OnlyJustified(o, rows, errors, ItemsResolved(o, rows, errors, n))
  {
    if n > 0 {
      ItemsJustified(o, rows, errors, n - 1);
    }
  }

  /** Nothing is suppressed without a reason. */
  lemma SuppressionIsJustified(o: Options, rows: seq<InfoRow>, errors: Errors, final: Errors)
    requires ValidRows(o, rows) && Symmetric(rows) && SecondPhase(o, rows, errors, final)
    ensures OnlyJustified(o, rows, errors, final)
  {
    var mid := ItemsResolved(o, rows, errors, |rows|);
    ItemsJustified(o, rows, errors, |rows|);
    forall id | Suppressed(final, id) ensures Suppressed(errors, id) || Justified(o, rows, id) {
      if UnresolvedId(o, rows, mid, id) {
        UnresolvedJustified(o, rows, mid, id);
      }
    }
  }

  lemma UnresolvedJustified(o: Options, rows: seq<InfoRow>, errors: Errors, id: int)
    requires ValidRows(o, rows) && Symmetric(rows) && UnresolvedId(o, rows, errors, id)
    ensures Justified(o, rows, id)
  {
    var k: nat :| k < |rows| && UnresolvedItem(o, rows, errors, k) && o.ids[k] == id;
    var i, info :| UnresolvedRelation(o, rows, errors, i, info) && (k == i || k == info.second);
    assert CollisionInfo(info.second, i, info.value, info.ctype) in rows[info.second];
    assert HasAtLeastType(rows[k], Interference);
  }
}
