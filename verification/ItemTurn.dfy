/** What one item's turn in the second phase does, told from its recorded relations. */
module ItemTurns {
  import opened CollisionTypes
  import opened CollisionResolution
  import opened ResolutionProperties
  import opened SharedRelations

  /** The positions of a row whose relation has type c. */
  function Positions(row: InfoRow, c: CollisionType): set<nat> {
    set t: nat | t < |row| && row[t].ctype == c
  }

  lemma PositionsStep(row: InfoRow, c: CollisionType, front: InfoRow, n: nat, here: set<nat>)
    requires |row| == n + 1 && front == row[..n] && here == if row[n].ctype == c then {n} else {}
    ensures Positions(row, c) == Positions(front, c) + here && Positions(front, c) !! here
  {
    forall t: nat
      ensures t in Positions(row, c) <==> t in Positions(front, c) + here
    {
      assert t < n ==> front[t] == row[t];
    }
  }

  lemma {:induction false} CountIsPositions(row: InfoRow, c: CollisionType)
    ensures CountType(row, c) == |Positions(row, c)|
  {
    if row == [] {
      assert Positions(row, c) == {};
    } else {
      var n := |row| - 1;
      var here := if row[n].ctype == c then {n} else {};
      CountIsPositions(row[..n], c);
      PositionsStep(row, c, row[..n], n, here);
    }
  }

  /** Item i has relations of type c, more than any of its partners has of the type it shares with i. */
  ghost predicate Leads(rows: seq<InfoRow>, i: nat, c: CollisionType)
    requires i < |rows| && forall t :: 0 <= t < |rows[i]| ==> rows[i][t].second < |rows|
  {
    && |Positions(rows[i], c)| > 0
    && forall t :: 0 <= t < |rows[i]| ==>
         |Positions(rows[i], c)| > |Positions(rows[rows[i][t].second], rows[i][t].ctype)|
  }

  ghost predicate CoincidesHigher(row: InfoRow, i: nat) {
    exists t :: 0 <= t < |row| && row[t].ctype == Coincidence && i < row[t].second
  }

  lemma LeadsIffOutweighs(rows: seq<InfoRow>, i: nat, c: CollisionType)
    requires i < |rows| && forall t :: 0 <= t < |rows[i]| ==> rows[i][t].second < |rows|
    ensures Leads(rows, i, c) <==> Outweighs(rows, i, c)
  {
    CountIsPositions(rows[i], c);
    forall t | 0 <= t < |rows[i]|
      ensures CountType(rows[rows[i][t].second], rows[i][t].ctype)
              == |Positions(rows[rows[i][t].second], rows[i][t].ctype)|
    {
      CountIsPositions(rows[rows[i][t].second], rows[i][t].ctype);
    }
    if Outweighs(rows, i, c) {
      forall t | 0 <= t < |rows[i]|
        ensures |Positions(rows[i], c)| > |Positions(rows[rows[i][t].second], rows[i][t].ctype)|
      {
        assert rows[i][t] in rows[i];
      }
    }
  }

  lemma LeadsIsSerious(rows: seq<InfoRow>, i: nat, c: CollisionType)
    requires i < |rows| && forall t :: 0 <= t < |rows[i]| ==> rows[i][t].second < |rows|
    requires Leads(rows, i, c) && AtLeast(c, Interference)
    ensures HasAtLeastType(rows[i], Interference)
  {
    var t :| t in Positions(rows[i], c);
    assert rows[i][t] in rows[i];
  }

  lemma HigherIffAbove(row: InfoRow, i: nat)
    ensures CoincidesHigher(row, i) <==> CoincidesAbove(row, i)
    ensures CoincidesHigher(row, i) ==> HasAtLeastType(row, Interference)
  {
    if CoincidesHigher(row, i) {
      var t :| 0 <= t < |row| && row[t].ctype == Coincidence && i < row[t].second;
      assert row[t] in row;
    }
  }

  /** The turn of an item with two or more relations that is free: it is suppressed exactly if it coincides
      with an item of higher index or leads in interferences or in errors, with the code of the first of
      these that applies, and nothing else changes. */
  lemma SeveralTurn(o: Options, rows: seq<InfoRow>, errors: Errors, i: nat)
    requires ValidRows(o, rows) && i < |rows| && |rows[i]| >= 2 && !Suppressed(errors, o.ids[i])
    ensures ItemResolved(o, rows, errors, i) ==
              if CoincidesHigher(rows[i], i) then errors[o.ids[i] := CoincidenceError]
              else if Leads(rows, i, Interference) then errors[o.ids[i] := InterferenceError]
              else if Leads(rows, i, Error) then errors[o.ids[i] := UnknownError]
              else errors
  {
    HigherIffAbove(rows[i], i);
    LeadsIffOutweighs(rows, i, Interference);
    LeadsIffOutweighs(rows, i, Error);
    if Leads(rows, i, Interference) {
      LeadsIsSerious(rows, i, Interference);
    }
    if Leads(rows, i, Error) {
      LeadsIsSerious(rows, i, Error);
    }
    SeveralSteps(o, rows, errors, i);
  }

  lemma SeveralSteps(o: Options, rows: seq<InfoRow>, errors: Errors, i: nat)
    requires ValidRows(o, rows) && i < |rows| && !Suppressed(errors, o.ids[i])
    requires CoincidesAbove(rows[i], i) || Outweighs(rows, i, Interference) || Outweighs(rows, i, Error) ==>
               HasAtLeastType(rows[i], Interference)
    ensures SeveralResolved(o, rows, errors, i) ==
              if CoincidesAbove(rows[i], i) then errors[o.ids[i] := CoincidenceError]
              else if Outweighs(rows, i, Interference) then errors[o.ids[i] := InterferenceError]
              else if Outweighs(rows, i, Error) then errors[o.ids[i] := UnknownError]
              else errors
  {
  }

  /** The turn of a free item with one relation or none, type by type. */
  lemma FewTurn(o: Options, rows: seq<InfoRow>, errors: Errors, i: nat)
    requires ValidRows(o, rows) && i < |rows| && |rows[i]| <= 1 && !Suppressed(errors, o.ids[i])
    ensures var after, id := ItemResolved(o, rows, errors, i), o.ids[i];
            && (rows[i] == [] ==> after == if o.suppressFloating then errors[id := FloatingShape] else errors)
            && (rows[i] != [] ==>
                  var c, j := rows[i][0].ctype, rows[i][0].second;
                  && (c == Interference ==> after == errors[id := InterferenceError])
                  && (c == Coincidence ==> after == errors[id := CoincidenceError])
                  && (c == Error ==> after == errors[id := UnknownError])
                  && (c == Enclosure && o.volumes[i] < o.volumes[j] ==> after == errors[id := EnclosureError])
                  && (c == Enclosure && o.volumes[j] <= o.volumes[i] && Suppressed(errors, o.ids[j]) ==>
                        after == errors)
                  && (c == Enclosure && o.volumes[j] <= o.volumes[i] && !Suppressed(errors, o.ids[j]) ==>
                        after == errors[o.ids[j] := EnclosureError])
                  && (c in {NoCollision, Clearance, VertexContact, EdgeContact, FaceContact, WeakInterference, Unknown}
                      ==> after == errors))
  {
  }

  /** A suppressed item's turn does nothing. */
  lemma SuppressedTurn(o: Options, rows: seq<InfoRow>, errors: Errors, i: nat)
    requires ValidRows(o, rows) && i < |rows| && Suppressed(errors, o.ids[i])
    ensures ItemResolved(o, rows, errors, i) == errors
  {
  }

  // ----- A group of coinciding items -----

  /** Three or more items with IDs of their own, each of which coincides with every other one and has no
      other relation. */
  ghost predicate CoincidentGroup(o: Options, rows: seq<InfoRow>, group: set<nat>)
    requires ValidRows(o, rows)
  {
    && |group| >= 3
    && (forall i :: i in group ==> i < |rows| && OwnId(o, i))
    && (forall i, info :: i in group && info in rows[i] ==>
          info.second in group && info.second != i && info.ctype == Coincidence)
    && (forall i, j :: i in group && j in group && i != j ==> exists info :: info in rows[i] && info.second == j)
  }

  lemma TwoOthers(group: set<nat>, i: nat) returns (a: nat, b: nat)
    requires |group| >= 3 && i in group
    ensures a in group && b in group && a != i && b != i && a != b
  {
    var rest := group - {i};
    assert |rest| == |group| - 1;
    a :| a in rest;
    assert |rest - {a}| == |rest| - 1;
    b :| b in rest - {a};
  }

  lemma SeveralInGroup(o: Options, rows: seq<InfoRow>, group: set<nat>, i: nat)
    requires ValidRows(o, rows) && CoincidentGroup(o, rows, group) && i in group
    ensures |rows[i]| >= 2
  {
    var a, b := TwoOthers(group, i);
    var x :| x in rows[i] && x.second == a;
    var y :| y in rows[i] && y.second == b;
  }

  lemma NoneLeadsInGroup(o: Options, rows: seq<InfoRow>, group: set<nat>, i: nat, c: CollisionType)
    requires ValidRows(o, rows) && CoincidentGroup(o, rows, group) && i in group && c != Coincidence
    ensures !Leads(rows, i, c)
  {
    forall t: nat | t < |rows[i]|
      ensures t !in Positions(rows[i], c)
    {
      var info := rows[i][t];
      assert info in rows[i] && info.ctype == Coincidence;
    }
    assert Positions(rows[i], c) == {};
  }

  /** The turn of a free item of the group. */
  lemma GroupTurn(o: Options, rows: seq<InfoRow>, errors: Errors, group: set<nat>, high: nat, i: nat)
    requires ValidRows(o, rows) && CoincidentGroup(o, rows, group) && i in group
    requires high in group && forall k :: k in group ==> k <= high
    requires !Suppressed(errors, o.ids[i])
    ensures ItemResolved(o, rows, errors, i) == if i == high then errors else errors[o.ids[i] := CoincidenceError]
  {
    SeveralInGroup(o, rows, group, i);
    SeveralTurn(o, rows, errors, i);
    NoneLeadsInGroup(o, rows, group, i, Interference);
    NoneLeadsInGroup(o, rows, group, i, Error);
    if i != high {
      var info :| info in rows[i] && info.second == high;
      var t :| 0 <= t < |rows[i]| && rows[i][t] == info;
      assert CoincidesHigher(rows[i], i);
    } else if CoincidesHigher(rows[i], i) {
      var t :| 0 <= t < |rows[i]| && rows[i][t].ctype == Coincidence && i < rows[i][t].second;
      assert rows[i][t] in rows[i];
    }
  }

  /** A turn touches the item's own ID and that of its only partner, no other. */
  lemma TurnLeaves(o: Options, rows: seq<InfoRow>, errors: Errors, k: nat, id: int)
    requires ValidRows(o, rows) && k < |rows|
    requires o.ids[k] != id && (|rows[k]| == 1 ==> o.ids[rows[k][0].second] != id)
    ensures var after := ItemResolved(o, rows, errors, k);
            (id in after <==> id in errors) && (id in errors ==> after[id] == errors[id])
  {
  }

  /** The turn of any other item leaves the group alone. */
  lemma OthersLeaveGroup(o: Options, rows: seq<InfoRow>, errors: Errors, group: set<nat>, k: nat, i: nat)
    requires ValidRows(o, rows) && Symmetric(rows) && CoincidentGroup(o, rows, group)
    requires k < |rows| && k !in group && i in group
    ensures var after, id := ItemResolved(o, rows, errors, k), o.ids[i];
            (id in after <==> id in errors) && (id in errors ==> after[id] == errors[id])
  {
    if |rows[k]| == 1 {
      var info := rows[k][0];
      assert info in rows[k];
      assert CollisionInfo(info.second, k, info.value, info.ctype) in rows[info.second];
      assert info.second !in group;
    }
    TurnLeaves(o, rows, errors, k, o.ids[i]);
  }

  /** Where the group stands when the items below n had their turn. */
  ghost predicate GroupStand(o: Options, later: Errors, group: set<nat>, high: nat, n: nat)
    requires forall i :: i in group ==> i < |o.ids|
  {
    forall i :: i in group ==>
      if i < n && i != high then o.ids[i] in later && later[o.ids[i]] == CoincidenceError
      else !Suppressed(later, o.ids[i])
  }

  lemma NextInGroup(o: Options, rows: seq<InfoRow>, errors: Errors, later: Errors, group: set<nat>, high: nat, k: nat,
                    n: nat)
    requires ValidRows(o, rows) && Symmetric(rows) && CoincidentGroup(o, rows, group)
    requires high in group && forall i :: i in group ==> i <= high
    requires k < |rows| && n == k + 1 && later == ItemResolved(o, rows, errors, k)
    requires GroupStand(o, errors, group, high, k)
    ensures GroupStand(o, later, group, high, n)
  {
    if k in group {
      GroupTurn(o, rows, errors, group, high, k);
    } else {
      forall i | i in group
        ensures o.ids[i] in later <==> o.ids[i] in errors
        ensures o.ids[i] in errors ==> later[o.ids[i]] == errors[o.ids[i]]
      {
        OthersLeaveGroup(o, rows, errors, group, k, i);
      }
    }
  }

  lemma {:induction false} GroupTurns(o: Options, rows: seq<InfoRow>, errors: Errors, group: set<nat>, high: nat,
                                      n: nat)
    requires ValidRows(o, rows) && Symmetric(rows) && CoincidentGroup(o, rows, group)
    requires high in group && forall i :: i in group ==> i <= high
    requires forall i :: i in group ==> !Suppressed(errors, o.ids[i])
    requires n <= |rows|
    ensures GroupStand(o, ItemsResolved(o, rows, errors, n), group, high, n)
  {
    if n > 0 {
      var before, later := ItemsResolved(o, rows, errors, n - 1), ItemsResolved(o, rows, errors, n);
      GroupTurns(o, rows, errors, group, high, n - 1);
      NextInGroup(o, rows, before, later, group, high, n - 1, n);
    }
  }

  /** Of two coinciding items of the group one is suppressed by then. */
  lemma OneEndSuppressed(o: Options, rows: seq<InfoRow>, mid: Errors, group: set<nat>, high: nat, i: nat, t: nat)
    requires ValidRows(o, rows) && Symmetric(rows) && CoincidentGroup(o, rows, group)
    requires i < |rows| && t < |rows[i]| && (i in group || rows[i][t].second in group)
    requires GroupStand(o, mid, group, high, |rows|)
    ensures Suppressed(mid, o.ids[i]) || Suppressed(mid, o.ids[rows[i][t].second])
  {
    var info := rows[i][t];
    assert info in rows[i];
    assert CollisionInfo(info.second, i, info.value, info.ctype) in rows[info.second];
    assert i in group && info.second in group && i != info.second;
  }

  lemma GroupNotStanding(o: Options, rows: seq<InfoRow>, mid: Errors, group: set<nat>, high: nat, k: nat)
    requires ValidRows(o, rows) && Symmetric(rows) && CoincidentGroup(o, rows, group) && k in group
    requires GroupStand(o, mid, group, high, |rows|)
    ensures !InStanding(o, rows, mid, k)
  {
    forall i: nat, t: nat | i < |rows| && t < |rows[i]| && (k == i || k == rows[i][t].second)
      ensures !Stands(o, rows, mid, i, t)
    {
      OneEndSuppressed(o, rows, mid, group, high, i, t);
    }
  }

  /** Of a group of items that all coincide and touch nothing else, exactly the one of the highest index is
      kept, whatever the options are; the others carry the coincidence code. */
  lemma HighestOfGroupSurvives(o: Options, rows: seq<InfoRow>, errors: Errors, final: Errors, group: set<nat>,
                               high: nat)
    requires ValidRows(o, rows) && Symmetric(rows) && CoincidentGroup(o, rows, group)
    requires high in group && forall i :: i in group ==> i <= high
    requires forall i :: i in group ==> !Suppressed(errors, o.ids[i])
    requires SecondPhase(o, rows, errors, final)
    ensures forall i :: i in group ==> (Suppressed(final, o.ids[i]) <==> i != high)
    ensures forall i :: i in group && i != high ==> o.ids[i] in final && final[o.ids[i]] == CoincidenceError
  {
    var mid := ItemsResolved(o, rows, errors, |rows|);
    GroupTurns(o, rows, errors, group, high, |rows|);
    ForcedIsStandingForced(o, rows, mid, final);
    forall i | i in group
      ensures o.ids[i] in final <==> o.ids[i] in mid
      ensures o.ids[i] in mid ==> final[o.ids[i]] == mid[o.ids[i]]
    {
      GroupNotStanding(o, rows, mid, group, high, i);
      forall k: nat | k < |rows| && o.ids[k] == o.ids[i] ensures !InStanding(o, rows, mid, k) {
        assert k == i;
      }
    }
  }
}
