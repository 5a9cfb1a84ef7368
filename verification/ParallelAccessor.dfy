/** The lock table and the set of remaining pairs, with the synchronous (barrier) hand-out. */
module ParallelAccessors {
  import opened Pairs
  import opened Scheduling

  /** A sparse row: column index and value, in insertion order. */
  type Row = seq<(nat, bool)>

  /** The pairs named by the entries of a coupling matrix. */
  function MatrixPairs(rows: seq<Row>): set<Pair> {
    set i, e | 0 <= i < |rows| && e in rows[i] :: Pair(i, e.0)
  }

  lemma MatrixPairsStep(rows: seq<Row>, i: nat)
    requires i < |rows|
    ensures MatrixPairs(rows[..i + 1]) == MatrixPairs(rows[..i]) + set e | e in rows[i] :: Pair(i, e.0)
  {
    var more, less := rows[..i + 1], rows[..i];
    assert more[..i] == less && more[i] == rows[i];
    forall a, e | 0 <= a <= i && e in more[a] ensures a < i ==> e in less[a] {
    }
    forall a, e | 0 <= a < i && e in less[a] ensures e in more[a] {
    }
  }

  /** The batches a round hands out, as one list. */
  function Flatten(batches: seq<seq<Pair>>): seq<Pair> {
    if batches == [] then [] else Flatten(batches[..|batches| - 1]) + batches[|batches| - 1]
  }

  /** One synchronous `next()`: up to `batchSize` selectable pairs, fewer only when none is left. */
  ghost predicate Taken(batchSize: nat, remained: set<Pair>, locked: set<nat>, got: seq<Pair>) {
    && Selected(remained, locked, got)
    && |got| <= batchSize
    && (|got| < batchSize ==> Exhausted(remained, locked + ItemsOf(got)))
  }

  class ParallelAccessor {
    const itemCount: nat
    const workerCount: nat
    const batchSize: nat
    var remained: set<Pair>
    var locked: set<nat>
    var previouslyLocked: seq<seq<Pair>>

    constructor (itemCount: nat, workerCount: nat, batchSize: nat)
      ensures this.itemCount == itemCount && this.workerCount == workerCount && this.batchSize == batchSize
      ensures remained == {} && locked == {} && previouslyLocked == []
    {
      this.itemCount := itemCount;
      this.workerCount := workerCount;
      this.batchSize := batchSize;
      remained, locked, previouslyLocked := {}, {}, [];
    }

    method SetCouplingMatrix(rows: seq<Row>)
      modifies this`remained
      ensures remained == old(remained) + MatrixPairs(rows)
    {
      for i := 0 to |rows|
        invariant remained == old(remained) + MatrixPairs(rows[..i])
      {
        var row := rows[i];
        for k := 0 to |row|
          invariant remained == old(remained) + MatrixPairs(rows[..i])
                                + set e | e in row[..k] :: Pair(i, e.0)
        {
          remained := remained + {Pair(i, row[k].0)};
        }
        assert row[..|row|] == row;
        MatrixPairsStep(rows, i);
      }
      assert rows[..|rows|] == rows;
    }

    method IsPairLocked(p: Pair) returns (r: bool)
      ensures r == IsLocked(p, locked)
    {
      var items := [p.i, p.j];
      for k := 0 to 2
        invariant forall m :: 0 <= m < k ==> items[m] !in locked
      {
        if items[k] in locked {
          return true;
        }
      }
      assert items[0] !in locked && items[1] !in locked;
      return false;
    }

    method LockItem(p: Pair)
      modifies this`locked
      ensures locked == old(locked) + Items(p)
    {
      locked := locked + {p.i};
      locked := locked + {p.j};
    }

    /** Releases the items of finished pairs and retires the pairs themselves. */
    method Unlock(prev: seq<Pair>)
      modifies this`locked, this`remained
      ensures locked == old(locked) - ItemsOf(prev)
      ensures remained == old(remained) - PairSet(prev)
    {
      for k := 0 to |prev|
        invariant locked == old(locked) - ItemsOf(prev[..k])
        invariant remained == old(remained) - PairSet(prev[..k])
      {
        locked := locked - {prev[k].i};
        locked := locked - {prev[k].j};
        remained := remained - {prev[k]};
        assert prev[..k + 1] == prev[..k] + [prev[k]];
        ItemsOfConcat(prev[..k], [prev[k]]);
        ItemsOfMember([prev[k]], prev[k]);
        PairSetConcat(prev[..k], [prev[k]]);
      }
      assert prev[..|prev|] == prev;
    }

    /** The scan shared by `next` and `produce`: walk the remaining pairs once, in any order,
        skip the locked ones and take the others until `limit` are taken. */
    method Scan(limit: nat) returns (got: seq<Pair>)
      modifies this`locked
      ensures Taken(limit, remained, old(locked), got)
      ensures locked == old(locked) + ItemsOf(got)
    {
      var unseen := remained;
      got := [];
      var i := 0;
      while i < limit
        invariant i <= limit && |got| <= i
        invariant unseen <= remained
        invariant Selected(remained, old(locked), got)
        invariant locked == old(locked) + ItemsOf(got)
        invariant Exhausted(remained - unseen, locked)
        invariant |got| < i ==> unseen == {}
      {
        var found := false;
        while unseen != {} && !found
          invariant unseen <= remained
          invariant Selected(remained, old(locked), got)
          invariant locked == old(locked) + ItemsOf(got)
          invariant Exhausted(remained - unseen, locked)
          invariant found ==> |got| == i + 1
          invariant !found ==> |got| <= i && (|got| < i ==> unseen == {})
          decreases |unseen|
        {
          var p :| p in unseen;
          ghost var seen := remained - unseen;
          unseen := unseen - {p};
          assert remained - unseen == seen + {p};
          var busy := IsPairLocked(p);
          if !busy {
            TakeOne(remained, old(locked), got, p);
            got := got + [p];
            LockItem(p);
            found := true;
          }
        }
        i := i + 1;
      }
      if unseen == {} {
        assert remained - unseen == remained;
      }
    }

    /** `next(prev)` of the synchronous accessor. */
    method Next(prev: seq<Pair>) returns (got: seq<Pair>)
      modifies this`locked, this`remained
      ensures remained == old(remained) - PairSet(prev)
      ensures Taken(batchSize, remained, old(locked) - ItemsOf(prev), got)
      ensures locked == old(locked) - ItemsOf(prev) + ItemsOf(got)
    {
      Unlock(prev);
      got := Scan(batchSize);
    }

    method UnlockAll()
      modifies this`locked, this`remained
      ensures locked == {}
      ensures remained == old(remained) - PairSet(Flatten(previouslyLocked))
    {
      locked := {};
      for k := 0 to |previouslyLocked|
        invariant locked == {}
        invariant remained == old(remained) - PairSet(Flatten(previouslyLocked[..k]))
      {
        var ids := previouslyLocked[k];
        for m := 0 to |ids|
          invariant locked == {}
          invariant remained == old(remained) - PairSet(Flatten(previouslyLocked[..k])) - PairSet(ids[..m])
        {
          remained := remained - {ids[m]};
        }
        assert ids[..|ids|] == ids;
        assert previouslyLocked[..k + 1][..k] == previouslyLocked[..k];
        PairSetConcat(Flatten(previouslyLocked[..k]), ids);
      }
      assert previouslyLocked[..|previouslyLocked|] == previouslyLocked;
    }

    /** The batch of the next worker of a round, if anything is left for it. */
    method FillOne(batches: seq<seq<Pair>>, ghost t: nat, ghost next: nat) returns (more: seq<seq<Pair>>)
      requires batchSize >= 1 && next == t + 1
      requires Filling(remained, locked, batchSize, batches, t)
      modifies this`locked, this`remained
      ensures remained == old(remained)
      ensures Filling(remained, locked, batchSize, more, next)
    {
      NothingReturned(remained, locked);
      var tmp := Next([]);
      more := batches;
      if tmp != [] {
        AnotherBatch(remained, old(locked), batchSize, batches, t, tmp, next);
        more := batches + [tmp];
      }
    }

    /** One barrier round: retire the previous round, then fill one batch for each worker. */
    method NextAll() returns (batches: seq<seq<Pair>>)
      requires batchSize >= 1 && workerCount >= 1
      modifies this
      ensures remained == old(remained) - PairSet(Flatten(old(previouslyLocked)))
      ensures previouslyLocked == batches
      ensures Round(batchSize, workerCount, remained, batches)
      ensures locked == ItemsOf(Flatten(batches))
    {
      UnlockAll();
      batches := [];
      for t := 0 to workerCount
        invariant remained == old(remained) - PairSet(Flatten(old(previouslyLocked)))
        invariant Filling(remained, locked, batchSize, batches, t)
      {
        batches := FillOne(batches, t, t + 1);
      }
      FilledRound(remained, locked, batchSize, batches, workerCount);
      previouslyLocked := batches;
    }
  }

  /** At most `batchSize` pairs in each batch, none empty, and every batch but the last one full. */
  ghost predicate WellFilled(batchSize: nat, batches: seq<seq<Pair>>) {
    && (forall b :: 0 <= b < |batches| ==> 0 < |batches[b]| <= batchSize)
    && (forall b :: 0 <= b < |batches| - 1 ==> |batches[b]| == batchSize)
  }

  /** The batches of a round after t workers were asked for: each has a full one, unless the pairs ran out. */
  ghost predicate Filling(remained: set<Pair>, locked: set<nat>, batchSize: nat, batches: seq<seq<Pair>>, t: nat) {
    && |batches| <= t && WellFilled(batchSize, batches)
    && Selected(remained, {}, Flatten(batches))
    && locked == ItemsOf(Flatten(batches))
    && (Exhausted(remained, locked) || (|batches| == t && (t > 0 ==> |batches[t - 1]| == batchSize)))
  }

  /** A barrier round: at most one batch for each worker, filled one after the other, no item shared by
      any two pairs handed out in the round, and less than a full batch for every worker only when each
      remaining pair shares an item with the round. */
  ghost predicate Round(batchSize: nat, workerCount: nat, remained: set<Pair>, batches: seq<seq<Pair>>) {
    && |batches| <= workerCount && WellFilled(batchSize, batches)
    && Taken(workerCount * batchSize, remained, {}, Flatten(batches))
    && (batches == [] ==> remained == {})
  }

  lemma NothingReturned(remained: set<Pair>, locked: set<nat>)
    ensures remained - PairSet([]) == remained && locked - ItemsOf([]) == locked && locked + ItemsOf([]) == locked
  {
  }

  /** Where nothing is left, nothing more can be selected. */
  lemma NothingSelectable(remained: set<Pair>, locked: set<nat>, got: seq<Pair>)
    requires Selected(remained, locked, got) && Exhausted(remained, locked)
    ensures got == []
  {
    if got != [] {
      ItemsOfMember(got, got[0]);
    }
  }

  lemma AnotherBatch(remained: set<Pair>, locked: set<nat>, batchSize: nat, batches: seq<seq<Pair>>, t: nat,
                     got: seq<Pair>, next: nat)
    requires Filling(remained, locked, batchSize, batches, t) && Taken(batchSize, remained, locked, got)
    requires got != [] && next == t + 1
    ensures Filling(remained, locked + ItemsOf(got), batchSize, batches + [got], next)
  {
    if Exhausted(remained, locked) {
      NothingSelectable(remained, locked, got);
    }
    assert (batches + [got])[..|batches|] == batches;
    ConflictFreeConcat(Flatten(batches), got);
    ItemsOfConcat(Flatten(batches), got);
  }

  lemma {:induction false} FlattenSize(batches: seq<seq<Pair>>, size: nat)
    requires forall b :: 0 <= b < |batches| ==> |batches[b]| <= size
    ensures |Flatten(batches)| <= |batches| * size
    ensures (forall b :: 0 <= b < |batches| ==> |batches[b]| == size) ==> |Flatten(batches)| == |batches| * size
  {
    if batches != [] {
      var last := |batches| - 1;
      FlattenSize(batches[..last], size);
      assert |batches| * size == last * size + size;
    }
  }

  lemma FilledRound(remained: set<Pair>, locked: set<nat>, batchSize: nat, batches: seq<seq<Pair>>, workerCount: nat)
    requires Filling(remained, locked, batchSize, batches, workerCount) && workerCount >= 1 && batchSize >= 1
    ensures Round(batchSize, workerCount, remained, batches)
  {
    FlattenSize(batches, batchSize);
    assert |batches| * batchSize <= workerCount * batchSize;
    assert {} + ItemsOf(Flatten(batches)) == locked;
    if batches == [] {
      NothingLeft(remained, locked);
    }
  }

  lemma NothingLeft(remained: set<Pair>, locked: set<nat>)
    requires Exhausted(remained, locked)
    ensures locked == {} ==> remained == {}
  {
    if p :| p in remained {
      assert IsLocked(p, locked);
    }
  }

  lemma TakeOne(remained: set<Pair>, locked: set<nat>, got: seq<Pair>, p: Pair)
    requires Selected(remained, locked, got)
    requires p in remained && !IsLocked(p, locked + ItemsOf(got))
    ensures Selected(remained, locked, got + [p])
    ensures ItemsOf(got + [p]) == ItemsOf(got) + Items(p)
  {
    ItemsOfMember([p], p);
    ConflictFreeConcat(got, [p]);
    ItemsOfConcat(got, [p]);
  }
}
