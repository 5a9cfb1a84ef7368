/** Item pairs, the unit of work of the coupled-data scheduler, and batches of them. */
module Pairs {

  /** A two-dimensional indexer: the pair of item indices one worker processes at a time. */
  datatype Pair = Pair(i: nat, j: nat)

  function Items(p: Pair): set<nat> {
    {p.i, p.j}
  }

  function PairSet(ps: seq<Pair>): set<Pair> {
    set p | p in ps
  }

  function ItemsOf(ps: seq<Pair>): set<nat> {
    set p, x | p in ps && x in Items(p) :: x
  }

  /** No two positions of the batch touch a common item. */
  ghost predicate ConflictFree(ps: seq<Pair>) {
    forall a, b :: 0 <= a < b < |ps| ==> Items(ps[a]) !! Items(ps[b])
  }

  ghost predicate InRange(ps: set<Pair>, itemCount: nat) {
    forall p :: p in ps ==> p.i < itemCount && p.j < itemCount
  }

  ghost predicate NoDuplicates<T>(s: seq<T>) {
    forall a, b :: 0 <= a < b < |s| ==> s[a] != s[b]
  }

  lemma ItemsOfMember(ps: seq<Pair>, p: Pair)
    requires p in ps
    ensures Items(p) <= ItemsOf(ps)
  {
    forall x | x in Items(p) ensures x in ItemsOf(ps) {
    }
  }

  lemma ItemsOfConcat(a: seq<Pair>, b: seq<Pair>)
    ensures ItemsOf(a + b) == ItemsOf(a) + ItemsOf(b)
  {
  }

  lemma PairSetConcat(a: seq<Pair>, b: seq<Pair>)
    ensures PairSet(a + b) == PairSet(a) + PairSet(b)
  {
  }

  lemma ConflictFreeConcat(a: seq<Pair>, b: seq<Pair>)
    ensures ConflictFree(a + b) <==> ConflictFree(a) && ConflictFree(b) && ItemsOf(a) !! ItemsOf(b)
  {
    var c := a + b;
    if ConflictFree(c) {
      assert forall k :: 0 <= k < |a| ==> a[k] == c[k];
      assert forall k :: 0 <= k < |b| ==> b[k] == c[|a| + k];
      forall x | x in ItemsOf(a) ensures x !in ItemsOf(b) {
        var k :| 0 <= k < |a| && x in Items(a[k]);
      }
    }
    if ConflictFree(a) && ConflictFree(b) && ItemsOf(a) !! ItemsOf(b) {
      forall m, n | 0 <= m < n < |c| ensures Items(c[m]) !! Items(c[n]) {
        if m < |a| <= n {
          assert Items(a[m]) <= ItemsOf(a) && Items(b[n - |a|]) <= ItemsOf(b);
        }
      }
    }
  }

  /** Every pair of a conflict-free batch brings at least one item of its own. */
  lemma {:induction false} ConflictFreeSize(ps: seq<Pair>)
    requires ConflictFree(ps)
    ensures |ps| <= |ItemsOf(ps)|
  {
    if ps != [] {
      var last := ps[|ps| - 1];
      var rest := ps[..|ps| - 1];
      assert ps == rest + [last];
      ConflictFreeConcat(rest, [last]);
      ItemsOfConcat(rest, [last]);
      ConflictFreeSize(rest);
      ItemsOfMember([last], last);
      assert last.i in Items(last);
      SubsetSize(ItemsOf(rest) + {last.i}, ItemsOf(ps));
    }
  }

  lemma {:induction false} SubsetSize<T>(a: set<T>, b: set<T>)
    requires a <= b
    ensures |a| <= |b|
    ensures |a| == |b| ==> a == b
  {
    if a != {} {
      var x :| x in a;
      SubsetSize(a - {x}, b - {x});
    }
  }

  function Indices(n: nat): (r: set<nat>)
    ensures forall x: nat :: x in r <==> x < n
    ensures |r| == n
  {
    if n == 0 then {} else Indices(n - 1) + {n - 1}
  }

  lemma {:induction false} NoDuplicatesSize<T>(s: seq<T>)
    requires NoDuplicates(s)
    ensures |set x | x in s| == |s|
  {
    if s != [] {
      var rest := s[..|s| - 1];
      NoDuplicatesSize(rest);
      assert (set x | x in s) == (set x | x in rest) + {s[|s| - 1]};
    }
  }

  /** A sequence without repetition that lists exactly a set has that set as its multiset. */
  lemma {:induction false} NoDuplicatesMultiset<T>(s: seq<T>)
    requires NoDuplicates(s)
    ensures multiset(s) == multiset(set x | x in s)
  {
    if s != [] {
      var rest := s[..|s| - 1];
      NoDuplicatesMultiset(rest);
      assert s == rest + [s[|s| - 1]];
      assert (set x | x in s) == (set x | x in rest) + {s[|s| - 1]};
    }
  }
}
