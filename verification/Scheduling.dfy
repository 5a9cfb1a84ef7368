/** What one critical section of the scheduler does to the shared state, as relations:
    hash-set iteration order is unspecified, so a refill may choose any maximal batch. */
module Scheduling {
  import opened Pairs

  /** The state behind the mutex: pairs not retired yet, locked items, pairs ready to hand out. */
  datatype Sched = Sched(remained: set<Pair>, locked: set<nat>, queue: seq<Pair>)

  ghost predicate IsLocked(p: Pair, locked: set<nat>) {
    p.i in locked || p.j in locked
  }

  function Min(a: nat, b: nat): nat {
    if a <= b then a else b
  }

  function Unlocked(s: Sched, prev: seq<Pair>): Sched {
    Sched(s.remained - PairSet(prev), s.locked - ItemsOf(prev), s.queue)
  }

  /** `news` are remaining pairs, free of conflicts with each other and with everything locked. */
  ghost predicate Selected(remained: set<Pair>, locked: set<nat>, news: seq<Pair>) {
    && ConflictFree(news)
    && (forall p :: p in news ==> p in remained)
    && ItemsOf(news) !! locked
  }

  ghost predicate Exhausted(remained: set<Pair>, locked: set<nat>) {
    forall p :: p in remained ==> IsLocked(p, locked)
  }

  /** A refill: append selected pairs and lock them, until nothing else can be selected. */
  ghost predicate Refilled(s: Sched, s': Sched) {
    && s.queue <= s'.queue
    && var news := s'.queue[|s.queue|..];
       && Selected(s.remained, s.locked, news)
       && s'.locked == s.locked + ItemsOf(news)
       && s'.remained == s.remained
       && Exhausted(s'.remained, s'.locked)
  }

  /** One call of the asynchronous `next(prev)` that returns `got`. */
  ghost predicate NextCall(batchSize: nat, s: Sched, prev: seq<Pair>, got: seq<Pair>, s': Sched) {
    var u := Unlocked(s, prev);
    var mid := s'.(queue := got + s'.queue);
    && (if u.queue == [] then Refilled(u, mid) else mid == u)
    && |got| == Min(batchSize, |mid.queue|)
  }

  function HeldItems(held: seq<seq<Pair>>): set<nat> {
    set w, x | 0 <= w < |held| && x in ItemsOf(held[w]) :: x
  }

  /** The in-flight invariant: queued pairs and the pairs held by each worker are remaining,
      no two of them share an item, and their items are exactly the locked ones. */
  ghost predicate InFlight(s: Sched, held: seq<seq<Pair>>) {
    && ConflictFree(s.queue)
    && (forall p :: p in s.queue ==> p in s.remained)
    && (forall w :: 0 <= w < |held| ==>
          && ConflictFree(held[w])
          && ItemsOf(held[w]) !! ItemsOf(s.queue)
          && (forall p :: p in held[w] ==> p in s.remained))
    && (forall v, w :: 0 <= v < w < |held| ==> ItemsOf(held[v]) !! ItemsOf(held[w]))
    && s.locked == ItemsOf(s.queue) + HeldItems(held)
  }

  /** The product bound `itemCount * batchSize * workerCount` never cuts a scan short: a selection
      that reaches it has locked every item there is. */
  lemma BoundIsEnough(itemCount: nat, bound: nat, remained: set<Pair>, locked: set<nat>, news: seq<Pair>)
    requires InRange(remained, itemCount)
    requires Selected(remained, locked, news)
    requires itemCount <= bound
    requires |news| == bound
    ensures Exhausted(remained, locked + ItemsOf(news))
  {
    ConflictFreeSize(news);
    assert ItemsOf(news) <= Indices(itemCount);
    SubsetSize(ItemsOf(news), Indices(itemCount));
    assert ItemsOf(news) == Indices(itemCount);
  }

  lemma ProductBound(itemCount: nat, batchSize: nat, workerCount: nat)
    requires batchSize >= 1 && workerCount >= 1
    ensures itemCount <= itemCount * batchSize * workerCount
  {
    assert itemCount <= itemCount * batchSize;
    var n := itemCount * batchSize;
    assert n <= n * workerCount;
  }

  lemma HeldItemsUpdate(held: seq<seq<Pair>>, w: nat, ps: seq<Pair>)
    requires w < |held|
    ensures HeldItems(held[w := ps]) == HeldItems(held[w := []]) + ItemsOf(ps)
  {
    var a, b := held[w := ps], held[w := []];
    forall x | x in HeldItems(a) ensures x in HeldItems(b) + ItemsOf(ps) {
      var v :| 0 <= v < |a| && x in ItemsOf(a[v]);
      assert v != w ==> b[v] == a[v];
    }
    forall x | x in HeldItems(b) ensures x in HeldItems(a) {
      var v :| 0 <= v < |b| && x in ItemsOf(b[v]);
      assert a[v] == b[v];
    }
    assert a[w] == ps;
  }

  lemma UnlockKeeps(s: Sched, held: seq<seq<Pair>>, w: nat)
    requires w < |held|
    requires InFlight(s, held)
    ensures InFlight(Unlocked(s, held[w]), held[w := []])
  {
    var u, h := Unlocked(s, held[w]), held[w := []];
    forall p | p in s.queue ensures p in u.remained {
      Apart(s.queue, held[w], p);
    }
    forall v | 0 <= v < |h| && v != w ensures ItemsOf(h[v]) !! ItemsOf(held[w]) {
      assert h[v] == held[v];
    }
    forall v, p | 0 <= v < |h| && p in h[v] ensures p in u.remained {
      Apart(h[v], held[w], p);
    }
    HeldItemsUpdate(held, w, held[w]);
    assert held[w := held[w]] == held;
  }

  lemma Apart(a: seq<Pair>, b: seq<Pair>, p: Pair)
    requires ItemsOf(a) !! ItemsOf(b) && p in a
    ensures p !in b
  {
    assert p.i in Items(p);
    ItemsOfMember(a, p);
    if p in b {
      ItemsOfMember(b, p);
    }
  }

  lemma RefillKeeps(s: Sched, s': Sched, held: seq<seq<Pair>>)
    requires InFlight(s, held)
    requires Refilled(s, s')
    ensures InFlight(s', held)
  {
    var news := s'.queue[|s.queue|..];
    assert s'.queue == s.queue + news;
    ItemsOfConcat(s.queue, news);
    ConflictFreeConcat(s.queue, news);
    forall w | 0 <= w < |held| ensures ItemsOf(held[w]) !! ItemsOf(s'.queue) {
      assert ItemsOf(held[w]) <= HeldItems(held);
    }
  }

  /** Handing the front of the queue to a worker that holds nothing moves locks, it never frees one. */
  lemma HandOutKeeps(s: Sched, held: seq<seq<Pair>>, w: nat, n: nat)
    requires w < |held| && held[w] == [] && n <= |s.queue|
    requires InFlight(s, held)
    ensures InFlight(s.(queue := s.queue[n..]), held[w := s.queue[..n]])
  {
    var got, rest := s.queue[..n], s.queue[n..];
    assert s.queue == got + rest;
    ItemsOfConcat(got, rest);
    ConflictFreeConcat(got, rest);
    HeldItemsUpdate(held, w, got);
    assert held[w := []] == held;
  }

  /** Every call of `next` keeps the in-flight invariant, whatever the refill chose. */
  lemma NextKeepsInFlight(batchSize: nat, s: Sched, held: seq<seq<Pair>>, w: nat, got: seq<Pair>, s': Sched)
    requires w < |held|
    requires InFlight(s, held)
    requires NextCall(batchSize, s, held[w], got, s')
    ensures InFlight(s', held[w := got])
  {
    var u := Unlocked(s, held[w]);
    var mid := s'.(queue := got + s'.queue);
    UnlockKeeps(s, held, w);
    if u.queue == [] {
      RefillKeeps(u, mid, held[w := []]);
    }
    assert mid.queue[..|got|] == got && mid.queue[|got|..] == s'.queue;
    HandOutKeeps(mid, held[w := []], w, |got|);
    assert held[w := []][w := got] == held[w := got];
  }

  /** A worker is sent away empty-handed only when everything that remains is blocked by a pair
      another worker still holds. */
  lemma EmptyHandedOnlyIfBlocked(batchSize: nat, s: Sched, held: seq<seq<Pair>>, w: nat, s': Sched, p: Pair)
    requires w < |held| && batchSize >= 1
    requires InFlight(s, held)
    requires NextCall(batchSize, s, held[w], [], s')
    requires p in s'.remained
    ensures s'.queue == []
    ensures exists v :: 0 <= v < |held| && v != w && Items(p) * ItemsOf(held[v]) != {}
  {
    var mid := s'.(queue := [] + s'.queue);
    assert s'.queue == [];
    NextKeepsInFlight(batchSize, s, held, w, [], s');
    var h := held[w := []];
    var x :| x in Items(p) && x in s'.locked;
    assert x !in ItemsOf(s'.queue);
    assert x in HeldItems(h);
    var v :| 0 <= v < |h| && x in ItemsOf(h[v]);
    assert v != w && held[v] == h[v];
    assert x in Items(p) * ItemsOf(held[v]);
  }

  /** What a call hands out: the front of the queue, a full batch unless that empties the queue; and a
      worker that empties a queue it had to refill leaves nothing selectable behind. */
  lemma HandedOut(batchSize: nat, s: Sched, prev: seq<Pair>, got: seq<Pair>, s': Sched)
    requires NextCall(batchSize, s, prev, got, s')
    ensures |got| == batchSize || (|got| < batchSize && s'.queue == [])
    ensures s.queue != [] ==> s.queue == got + s'.queue && s'.locked == s.locked - ItemsOf(prev)
    ensures s.queue == [] ==> forall p :: p in s'.remained ==> p.i in s'.locked || p.j in s'.locked
    ensures s'.remained == s.remained - PairSet(prev)
  {
    var mid := s'.(queue := got + s'.queue);
    assert |mid.queue| == |got| + |s'.queue|;
    if s.queue == [] {
      assert mid.queue[0..] == mid.queue;
      forall p | p in s'.remained ensures p.i in s'.locked || p.j in s'.locked {
        assert IsLocked(p, mid.locked);
      }
    }
  }

  /** Some refill always exists. */
  lemma {:induction false} SelectionExists(remained: set<Pair>, locked: set<nat>) returns (news: seq<Pair>)
    ensures Selected(remained, locked, news)
    ensures Exhausted(remained, locked + ItemsOf(news))
    decreases remained
  {
    if p :| p in remained && !IsLocked(p, locked) {
      var rest := SelectionExists(remained - {p}, locked + Items(p));
      news := [p] + rest;
      assert p in [p] && ItemsOf([p]) == Items(p);
      ConflictFreeConcat([p], rest);
      ItemsOfConcat([p], rest);
      assert locked + Items(p) + ItemsOf(rest) == locked + ItemsOf(news);
    } else {
      news := [];
    }
  }

  /** `next` is total: from every state the call can return. */
  lemma NextEnabled(batchSize: nat, s: Sched, prev: seq<Pair>) returns (got: seq<Pair>, s': Sched)
    ensures NextCall(batchSize, s, prev, got, s')
  {
    var mid := Unlocked(s, prev);
    if mid.queue == [] {
      var u := mid;
      var news := SelectionExists(u.remained, u.locked);
      mid := Sched(u.remained, u.locked + ItemsOf(news), news);
      assert mid.queue[|u.queue|..] == news;
      assert Refilled(u, mid);
    }
    var n := Min(batchSize, |mid.queue|);
    got, s' := mid.queue[..n], mid.(queue := mid.queue[n..]);
    assert got + s'.queue == mid.queue;
    assert s'.(queue := got + s'.queue) == mid;
  }
}
