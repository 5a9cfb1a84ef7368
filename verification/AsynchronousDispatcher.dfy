/** The asynchronous dispatcher: a queue in front of the lock table; any worker that finds it
    empty refills it. All methods run inside the mutex (or before the workers start). */
module AsynchronousDispatchers {
  import opened Pairs
  import opened Scheduling
  import opened ParallelAccessors

  class AsynchronousDispatcher {
    const base: ParallelAccessor
    var queue: seq<Pair>

    constructor (itemCount: nat, workerCount: nat, batchSize: nat)
      ensures fresh(base)
      ensures base.itemCount == itemCount && base.workerCount == workerCount && base.batchSize == batchSize
      ensures State() == Sched({}, {}, []) && base.previouslyLocked == []
    {
      base := new ParallelAccessor(itemCount, workerCount, batchSize);
      queue := [];
    }

    ghost function State(): Sched
      reads this, base
    {
      Sched(base.remained, base.locked, queue)
    }

    /** The setting the executor guarantees: something to hand out to, and indices in range. */
    ghost predicate Ready()
      reads base
    {
      base.workerCount >= 1 && base.batchSize >= 1 && InRange(base.remained, base.itemCount)
    }

    /** Queues up to `productCount` pairs; a bound that no conflict-free selection exceeds makes that
        a full refill. */
    method Produce(productCount: nat)
      modifies this`queue, base`locked
      ensures old(queue) <= queue
      ensures var news := queue[|old(queue)|..];
              && Taken(productCount, base.remained, old(base.locked), news)
              && base.locked == old(base.locked) + ItemsOf(news)
      ensures InRange(base.remained, base.itemCount) && base.itemCount <= productCount ==>
                Refilled(old(State()), State())
    {
      var news := base.Scan(productCount);
      if InRange(base.remained, base.itemCount) && base.itemCount <= productCount == |news| {
        BoundIsEnough(base.itemCount, productCount, base.remained, old(base.locked), news);
      }
      queue := queue + news;
      assert queue[|old(queue)|..] == news;
    }

    method Prepare()
      requires Ready()
      modifies this`queue, base`locked
      ensures Refilled(old(State()), State())
    {
      ProductBound(base.itemCount, base.batchSize, base.workerCount);
      Produce(base.itemCount * base.batchSize * base.workerCount);
    }

    method Consume(productCount: nat) returns (got: seq<Pair>)
      modifies this`queue
      ensures got + queue == old(queue)
      ensures |got| == Min(productCount, |old(queue)|)
    {
      got := [];
      for i := 0 to productCount
        invariant got + queue == old(queue)
        invariant |got| == Min(i, |old(queue)|)
      {
        if |queue| > 0 {
          got := got + [queue[0]];
          queue := queue[1..];
        }
      }
    }

    method Next(prev: seq<Pair>) returns (got: seq<Pair>)
      requires Ready()
      modifies this`queue, base`locked, base`remained
      ensures NextCall(base.batchSize, old(State()), prev, got, State())
      ensures Ready()
    {
      if |prev| > 0 {
        base.Unlock(prev);
      }
      assert State() == Unlocked(old(State()), prev);
      if |queue| == 0 {
        ProductBound(base.itemCount, base.batchSize, base.workerCount);
        Produce(base.itemCount * base.batchSize * base.workerCount);
      }
      ghost var mid := State();
      got := Consume(base.batchSize);
      assert State().(queue := got + State().queue) == mid;
    }
  }
}
