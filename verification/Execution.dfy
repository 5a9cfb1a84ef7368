/** Interleaved processing of item pairs. A worker processes a pair as a series of atomic
    sub-steps, each of which may read and write the states of that pair's two items and the
    worker's own local memory, and nothing else. Sub-steps of different workers interleave. */
module Execution {
  import opened Pairs

  /** What processing a pair does: `step` is one sub-step, resolved by a nondeterministic choice. */
  datatype Kernel<!L, !S, !C> = Kernel(
    start: Pair -> L,
    done: (Pair, L) -> bool,
    step: (Pair, C, L, S, S) -> (L, S, S))

  /** What a worker is doing: nothing, or a pair together with its local memory and choices so far. */
  datatype Slot<L, C> = Idle | Active(p: Pair, l: L, cs: seq<C>)

  /** A completed pair with the choices that resolved its sub-steps. */
  datatype Entry<C> = Entry(p: Pair, cs: seq<C>)

  datatype Exec<L, S, C> = Exec(items: seq<S>, slots: seq<Slot<L, C>>, log: seq<Entry<C>>)

  function Store<S>(items: seq<S>, p: Pair, a: S, b: S): (r: seq<S>)
    requires p.i < |items| && p.j < |items|
    ensures |r| == |items|
  {
    items[p.i := a][p.j := b]
  }

  // ----- The three kinds of step -----

  ghost predicate CanBegin<L, S, C>(e: Exec<L, S, C>, w: nat, p: Pair) {
    && w < |e.slots| && e.slots[w].Idle?
    && p.i < |e.items| && p.j < |e.items|
    && forall v :: 0 <= v < |e.slots| && e.slots[v].Active? ==> Items(e.slots[v].p) !! Items(p)
  }

  function Begin<L, S, C>(k: Kernel<L, S, C>, e: Exec<L, S, C>, w: nat, p: Pair): Exec<L, S, C>
    requires w < |e.slots|
  {
    e.(slots := e.slots[w := Active(p, k.start(p), [])])
  }

  ghost predicate IsActive<L, S, C>(e: Exec<L, S, C>, w: nat) {
    w < |e.slots| && e.slots[w].Active? && e.slots[w].p.i < |e.items| && e.slots[w].p.j < |e.items|
  }

  ghost predicate CanMicro<L, S, C>(k: Kernel<L, S, C>, e: Exec<L, S, C>, w: nat) {
    IsActive(e, w) && !k.done(e.slots[w].p, e.slots[w].l)
  }

  ghost function Micro<L, S, C>(k: Kernel<L, S, C>, e: Exec<L, S, C>, w: nat, c: C): Exec<L, S, C>
    requires IsActive(e, w)
  {
    var Active(p, l, cs) := e.slots[w];
    var (l', a, b) := k.step(p, c, l, e.items[p.i], e.items[p.j]);
    Exec(Store(e.items, p, a, b), e.slots[w := Active(p, l', cs + [c])], e.log)
  }

  ghost predicate CanEnd<L, S, C>(k: Kernel<L, S, C>, e: Exec<L, S, C>, w: nat) {
    IsActive(e, w) && k.done(e.slots[w].p, e.slots[w].l)
  }

  function End<L, S, C>(e: Exec<L, S, C>, w: nat): Exec<L, S, C>
    requires w < |e.slots| && e.slots[w].Active?
  {
    e.(slots := e.slots[w := Idle], log := e.log + [Entry(e.slots[w].p, e.slots[w].cs)])
  }

  // ----- The reference: pairs run one at a time -----

  /** Runs a pair alone from item states `a` and `b`, resolving its sub-steps by `cs`. */
  ghost function Alone<L, S, C>(k: Kernel<L, S, C>, p: Pair, cs: seq<C>, a: S, b: S): (L, S, S) {
    if cs == [] then
      (k.start(p), a, b)
    else
      var (l, a1, b1) := Alone(k, p, cs[..|cs| - 1], a, b);
      var (l2, a2, b2) := k.step(p, cs[|cs| - 1], l, a1, b1);
      if p.i == p.j then (l2, b2, b2) else (l2, a2, b2)
  }

  ghost predicate LogInRange<C>(log: seq<Entry<C>>, n: nat) {
    forall t :: 0 <= t < |log| ==> log[t].p.i < n && log[t].p.j < n
  }

  /** The item states after running the logged pairs atomically, one after another. */
  ghost function Serial<L, S, C>(k: Kernel<L, S, C>, log: seq<Entry<C>>, items: seq<S>): (r: seq<S>)
    requires LogInRange(log, |items|)
    ensures |r| == |items|
  {
    if log == [] then
      items
    else
      var before := Serial(k, log[..|log| - 1], items);
      var Entry(p, cs) := log[|log| - 1];
      var (_, a, b) := Alone(k, p, cs, before[p.i], before[p.j]);
      Store(before, p, a, b)
  }

  /** The pair, alone, is not done after any proper prefix of the choices. */
  ghost predicate Unfinished<L, S, C>(k: Kernel<L, S, C>, p: Pair, cs: seq<C>, a: S, b: S) {
    cs == [] ||
      var before := cs[..|cs| - 1];
      Unfinished(k, p, before, a, b) && !k.done(p, Alone(k, p, before, a, b).0)
  }

  lemma {:induction false} UnfinishedPrefix<L, S, C>(k: Kernel<L, S, C>, p: Pair, cs: seq<C>, a: S, b: S, t: nat)
    requires Unfinished(k, p, cs, a, b) && t < |cs|
    ensures !k.done(p, Alone(k, p, cs[..t], a, b).0)
  {
    var before := cs[..|cs| - 1];
    if t < |before| {
      UnfinishedPrefix(k, p, before, a, b, t);
      assert before[..t] == cs[..t];
    }
  }

  /** The choices `cs` drive the pair, alone, to its end and not beyond. */
  ghost predicate Complete<L, S, C>(k: Kernel<L, S, C>, p: Pair, cs: seq<C>, a: S, b: S) {
    Unfinished(k, p, cs, a, b) && k.done(p, Alone(k, p, cs, a, b).0)
  }

  /** Each logged pair, run alone after its predecessors, takes exactly its logged choices. */
  ghost predicate CompleteLog<L, S, C>(k: Kernel<L, S, C>, log: seq<Entry<C>>, items: seq<S>)
    requires LogInRange(log, |items|)
  {
    log == [] ||
      var before, last := log[..|log| - 1], log[|log| - 1];
      var start := Serial(k, before, items);
      CompleteLog(k, before, items) && Complete(k, last.p, last.cs, start[last.p.i], start[last.p.j])
  }

  // ----- The simulation invariant -----

  ghost predicate Touched<L, S, C>(e: Exec<L, S, C>, x: nat) {
    exists w :: 0 <= w < |e.slots| && e.slots[w].Active? && x in Items(e.slots[w].p)
  }

  ghost predicate Apart<L, S, C>(e: Exec<L, S, C>) {
    forall v, w :: 0 <= v < w < |e.slots| && e.slots[v].Active? && e.slots[w].Active? ==>
      Items(e.slots[v].p) !! Items(e.slots[w].p)
  }

  ghost predicate SlotSimulated<L, S, C>(k: Kernel<L, S, C>, e: Exec<L, S, C>, w: nat, serial: seq<S>)
    requires w < |e.slots| && |serial| == |e.items|
  {
    e.slots[w].Active? ==>
      && IsActive(e, w)
      && var Active(p, l, cs) := e.slots[w];
         && Alone(k, p, cs, serial[p.i], serial[p.j]) == (l, e.items[p.i], e.items[p.j])
         && Unfinished(k, p, cs, serial[p.i], serial[p.j])
  }

  /** Items nobody is working on are as the serial run of the completed pairs left them; items of
      a pair in progress are as that pair alone would have left them by now. */
  ghost predicate Simulated<L, S, C>(k: Kernel<L, S, C>, e: Exec<L, S, C>, items0: seq<S>) {
    && |e.items| == |items0|
    && LogInRange(e.log, |items0|)
    && CompleteLog(k, e.log, items0)
    && Apart(e)
    && var serial := Serial(k, e.log, items0);
       && (forall x :: 0 <= x < |items0| && !Touched(e, x) ==> e.items[x] == serial[x])
       && (forall w :: 0 <= w < |e.slots| ==> SlotSimulated(k, e, w, serial))
  }

  lemma TouchedBy<L, S, C>(e: Exec<L, S, C>, w: nat, x: nat)
    requires w < |e.slots| && e.slots[w].Active? && x in Items(e.slots[w].p)
    ensures Touched(e, x)
  {
  }

  lemma BeginKeeps<L, S, C>(k: Kernel<L, S, C>, e: Exec<L, S, C>, w: nat, p: Pair, items0: seq<S>)
    requires Simulated(k, e, items0) && CanBegin(e, w, p)
    ensures Simulated(k, Begin(k, e, w, p), items0)
  {
    var e' := Begin(k, e, w, p);
    var serial := Serial(k, e.log, items0);
    forall x | 0 <= x < |items0| && x in Items(p) ensures e.items[x] == serial[x] {
      assert !Touched(e, x);
    }
    assert p.i in Items(p) && p.j in Items(p);
    forall x | Touched(e, x) ensures Touched(e', x) {
      var v :| 0 <= v < |e.slots| && e.slots[v].Active? && x in Items(e.slots[v].p);
      assert e'.slots[v] == e.slots[v];
    }
    forall v | 0 <= v < |e'.slots| ensures SlotSimulated(k, e', v, serial) {
      assert SlotSimulated(k, e, v, serial);
    }
  }

  lemma MicroKeeps<L, S, C>(k: Kernel<L, S, C>, e: Exec<L, S, C>, w: nat, c: C, items0: seq<S>)
    requires Simulated(k, e, items0) && CanMicro(k, e, w)
    ensures Simulated(k, Micro(k, e, w, c), items0)
  {
    var e' := Micro(k, e, w, c);
    var serial := Serial(k, e.log, items0);
    var Active(p, l, cs) := e.slots[w];
    forall x | Touched(e, x) ensures Touched(e', x) {
      var v :| 0 <= v < |e.slots| && e.slots[v].Active? && x in Items(e.slots[v].p);
      assert e'.slots[v].Active? && e'.slots[v].p == e.slots[v].p;
    }
    forall x | 0 <= x < |items0| && !Touched(e', x) ensures e'.items[x] == serial[x] {
    }
    forall v | 0 <= v < |e'.slots| ensures SlotSimulated(k, e', v, serial) {
      assert SlotSimulated(k, e, v, serial);
      if v == w {
        MicroExtends(k, p, cs, c, serial[p.i], serial[p.j]);
      } else if e.slots[v].Active? {
        var q := e.slots[v].p;
        assert Items(q) !! Items(p);
        assert q.i in Items(q) && q.j in Items(q) && p.i in Items(p) && p.j in Items(p);
      }
    }
  }

  lemma MicroExtends<L, S, C>(k: Kernel<L, S, C>, p: Pair, cs: seq<C>, c: C, a: S, b: S)
    requires Unfinished(k, p, cs, a, b) && !k.done(p, Alone(k, p, cs, a, b).0)
    ensures Unfinished(k, p, cs + [c], a, b)
    ensures var (l, a1, b1) := Alone(k, p, cs, a, b);
            var (l2, a2, b2) := k.step(p, c, l, a1, b1);
            Alone(k, p, cs + [c], a, b) == (l2, if p.i == p.j then b2 else a2, b2)
  {
    assert (cs + [c])[..|cs|] == cs;
  }

  lemma SerialExtends<L, S, C>(k: Kernel<L, S, C>, log: seq<Entry<C>>, next: Entry<C>, items: seq<S>)
    requires LogInRange(log, |items|) && next.p.i < |items| && next.p.j < |items|
    ensures var before := Serial(k, log, items);
            var (_, a, b) := Alone(k, next.p, next.cs, before[next.p.i], before[next.p.j]);
            Serial(k, log + [next], items) == Store(before, next.p, a, b)
  {
    assert (log + [next])[..|log|] == log;
  }

  lemma CompleteLogExtends<L, S, C>(k: Kernel<L, S, C>, log: seq<Entry<C>>, next: Entry<C>, items: seq<S>)
    requires LogInRange(log, |items|) && next.p.i < |items| && next.p.j < |items|
    requires CompleteLog(k, log, items)
    requires var before := Serial(k, log, items);
             Complete(k, next.p, next.cs, before[next.p.i], before[next.p.j])
    ensures CompleteLog(k, log + [next], items)
  {
    assert (log + [next])[..|log|] == log;
  }

  /** Completing a pair leaves every other slot simulated: the pairs are apart. */
  lemma OtherSlot<L, S, C>(k: Kernel<L, S, C>, e: Exec<L, S, C>, w: nat, v: nat, serial: seq<S>, serial': seq<S>)
    requires |serial| == |e.items| && IsActive(e, w) && v < |e.slots| && v != w
    requires Apart(e) && SlotSimulated(k, e, v, serial)
    requires serial' == Store(serial, e.slots[w].p, e.items[e.slots[w].p.i], e.items[e.slots[w].p.j])
    ensures SlotSimulated(k, End(e, w), v, serial')
  {
    if e.slots[v].Active? {
      var p, q := e.slots[w].p, e.slots[v].p;
      assert Items(q) !! Items(p);
      assert q.i in Items(q) && q.j in Items(q) && p.i in Items(p) && p.j in Items(p);
      assert serial'[q.i] == serial[q.i] && serial'[q.j] == serial[q.j];
    }
  }

  lemma EndKeeps<L, S, C>(k: Kernel<L, S, C>, e: Exec<L, S, C>, w: nat, items0: seq<S>)
    requires Simulated(k, e, items0) && CanEnd(k, e, w)
    ensures Simulated(k, End(e, w), items0)
  {
    var e' := End(e, w);
    var serial := Serial(k, e.log, items0);
    var Active(p, l, cs) := e.slots[w];
    assert SlotSimulated(k, e, w, serial);
    SerialExtends(k, e.log, Entry(p, cs), items0);
    CompleteLogExtends(k, e.log, Entry(p, cs), items0);
    var serial' := Serial(k, e'.log, items0);
    forall x | 0 <= x < |items0| && !Touched(e', x) ensures e'.items[x] == serial'[x] {
      EndUntouched(e, w, x);
    }
    forall v | 0 <= v < |e'.slots| ensures SlotSimulated(k, e', v, serial') {
      if v != w {
        assert SlotSimulated(k, e, v, serial);
        OtherSlot(k, e, w, v, serial, serial');
      }
    }
  }

  lemma EndUntouched<L, S, C>(e: Exec<L, S, C>, w: nat, x: nat)
    requires w < |e.slots| && e.slots[w].Active?
    requires !Touched(End(e, w), x)
    ensures x in Items(e.slots[w].p) || !Touched(e, x)
  {
    if x !in Items(e.slots[w].p) && Touched(e, x) {
      var v :| 0 <= v < |e.slots| && e.slots[v].Active? && x in Items(e.slots[v].p);
      TouchedBy(End(e, w), v, x);
    }
  }

  lemma StartSimulated<L, S, C>(k: Kernel<L, S, C>, e: Exec<L, S, C>, items0: seq<S>)
    requires e.items == items0 && e.log == []
    requires forall w :: 0 <= w < |e.slots| ==> e.slots[w].Idle?
    ensures Simulated(k, e, items0)
  {
  }

  /** Serializability: when no pair is in progress, the interleaved run has left every item as the
      atomic run of the completed pairs, one at a time in completion order, leaves it. */
  lemma Serializable<L, S, C>(k: Kernel<L, S, C>, e: Exec<L, S, C>, items0: seq<S>)
    requires Simulated(k, e, items0)
    requires forall w :: 0 <= w < |e.slots| ==> e.slots[w].Idle?
    ensures e.items == Serial(k, e.log, items0)
    ensures CompleteLog(k, e.log, items0)
  {
    forall x | 0 <= x < |items0| ensures !Touched(e, x) {
    }
  }
}
