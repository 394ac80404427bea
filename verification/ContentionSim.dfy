/** The weave phase of a domain simulated by one thread of its own: events are
    taken from the domain's queue in cycle order up to the phase limit, and each
    may enqueue further events, at its own cycle or later. */
module ContentionSim {
  import opened PrioQueues

  /** What running an event adds to its domain's queue. */
  type Effect<!T> = (T, nat) -> seq<(nat, T)>

  /** TimingEvents are only ever queued at or after the cycle they are run in
      (asserted by ContentionSim::enqueue). */
  ghost predicate Causal<T(!new)>(run: Effect<T>) {
    forall e: T, c: nat, k :: 0 <= k < |run(e, c)| ==> c <= run(e, c)[k].0
  }

  type Log<T> = seq<(nat, T)>

  ghost predicate Ordered<T>(log: Log<T>) {
    forall i, j :: 0 <= i < j < |log| ==> log[i].0 <= log[j].0
  }

  ghost predicate InOrder<T>(log: Log<T>, from: nat, limit: nat) {
    && Ordered(log)
    && (forall i :: 0 <= i < |log| ==> from <= log[i].0 < limit)
  }

  /** Everything the events of a log have enqueued. */
  ghost function Spawned<T>(run: Effect<T>, log: Log<T>): multiset<(nat, T)> {
    if log == [] then multiset{}
    else
      var last := log[|log| - 1];
      Spawned(run, log[..|log| - 1]) + multiset(run(last.1, last.0))
  }

  class Domain<T(!new)> {
    const pq: PrioQueue<T>
    var curCycle: nat

    /** Nothing is queued before the current cycle, which the queue's ring has not passed. */
    ghost predicate Valid()
      reads this, pq
    {
      && pq.Valid()
      && (forall c: nat, x: T :: (c, x) in pq.contents ==> curCycle <= c)
      && pq.curBlock <= curCycle / 64
    }

    constructor (b: nat)
      requires b >= 2
      ensures Valid() && curCycle == 0 && pq.contents == multiset{} && fresh(pq)
    {
      pq := new PrioQueue(b);
      curCycle := 0;
    }

    /** ContentionSim::enqueue and enqueueSynced. */
    method Enqueue(obj: T, cycle: nat)
      requires Valid() && curCycle <= cycle
      modifies pq
      ensures Valid() && pq.contents == old(pq.contents) + multiset{(cycle, obj)}
      ensures pq.curBlock == old(pq.curBlock)
    {
      pq.Enqueue(obj, cycle);
    }

    /** TimingEvent::run, as far as the queue can see. */
    method RunEvent(obj: T, cycle: nat, run: Effect<T>)
      requires Valid() && curCycle == cycle && Causal(run)
      modifies pq
      ensures Valid() && pq.contents == old(pq.contents) + multiset(run(obj, cycle))
      ensures pq.curBlock == old(pq.curBlock)
    {
      var events := run(obj, cycle);
      ghost var start := pq.contents;
      for k := 0 to |events|
        invariant Valid() && curCycle == cycle && pq.curBlock == old(pq.curBlock)
        invariant pq.contents == start + multiset(events[..k])
      {
        assert events[..k + 1] == events[..k] + [events[k]];
        Enqueue(events[k].1, events[k].0);
      }
      assert events[..|events|] == events;
    }

    /** The loop of simulatePhaseThread for a single domain.  Events may go on
        enqueueing events for the current cycle, so the loop is cut off after
        `turns` turns; `finished` tells that it ended by itself. */
    method SimulatePhase(limit: nat, run: Effect<T>, turns: nat) returns (log: Log<T>, finished: bool)
      requires Valid() && curCycle <= limit && Causal(run)
      modifies this`curCycle, pq
      ensures Valid() && InOrder(log, old(curCycle), limit)
      // no event is lost, run twice, or made up
      ensures pq.contents + multiset(log) == old(pq.contents) + Spawned(run, log)
      // none below the limit is left
      ensures finished ==> curCycle == limit
      ensures !finished ==> |log| == turns
    {
      log := [];
      ghost var start, startCycle := pq.contents, curCycle;
      finished := false;
      while |log| < turns
        invariant Valid() && InOrder(log, startCycle, limit) && |log| <= turns
        invariant startCycle <= curCycle && pq.curBlock <= limit / 64
        invariant UpTo(log, curCycle)
        invariant pq.contents + multiset(log) == start + Spawned(run, log)
        decreases turns - |log|
      {
        var size := pq.Size();
        if size == 0 {
          finished := true;
          break;
        }
        var first := pq.FirstCycle();
        if first >= limit {
          finished := true;
          break;
        }
        log := Turn(limit, run, log, start, startCycle);
      }
      if finished {
        curCycle := limit;
      }
    }

    /** One turn: the next event is run and the clock moves on. */
    method Turn(limit: nat, run: Effect<T>, log: Log<T>, ghost start: multiset<(nat, T)>, ghost startCycle: nat)
        returns (log': Log<T>)
      requires Valid() && Causal(run) && pq.elems > 0 && pq.curBlock <= limit / 64
      requires exists c: nat :: c < limit && IsFirst(pq.contents, c)
      requires InOrder(log, startCycle, limit) && UpTo(log, curCycle) && startCycle <= curCycle
      requires pq.contents + multiset(log) == start + Spawned(run, log)
      modifies this`curCycle, pq
      ensures Valid() && |log'| == |log| + 1 && old(curCycle) <= curCycle && pq.curBlock <= limit / 64
      ensures InOrder(log', startCycle, limit) && UpTo(log', curCycle)
      ensures pq.contents + multiset(log') == start + Spawned(run, log')
    {
      ghost var before := pq.contents;
      var obj, cycle := TakeNext();
      OrderGrows(log, startCycle, limit, cycle, obj);
      RunEvent(obj, cycle, run);
      Balance(run, start, before, pq.contents, log, cycle, obj);
      log' := log + [(cycle, obj)];
      MoveOn(limit);
    }

    /** Dequeues the next event and brings the domain's clock to its cycle. */
    method TakeNext() returns (obj: T, cycle: nat)
      requires Valid() && pq.elems > 0
      modifies this`curCycle, pq
      ensures Valid() && curCycle == cycle && old(curCycle) <= cycle && pq.curBlock == cycle / 64
      ensures IsFirst(old(pq.contents), cycle)
      ensures (cycle, obj) in old(pq.contents) && pq.contents == old(pq.contents) - multiset{(cycle, obj)}
    {
      obj, cycle := pq.Dequeue();
      assert exists x: T :: (cycle, x) in old(pq.contents);
      curCycle := cycle;
    }

    /** After an event, the clock goes on to the next event's cycle, or to the limit. */
    method MoveOn(limit: nat)
      requires Valid() && curCycle <= limit
      modifies this`curCycle
      ensures Valid() && old(curCycle) <= curCycle
    {
      var size := pq.Size();
      if size > 0 {
        var next := pq.FirstCycle();
        assert exists x: T :: (next, x) in pq.contents;
        curCycle := next;
      } else {
        curCycle := limit;
      }
    }
  }

  ghost predicate UpTo<T>(log: Log<T>, cycle: nat) {
    forall i :: 0 <= i < |log| ==> log[i].0 <= cycle
  }

  lemma OrderGrows<T>(log: Log<T>, from: nat, limit: nat, cycle: nat, obj: T)
    requires InOrder(log, from, limit) && UpTo(log, cycle) && from <= cycle < limit
    ensures InOrder(log + [(cycle, obj)], from, limit) && UpTo(log + [(cycle, obj)], cycle)
  {
  }

  lemma Balance<T>(run: Effect<T>, start: multiset<(nat, T)>, before: multiset<(nat, T)>, after: multiset<(nat, T)>,
                   log: Log<T>, cycle: nat, obj: T)
    requires before + multiset(log) == start + Spawned(run, log)
    requires (cycle, obj) in before
    requires after == before - multiset{(cycle, obj)} + multiset(run(obj, cycle))
    ensures after + multiset(log + [(cycle, obj)]) == start + Spawned(run, log + [(cycle, obj)])
  {
    var e, r := (cycle, obj), multiset(run(obj, cycle));
    var log' := log + [e];
    assert log'[..|log'| - 1] == log;
    assert multiset(log') == multiset(log) + multiset{e};
    assert Spawned(run, log') == Spawned(run, log) + r;
    assert after + multiset{e} == before + r;
    calc {
      after + multiset(log');
      (after + multiset{e}) + multiset(log);
      (before + multiset(log)) + r;
      start + Spawned(run, log');
    }
  }

  // ---------------------------------------------------------------------------
  // Whole runs
  // ---------------------------------------------------------------------------

  lemma {:induction false} SpawnedConcat<T>(run: Effect<T>, a: Log<T>, b: Log<T>)
    ensures Spawned(run, a + b) == Spawned(run, a) + Spawned(run, b)
  {
    if b == [] {
      assert a + b == a;
    } else {
      var n := |b| - 1;
      SpawnedConcat(run, a, b[..n]);
      assert (a + b)[..|a + b| - 1] == a + b[..n];
    }
  }

  lemma PhasesBalance<T>(run: Effect<T>, initial: multiset<(nat, T)>, mid: multiset<(nat, T)>,
                         left: multiset<(nat, T)>, a: Log<T>, b: Log<T>)
    requires mid + multiset(a) == initial + Spawned(run, a)
    requires left + multiset(b) == mid + Spawned(run, b)
    ensures left + multiset(a + b) == initial + Spawned(run, a + b)
  {
    SpawnedConcat(run, a, b);
    calc {
      left + multiset(a + b);
      (left + multiset(b)) + multiset(a);
      (mid + multiset(a)) + Spawned(run, b);
      initial + Spawned(run, a + b);
    }
  }

  lemma OrderConcat<T>(a: Log<T>, b: Log<T>, cycle: nat, limit: nat)
    requires Ordered(a) && UpTo(a, cycle) && InOrder(b, cycle, limit) && cycle <= limit
    ensures Ordered(a + b) && UpTo(a + b, limit)
  {
  }

  /** A bound phase, which enqueues events, and the limit of the weave phase after it. */
  datatype Phase<T> = Phase(arrivals: seq<(nat, T)>, limit: nat)

  /** Limits rise, and events are enqueued at or after the last one (asserted by
      ContentionSim::enqueueSynced). */
  ghost predicate PhaseOK<T>(phase: Phase<T>, lastLimit: nat) {
    lastLimit <= phase.limit && forall k :: 0 <= k < |phase.arrivals| ==> lastLimit <= phase.arrivals[k].0
  }

  ghost function LastLimit<T>(phases: seq<Phase<T>>, p: nat): nat
    requires p <= |phases|
  {
    if p == 0 then 0 else phases[p - 1].limit
  }

  ghost predicate PhasesOK<T>(phases: seq<Phase<T>>) {
    forall p: nat {:trigger LastLimit(phases, p)} :: p < |phases| ==> PhaseOK(phases[p], LastLimit(phases, p))
  }

  /** All that was enqueued from outside before phase p. */
  ghost function Arrived<T>(phases: seq<Phase<T>>, p: nat): multiset<(nat, T)>
    requires p <= |phases|
  {
    if p == 0 then multiset{} else Arrived(phases, p - 1) + multiset(phases[p - 1].arrivals)
  }

  /** How a simulation stands: events ran in order, and each that arrived or was enqueued
      by another either ran once or is still queued. */
  ghost predicate SimOK<T(!new)>(d: Domain<T>, run: Effect<T>, log: Log<T>, arrived: multiset<(nat, T)>)
    reads d, d.pq
  {
    d.Valid() && Ordered(log) && d.pq.contents + multiset(log) == arrived + Spawned(run, log)
  }

  /** A bound phase. */
  method Arrive<T(!new)>(d: Domain<T>, events: seq<(nat, T)>, run: Effect<T>, ghost log: Log<T>,
                         ghost arrived: multiset<(nat, T)>)
    requires SimOK(d, run, log, arrived) && forall k :: 0 <= k < |events| ==> d.curCycle <= events[k].0
    modifies d.pq
    ensures SimOK(d, run, log, arrived + multiset(events))
  {
    for k := 0 to |events|
      invariant d.Valid() && d.pq.contents == old(d.pq.contents) + multiset(events[..k])
    {
      assert events[..k + 1] == events[..k] + [events[k]];
      d.Enqueue(events[k].1, events[k].0);
    }
    assert events[..|events|] == events;
    ArriveBalance(run, log, old(d.pq.contents), arrived, multiset(events));
  }

  lemma ArriveBalance<T>(run: Effect<T>, log: Log<T>, queued: multiset<(nat, T)>, arrived: multiset<(nat, T)>,
                         more: multiset<(nat, T)>)
    requires queued + multiset(log) == arrived + Spawned(run, log)
    ensures (queued + more) + multiset(log) == (arrived + more) + Spawned(run, log)
  {
    assert (queued + more) + multiset(log) == (queued + multiset(log)) + more;
    assert (arrived + more) + Spawned(run, log) == (arrived + Spawned(run, log)) + more;
  }

  /** A weave phase. */
  method Weave<T(!new)>(d: Domain<T>, limit: nat, run: Effect<T>, turns: nat, log: Log<T>,
                        ghost arrived: multiset<(nat, T)>)
      returns (log': Log<T>, finished: bool)
    requires SimOK(d, run, log, arrived) && UpTo(log, d.curCycle) && d.curCycle <= limit && Causal(run)
    modifies d`curCycle, d.pq
    ensures SimOK(d, run, log', arrived) && (finished ==> UpTo(log', limit) && d.curCycle == limit)
  {
    ghost var mid, cycle := d.pq.contents, d.curCycle;
    var phase;
    phase, finished := d.SimulatePhase(limit, run, turns);
    PhasesBalance(run, arrived, mid, d.pq.contents, log, phase);
    OrderConcat(log, phase, cycle, limit);
    log' := log + phase;
  }

  /** Both phases. */
  method Round<T(!new)>(d: Domain<T>, phases: seq<Phase<T>>, p: nat, run: Effect<T>, turns: nat, log: Log<T>)
      returns (log': Log<T>, finished: bool)
    requires p < |phases| && PhasesOK(phases) && Causal(run)
    requires SimOK(d, run, log, Arrived(phases, p)) && UpTo(log, d.curCycle) && d.curCycle == LastLimit(phases, p)
    modifies d`curCycle, d.pq
    ensures SimOK(d, run, log', Arrived(phases, p + 1))
    ensures finished ==> UpTo(log', d.curCycle) && d.curCycle == LastLimit(phases, p + 1)
  {
    assert PhaseOK(phases[p], LastLimit(phases, p));
    Arrive(d, phases[p].arrivals, run, log, Arrived(phases, p));
    log', finished := Weave(d, phases[p].limit, run, turns, log, Arrived(phases, p + 1));
  }

  /** Any arrivals in the bound phases, any causal behaviour and any rising limits: over
      all phases together, events run in order of their cycles, each exactly once,
      and a finished phase leaves none below its limit. */
  method Simulate<T(!new)>(b: nat, phases: seq<Phase<T>>, run: Effect<T>, turns: nat)
    returns (log: Log<T>, done: nat, finished: bool, ghost left: multiset<(nat, T)>)
    requires b >= 2 && Causal(run) && PhasesOK(phases)
    ensures Ordered(log) && done <= |phases| && (finished ==> done == |phases|)
    ensures left + multiset(log) == Arrived(phases, done) + Spawned(run, log)
    ensures finished ==> forall c: nat, x: T :: (c, x) in left ==> LastLimit(phases, |phases|) <= c
  {
    var d := new Domain<T>(b);
    log, done, finished := [], 0, true;
    while done < |phases| && finished
      invariant done <= |phases| && fresh(d) && fresh(d.pq) && SimOK(d, run, log, Arrived(phases, done))
      invariant finished ==> UpTo(log, d.curCycle) && d.curCycle == LastLimit(phases, done)
    {
      log, finished := Round(d, phases, done, run, turns, log);
      done := done + 1;
    }
    left := d.pq.contents;
  }
}
