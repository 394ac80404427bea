/** The scheduling events of the DRAM controller: events are annulled rather than
    taken out of the simulator's queue, and recycled through a free list. */
module DdrEvents {

  datatype State = IDLE | QUEUED | RUNNING | ANNULLED

  /** Event i is where its state says: idle events are on the free list, a queued one
      is the controller's next event, and an annulled one is neither.  The one that runs,
      if any, may still be the next. */
  ghost predicate EventOK(states: seq<State>, freeList: seq<nat>, next: int, running: int, i: nat)
    requires i < |states|
  {
    && (i in freeList <==> states[i] == IDLE)
    && (states[i] == RUNNING <==> i == running)
    && (i == next ==> states[i] == QUEUED || states[i] == RUNNING)
    && (states[i] == QUEUED ==> i == next)
  }

  ghost predicate Distinct(s: seq<nat>) {
    forall i, j :: 0 <= i < j < |s| ==> s[i] != s[j]
  }

  ghost function Live(states: seq<State>): nat {
    if states == [] then 0 else Live(states[1..]) + if states[0] == QUEUED then 1 else 0
  }

  lemma {:induction false} NoneLive(states: seq<State>)
    requires forall i :: 0 <= i < |states| ==> states[i] != QUEUED
    ensures Live(states) == 0
  {
    if states != [] { NoneLive(states[1..]); }
  }

  lemma {:induction false} OneLive(states: seq<State>, next: nat)
    requires next < |states| && forall i :: 0 <= i < |states| ==> (states[i] == QUEUED <==> i == next)
    ensures Live(states) == 1
  {
    if next == 0 { NoneLive(states[1..]); } else { OneLive(states[1..], next - 1); }
  }

  /** An event is in the simulator's queue. */
  predicate InQueue(states: seq<State>, ev: nat) {
    ev < |states| && (states[ev] == QUEUED || states[ev] == ANNULLED)
  }

  class EventPool {
    var states: seq<State>
    // The system cycle each event was last queued for
    var cycles: seq<nat>
    var next: int
    var freeList: seq<nat>

    /** The pool is in order, while event `running` runs, if that is not -1. */
    ghost predicate ValidWhile(running: int)
      reads this
    {
      && -1 <= next < |states| == |cycles| && -1 <= running < |states|
      && Distinct(freeList) && (forall i :: 0 <= i < |freeList| ==> freeList[i] < |states|)
      && (forall i {:trigger EventOK(states, freeList, next, running, i)} :: 0 <= i < |states| ==>
            EventOK(states, freeList, next, running, i))
    }

    ghost predicate Valid()
      reads this
    {
      ValidWhile(-1)
    }

    constructor ()
      ensures Valid() && next == -1 && states == []
    {
      states, cycles, next, freeList := [], [], -1, [];
    }

    /** Every controller has at most one live event, and it is the next one. */
    lemma OneNext()
      requires Valid()
      ensures Live(states) == if next >= 0 then 1 else 0
      ensures next >= 0 ==> states[next] == QUEUED
    {
      forall i | 0 <= i < |states| ensures states[i] == QUEUED <==> i == next {
        assert EventOK(states, freeList, next, -1, i);
      }
      if next >= 0 { OneLive(states, next); } else { NoneLive(states); }
    }

    /** The part of enqueue that replaces the next event by an earlier one. */
    method Schedule(cycle: nat)
      requires Valid()
      modifies this
      ensures Valid() && next >= 0 && next != old(next) && |states| >= |old(states)| && cycles[next] == cycle
      ensures old(next) >= 0 ==> states[old(next)] == ANNULLED
      ensures forall i :: 0 <= i < |old(states)| && i != next && i != old(next) ==> states[i] == old(states)[i]
    {
      ghost var s0, f0, n0 := states, freeList, next;
      if next >= 0 {
        // annul
        assert EventOK(states, freeList, next, -1, next);
        assert states[next] == QUEUED;
        states := states[next := ANNULLED];
      }
      var ev;
      if freeList != [] {
        ev := freeList[0];
        freeList := freeList[1..];
        assert EventOK(s0, f0, n0, -1, ev);
        assert f0 == [ev] + freeList;
      } else {
        ev := |states|;
        states, cycles := states + [IDLE], cycles + [0];
      }
      assert states[ev] == IDLE;
      states, cycles := states[ev := QUEUED], cycles[ev := cycle];
      next := ev;
      forall i | 0 <= i < |states| ensures EventOK(states, freeList, next, -1, i) {
        if i < |s0| { assert EventOK(s0, f0, n0, -1, i); }
      }
    }

    /** The next event leaves the simulator's queue and runs. */
    method Start(ev: nat)
      requires Valid() && ev < |states| && states[ev] == QUEUED
      modifies this`states
      ensures ValidWhile(ev) && next == ev && states == old(states)[ev := RUNNING]
    {
      ghost var s0 := states;
      assert EventOK(s0, freeList, next, -1, ev);
      states := states[ev := RUNNING];
      forall i | 0 <= i < |states| ensures EventOK(states, freeList, next, ev, i) {
        assert EventOK(s0, freeList, next, -1, i);
      }
    }

    /** The event that runs is no longer the next. */
    method Drop(ghost ev: nat)
      requires ValidWhile(ev) && next == ev
      modifies this`next
      ensures ValidWhile(ev) && next == -1
    {
      ghost var n0 := next;
      next := -1;
      forall i | 0 <= i < |states| ensures EventOK(states, freeList, next, ev, i) {
        assert EventOK(states, freeList, n0, ev, i);
      }
    }

    /** The event that runs is queued again. */
    method Requeue(ev: nat, cycle: nat)
      requires ValidWhile(ev) && next == ev
      modifies this`states, this`cycles
      ensures Valid() && next == ev && states == old(states)[ev := QUEUED] && cycles == old(cycles)[ev := cycle]
    {
      ghost var s0 := states;
      states, cycles := states[ev := QUEUED], cycles[ev := cycle];
      forall i | 0 <= i < |states| ensures EventOK(states, freeList, next, -1, i) {
        assert EventOK(s0, freeList, next, ev, i);
      }
    }

    /** recycleEvent: an event that has run for the last time, or was annulled, goes to
        the free list.  It is not the next one. */
    method Recycle(ev: nat, ghost running: int)
      requires ValidWhile(running) && ev < |states|
               && (if running == ev then next != ev else running == -1 && states[ev] == ANNULLED)
      modifies this`states, this`freeList
      ensures Valid() && next == old(next) && states == old(states)[ev := IDLE] && freeList == [ev] + old(freeList)
    {
      ghost var s0, f0 := states, freeList;
      assert EventOK(s0, f0, next, running, ev);
      assert ev != next;
      states := states[ev := IDLE];
      freeList := [ev] + freeList;
      forall i | 0 <= i < |states| ensures EventOK(states, freeList, next, -1, i) {
        assert EventOK(s0, f0, next, running, i);
      }
    }
  }
}
