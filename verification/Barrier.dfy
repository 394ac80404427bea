/** The bound-phase barrier: threads join, leave and sync; at most
    `parallelThreads` run at a time; a phase ends when everyone has had its turn.
    Operations are atomic (they run under the scheduler lock). */
module Barriers {

  datatype State = OFFLINE | WAITING | RUNNING | LEFT

  datatype Thread = Thread(state: State, futexWord: nat, lastIdx: nat)

  type Threads = seq<Thread>

  // ---------------------------------------------------------------------------
  // Counting
  // ---------------------------------------------------------------------------

  ghost function InState(threads: Threads, s: State): set<nat> {
    set t | 0 <= t < |threads| && threads[t].state == s
  }

  ghost predicate Distinct(list: seq<nat>) {
    forall i, j :: 0 <= i < j < |list| ==> list[i] != list[j]
  }

  ghost function Elements(list: seq<nat>): set<nat> {
    set i | 0 <= i < |list| :: list[i]
  }

  lemma {:induction false} DistinctSize(list: seq<nat>)
    requires Distinct(list)
    ensures |Elements(list)| == |list|
  {
    if list != [] {
      var n := |list| - 1;
      var front := list[..n];
      DistinctSize(front);
      assert Elements(list) == Elements(front) + {list[n]};
      assert list[n] !in Elements(front);
    }
  }

  /** How many threads are in state s. */
  ghost function Count(threads: Threads, s: State): nat {
    if threads == [] then 0
    else Count(threads[..|threads| - 1], s) + (if threads[|threads| - 1].state == s then 1 else 0)
  }

  lemma {:induction false} CountIsSize(threads: Threads, s: State)
    ensures Count(threads, s) == |InState(threads, s)|
  {
    if threads != [] {
      var n := |threads| - 1;
      var front := threads[..n];
      CountIsSize(front, s);
      InStateLast(threads, s);
      assert n !in InState(front, s);
    }
  }

  lemma InStateLast(threads: Threads, s: State)
    requires threads != []
    ensures var n := |threads| - 1;
            InState(threads, s) == InState(threads[..n], s) + if threads[n].state == s then {n} else {}
  {
  }

  lemma {:induction false} OneState(threads: Threads, t: nat, thread: Thread, s: State)
    requires t < |threads|
    ensures Count(threads[t := thread], s) ==
            Count(threads, s) + (if thread.state == s then 1 else 0) - (if threads[t].state == s then 1 else 0)
  {
    var n := |threads| - 1;
    if t < n {
      OneState(threads[..n], t, thread, s);
      assert threads[t := thread][..n] == threads[..n][t := thread];
    } else {
      assert threads[t := thread][..n] == threads[..n];
    }
  }

  lemma {:induction false} CountZero(threads: Threads, s: State)
    requires Count(threads, s) == 0
    ensures forall t :: 0 <= t < |threads| ==> threads[t].state != s
  {
    if threads != [] { CountZero(threads[..|threads| - 1], s); }
  }

  lemma {:induction false} NoneInState(threads: Threads, s: State)
    requires forall t :: 0 <= t < |threads| ==> threads[t].state != s
    ensures Count(threads, s) == 0
  {
    if threads != [] { NoneInState(threads[..|threads| - 1], s); }
  }

  /** If as many threads have LEFT as are listed, all that are listed have. */
  lemma AllLeft(threads: Threads, runList: seq<nat>)
    requires Distinct(runList)
    requires forall i :: 0 <= i < |runList| ==> runList[i] < |threads|
    requires forall t :: 0 <= t < |threads| && threads[t].state == LEFT ==> t in runList
    ensures Count(threads, LEFT) <= |runList|
    ensures Count(threads, LEFT) == |runList| <==> forall i :: 0 <= i < |runList| ==> threads[runList[i]].state == LEFT
  {
    DistinctSize(runList);
    CountIsSize(threads, LEFT);
    var left := InState(threads, LEFT);
    assert left <= Elements(runList);
    SubsetSize(left, Elements(runList));
    if |left| == |runList| {
      forall i | 0 <= i < |runList| ensures threads[runList[i]].state == LEFT {
        assert runList[i] in Elements(runList);
      }
    }
    if forall i :: 0 <= i < |runList| ==> threads[runList[i]].state == LEFT {
      assert Elements(runList) == left;
    }
  }

  lemma SubsetSize(a: set<nat>, b: set<nat>)
    requires a <= b
    ensures |a| <= |b|
    ensures |a| == |b| ==> a == b
  {
    assert b == a + (b - a);
    assert |b| == |a| + |b - a|;
  }

  // ---------------------------------------------------------------------------
  // The barrier's invariant
  // ---------------------------------------------------------------------------

  /** A thread is on the list unless OFFLINE.  Asleep, it can be woken (the
      compare-and-swap on its futex word succeeds).  If it is `known`, lastIdx is
      its place on the list; in a tracked run that covers every thread that has
      LEFT.  `done` threads are asleep. */
  ghost predicate ThreadOK(tracked: bool, threads: Threads, runList: seq<nat>, known: set<nat>, done: set<nat>, t: nat)
    requires t < |threads|
  {
    && (threads[t].state != OFFLINE ==> t in runList)
    && (threads[t].state == WAITING ==> threads[t].futexWord == 1)
    && (t in known ==>
          threads[t].state != OFFLINE && threads[t].lastIdx < |runList| && runList[threads[t].lastIdx] == t)
    && (threads[t].state == RUNNING || (tracked && threads[t].state == LEFT) ==> t in known)
    && (t in done ==> threads[t].state == WAITING)
  }

  /** A list entry names a thread that is not OFFLINE.  One that is still to be
      called in this phase is neither running nor done; in a tracked run, one that
      has been called is running, gone, or done. */
  ghost predicate SlotOK(tracked: bool, threads: Threads, runList: seq<nat>, cur: nat, done: set<nat>, i: nat)
    requires i < |runList|
  {
    && runList[i] < |threads| && threads[runList[i]].state != OFFLINE
    && (cur <= i ==> threads[runList[i]].state != RUNNING && runList[i] !in done)
    && (tracked && i < cur && threads[runList[i]].state == WAITING ==> runList[i] in done)
  }

  /** What holds at every point of every operation. */
  ghost predicate Stage(tracked: bool, par: nat, threads: Threads, runList: seq<nat>, cur: nat, running: nat, left: nat,
                        known: set<nat>, done: set<nat>)
  {
    && 0 < par && cur <= |runList|
    && Distinct(runList)
    && (forall i :: 0 <= i < |runList| ==> SlotOK(tracked, threads, runList, cur, done, i))
    && (forall t :: 0 <= t < |threads| ==> ThreadOK(tracked, threads, runList, known, done, t))
    && (forall t :: t in known || t in done ==> t < |threads|)
    && running == Count(threads, RUNNING) <= par
    && left == Count(threads, LEFT)
  }

  /** Only sleeping threads have been woken, none of them done with the phase. */
  ghost predicate Woke(before: Threads, threads: Threads, known: set<nat>, done: set<nat>) {
    && |threads| == |before|
    && (forall t :: 0 <= t < |threads| ==>
          || threads[t] == before[t]
          || (before[t].state == WAITING && threads[t].state == RUNNING && t !in done && t in known))
  }

  /** Nobody in this stretch of the list is asleep. */
  ghost predicate NoneAsleep(threads: Threads, runList: seq<nat>, from: nat, to: nat) {
    forall i :: from <= i < to && i < |runList| && runList[i] < |threads| ==> threads[runList[i]].state != WAITING
  }

  function Awake(threads: Threads, wtid: nat, idx: nat): Threads
    requires wtid < |threads|
  {
    threads[wtid := Thread(RUNNING, 0, idx)]
  }

  /** One turn of the wake loop on a sleeping thread. */
  lemma WakeNext(tracked: bool, par: nat, threads: Threads, runList: seq<nat>, cur: nat, running: nat, left: nat,
                 known: set<nat>, done: set<nat>)
    requires Stage(tracked, par, threads, runList, cur, running, left, known, done)
    requires cur < |runList| && running < par && runList[cur] < |threads| && threads[runList[cur]].state == WAITING
    ensures Stage(tracked, par, Awake(threads, runList[cur], cur), runList, cur + 1, running + 1, left,
            known + {runList[cur]}, done)
    ensures threads[runList[cur]].futexWord == 1
  {
    var wtid, thread := runList[cur], Thread(RUNNING, 0, cur);
    assert SlotOK(tracked, threads, runList, cur, done, cur);
    OneState(threads, wtid, thread, RUNNING);
    OneState(threads, wtid, thread, LEFT);
    var threads', known', cur' := Awake(threads, wtid, cur), known + {wtid}, cur + 1;
    assert ThreadOK(tracked, threads, runList, known, done, wtid);
    forall i | 0 <= i < |runList| ensures SlotOK(tracked, threads', runList, cur', done, i) {
      assert SlotOK(tracked, threads, runList, cur, done, i);
    }
    forall t | 0 <= t < |threads'| ensures ThreadOK(tracked, threads', runList, known', done, t) {
      assert ThreadOK(tracked, threads, runList, known, done, t);
    }
  }

  lemma WakeNextWoke(before: Threads, threads: Threads, runList: seq<nat>, from: nat, cur: nat, known: set<nat>,
                     done: set<nat>)
    requires cur < |runList| && runList[cur] < |threads| && runList[cur] !in done
             && threads[runList[cur]].state == WAITING
    requires Woke(before, threads, known, done) && NoneAsleep(threads, runList, from, cur)
    ensures Woke(before, Awake(threads, runList[cur], cur), known + {runList[cur]}, done)
    ensures NoneAsleep(Awake(threads, runList[cur], cur), runList, from, cur + 1)
  {
  }

  /** One turn of the wake loop past any other thread. */
  lemma PassNext(tracked: bool, par: nat, threads: Threads, runList: seq<nat>, cur: nat, running: nat, left: nat,
                 known: set<nat>, done: set<nat>)
    requires Stage(tracked, par, threads, runList, cur, running, left, known, done)
    requires cur < |runList| && runList[cur] < |threads| && threads[runList[cur]].state != WAITING
    ensures Stage(tracked, par, threads, runList, cur + 1, running, left, known, done)
  {
    var cur' := cur + 1;
    forall i | 0 <= i < |runList| ensures SlotOK(tracked, threads, runList, cur', done, i) {
      assert SlotOK(tracked, threads, runList, cur, done, i);
    }
  }

  // ---------------------------------------------------------------------------
  // The end of a phase
  // ---------------------------------------------------------------------------

  /** With everyone called and nobody running the phase is over: in a tracked run
      every thread still taking part has synced; the list can be started again. */
  lemma Rewind(tracked: bool, par: nat, threads: Threads, runList: seq<nat>, running: nat, left: nat, known: set<nat>,
               done: set<nat>)
    requires Stage(tracked, par, threads, runList, |runList|, running, left, known, done) && running == 0
    ensures tracked ==> forall t :: 0 <= t < |threads| && threads[t].state == WAITING ==> t in done
    ensures Stage(tracked, par, threads, runList, 0, running, left, known, {})
    ensures left != |runList| ==>
              exists i :: 0 <= i < |runList| && runList[i] < |threads| && threads[runList[i]].state == WAITING
  {
    CountZero(threads, RUNNING);
    forall i | 0 <= i < |runList|
      ensures SlotOK(tracked, threads, runList, 0, {}, i) && runList[i] < |threads|
    {
      assert SlotOK(tracked, threads, runList, |runList|, done, i);
    }
    forall t | 0 <= t < |threads|
      ensures ThreadOK(tracked, threads, runList, known, {}, t) && (threads[t].state == LEFT ==> t in runList)
    {
      assert ThreadOK(tracked, threads, runList, known, done, t);
    }
    AllLeft(threads, runList);
    if left != |runList| {
      var i :| 0 <= i < |runList| && threads[runList[i]].state != LEFT;
      assert SlotOK(tracked, threads, runList, 0, {}, i);
    }
    forall t | 0 <= t < |threads| && tracked && threads[t].state == WAITING ensures t in done {
      assert ThreadOK(tracked, threads, runList, known, done, t);
      var i :| 0 <= i < |runList| && runList[i] == t;
      assert SlotOK(tracked, threads, runList, |runList|, done, i);
    }
  }

  /** The thread that fills a gap in the list, once the leaver is OFFLINE. */
  function TakeOff(threads: Threads, runList: seq<nat>, idx: nat): Threads
    requires idx < |runList| && runList[idx] < |threads| && runList[|runList| - 1] < |threads|
  {
    var off := threads[runList[idx] := threads[runList[idx]].(state := OFFLINE)];
    off[runList[|runList| - 1] := off[runList[|runList| - 1]].(lastIdx := idx)]
  }

  /** One thread that has LEFT is taken off the list, the last entry filling its place. */
  lemma TakeOffOK(tracked: bool, par: nat, threads: Threads, runList: seq<nat>, running: nat, left: nat,
                  known: set<nat>, idx: nat)
    requires Stage(tracked, par, threads, runList, 0, running, left, known, {})
    requires idx < |runList| && runList[idx] < |threads| && threads[runList[idx]].state == LEFT
    requires runList[|runList| - 1] < |threads|
    ensures left > 0
    ensures var n := |runList| - 1;
            Stage(tracked, par, TakeOff(threads, runList, idx), runList[idx := runList[n]][..n], 0, running, left - 1,
                known - {runList[idx]}, {})
  {
    var n := |runList| - 1;
    var wtid, stid := runList[idx], runList[n];
    var off := threads[wtid := threads[wtid].(state := OFFLINE)];
    var threads', runList', known' := TakeOff(threads, runList, idx), runList[idx := stid][..n], known - {wtid};
    OneState(threads, wtid, off[wtid], RUNNING);
    OneState(threads, wtid, off[wtid], LEFT);
    OneState(off, stid, threads'[stid], RUNNING);
    OneState(off, stid, threads'[stid], LEFT);
    forall i | 0 <= i < |runList'| ensures SlotOK(tracked, threads', runList', 0, {}, i) {
      assert SlotOK(tracked, threads, runList, 0, {}, i) && SlotOK(tracked, threads, runList, 0, {}, n);
      assert runList'[i] != wtid;
    }
    forall t | 0 <= t < |threads'| ensures ThreadOK(tracked, threads', runList', known', {}, t) {
      assert ThreadOK(tracked, threads, runList, known, {}, t);
      if t in runList && t != wtid {
        var k :| 0 <= k < |runList| && runList[k] == t;
        assert runList'[if k == n then idx else k] == t;
      }
    }
  }

  /** Two entries of the list exchanged, with the threads' own notes of where they are. */
  function Swap(runList: seq<nat>, i: nat, j: nat): seq<nat>
    requires i < |runList| && j < |runList|
  {
    runList[i := runList[j]][j := runList[i]]
  }

  function Noted(threads: Threads, runList: seq<nat>, i: nat, j: nat): Threads
    requires i < |runList| && j < |runList| && runList[i] < |threads| && runList[j] < |threads|
  {
    var first := threads[runList[i] := threads[runList[i]].(lastIdx := j)];
    first[runList[j] := first[runList[j]].(lastIdx := i)]
  }

  lemma SwapOK(tracked: bool, par: nat, threads: Threads, runList: seq<nat>, cur: nat, running: nat, left: nat,
               known: set<nat>, done: set<nat>, i: nat, j: nat)
    requires Stage(tracked, par, threads, runList, cur, running, left, known, done)
    requires i < |runList| && j < |runList| && (i < cur <==> j < cur)
    requires runList[i] < |threads| && runList[j] < |threads|
    ensures Stage(tracked, par, Noted(threads, runList, i, j), Swap(runList, i, j), cur, running, left, known, done)
  {
    var first := threads[runList[i] := threads[runList[i]].(lastIdx := j)];
    var threads', runList' := Noted(threads, runList, i, j), Swap(runList, i, j);
    OneState(threads, runList[i], first[runList[i]], RUNNING);
    OneState(threads, runList[i], first[runList[i]], LEFT);
    OneState(first, runList[j], threads'[runList[j]], RUNNING);
    OneState(first, runList[j], threads'[runList[j]], LEFT);
    forall k | 0 <= k < |runList'| ensures SlotOK(tracked, threads', runList', cur, done, k) {
      assert SlotOK(tracked, threads, runList, cur, done, k) && SlotOK(tracked, threads, runList, cur, done, i)
             && SlotOK(tracked, threads, runList, cur, done, j);
    }
    forall t | 0 <= t < |threads'| ensures ThreadOK(tracked, threads', runList', known, done, t) {
      assert ThreadOK(tracked, threads, runList, known, done, t);
      if t in runList {
        var k :| 0 <= k < |runList| && runList[k] == t;
        assert runList'[if k == i then j else if k == j then i else k] == t;
      }
    }
  }

  // ---------------------------------------------------------------------------
  // One thread's own steps
  // ---------------------------------------------------------------------------

  /** A running or sleeping thread leaves; in a tracked run, not before it was first woken. */
  lemma LeaveOK(tracked: bool, par: nat, threads: Threads, runList: seq<nat>, cur: nat, running: nat, left: nat,
                known: set<nat>, done: set<nat>, t: nat)
    requires Stage(tracked, par, threads, runList, cur, running, left, known, done)
    requires t < |threads| && (threads[t].state == RUNNING || threads[t].state == WAITING)
    ensures threads[t].state == RUNNING ==> running > 0
    ensures Stage(tracked && t in known, par, threads[t := threads[t].(state := LEFT)], runList, cur,
                  running - (if threads[t].state == RUNNING then 1 else 0), left + 1, known, done - {t})
  {
    var thread := threads[t].(state := LEFT);
    var tracked', threads', done' := tracked && t in known, threads[t := thread], done - {t};
    OneState(threads, t, thread, RUNNING);
    OneState(threads, t, thread, LEFT);
    forall i | 0 <= i < |runList| ensures SlotOK(tracked', threads', runList, cur, done', i) {
      assert SlotOK(tracked, threads, runList, cur, done, i);
    }
    forall k | 0 <= k < |threads'| ensures ThreadOK(tracked', threads', runList, known, done', k) {
      assert ThreadOK(tracked, threads, runList, known, done, k);
    }
  }

  /** A running thread syncs: it goes to sleep, done with the phase. */
  lemma SyncOK(tracked: bool, par: nat, threads: Threads, runList: seq<nat>, cur: nat, running: nat, left: nat,
               known: set<nat>, done: set<nat>, t: nat)
    requires Stage(tracked, par, threads, runList, cur, running, left, known, done)
    requires t < |threads| && threads[t].state == RUNNING
    ensures running > 0
    ensures Stage(tracked, par, threads[t := threads[t].(state := WAITING, futexWord := 1)], runList, cur,
                  running - 1, left, known, done + {t})
  {
    var thread := threads[t].(state := WAITING, futexWord := 1);
    var threads', done' := threads[t := thread], done + {t};
    OneState(threads, t, thread, RUNNING);
    OneState(threads, t, thread, LEFT);
    forall i | 0 <= i < |runList| ensures SlotOK(tracked, threads', runList, cur, done', i) {
      assert SlotOK(tracked, threads, runList, cur, done, i);
    }
    forall k | 0 <= k < |threads'| ensures ThreadOK(tracked, threads', runList, known, done', k) {
      assert ThreadOK(tracked, threads, runList, known, done, k);
    }
  }

  /** A thread that was OFFLINE comes on at the end of the list. */
  lemma ComeOn(tracked: bool, par: nat, threads: Threads, runList: seq<nat>, cur: nat, running: nat, left: nat,
               known: set<nat>, done: set<nat>, t: nat)
    requires Stage(tracked, par, threads, runList, cur, running, left, known, done)
    requires t < |threads| && threads[t].state == OFFLINE
    ensures Stage(tracked, par, threads[t := threads[t].(state := WAITING, futexWord := 1)], runList + [t], cur,
                  running, left, known, done)
  {
    var thread := threads[t].(state := WAITING, futexWord := 1);
    var threads', runList' := threads[t := thread], runList + [t];
    OneState(threads, t, thread, RUNNING);
    OneState(threads, t, thread, LEFT);
    assert ThreadOK(tracked, threads, runList, known, done, t);
    forall i | 0 <= i < |runList'| ensures SlotOK(tracked, threads', runList', cur, done, i) {
      if i < |runList| { assert SlotOK(tracked, threads, runList, cur, done, i); }
    }
    forall i | 0 <= i < |runList| ensures runList[i] != t {
      assert SlotOK(tracked, threads, runList, cur, done, i);
    }
    forall k | 0 <= k < |threads'| ensures ThreadOK(tracked, threads', runList', known, done, k) {
      assert ThreadOK(tracked, threads, runList, known, done, k);
      assert runList'[|runList|] == t;
    }
  }

  /** A thread that had LEFT comes back to its place, if that is still to be called. */
  lemma ComeBack(tracked: bool, par: nat, threads: Threads, runList: seq<nat>, cur: nat, running: nat, left: nat,
                 known: set<nat>, done: set<nat>, t: nat)
    requires Stage(tracked, par, threads, runList, cur, running, left, known, done)
    requires t < |threads| && threads[t].state == LEFT
    requires tracked ==> cur <= threads[t].lastIdx
    ensures left > 0
    ensures Stage(tracked, par, threads[t := threads[t].(state := WAITING, futexWord := 1)], runList, cur,
                  running, left - 1, known, done)
  {
    var thread := threads[t].(state := WAITING, futexWord := 1);
    var threads' := threads[t := thread];
    OneState(threads, t, thread, RUNNING);
    OneState(threads, t, thread, LEFT);
    assert ThreadOK(tracked, threads, runList, known, done, t);
    forall i | 0 <= i < |runList| ensures SlotOK(tracked, threads', runList, cur, done, i) {
      assert SlotOK(tracked, threads, runList, cur, done, i);
    }
    forall k | 0 <= k < |threads'| ensures ThreadOK(tracked, threads', runList, known, done, k) {
      assert ThreadOK(tracked, threads, runList, known, done, k);
    }
  }

  /** Calling can step back over a thread that has LEFT. */
  lemma StepBack(tracked: bool, par: nat, threads: Threads, runList: seq<nat>, cur: nat, running: nat, left: nat,
                 known: set<nat>, done: set<nat>)
    requires Stage(tracked, par, threads, runList, cur, running, left, known, done)
    requires cur > 0 && runList[cur - 1] < |threads| && threads[runList[cur - 1]].state == LEFT
    ensures Stage(tracked, par, threads, runList, cur - 1, running, left, known, done)
  {
    var cur' := cur - 1;
    assert ThreadOK(tracked, threads, runList, known, done, runList[cur']);
    forall i | 0 <= i < |runList| ensures SlotOK(tracked, threads, runList, cur', done, i) {
      assert SlotOK(tracked, threads, runList, cur, done, i);
    }
  }

  class Barrier {
    const parallelThreads: nat
    var threads: Threads
    var runList: seq<nat>
    var curThreadIdx: nat
    var runningThreads: nat
    var leftThreads: nat
    var phaseCount: nat
    ghost var tracked: bool    // no thread has left without ever having been woken
    ghost var known: set<nat>  // woken since they last came on the list
    ghost var done: set<nat>   // asleep since they synced in this phase

    ghost predicate Staged()
      reads this
    {
      Stage(tracked, parallelThreads, threads, runList, curThreadIdx, runningThreads, leftThreads, known, done)
    }

    /** Between operations: all that could be woken have been, and nobody waits for nobody. */
    ghost predicate Valid()
      reads this
    {
      && Staged()
      && (runningThreads == parallelThreads || curThreadIdx == |runList|)
      && (runningThreads == 0 ==> NoneAsleep(threads, runList, 0, |runList|))
    }

    constructor (numThreads: nat, parallel: nat)
      requires parallel > 0
      ensures Valid() && tracked && |threads| == numThreads && parallelThreads == parallel && phaseCount == 0
      ensures forall t :: 0 <= t < numThreads ==> threads[t] == Thread(OFFLINE, 0, 0)
      ensures runList == [] && known == done == {}
    {
      parallelThreads := parallel;
      threads := seq(numThreads, _ => Thread(OFFLINE, 0, 0));
      runList := [];
      curThreadIdx, runningThreads, leftThreads, phaseCount := 0, 0, 0, 0;
      tracked, known, done := true, {}, {};
      new;
      NoneInState(threads, RUNNING);
      NoneInState(threads, LEFT);
    }

    /** Wakes threads in list order while there is room; never one that has
        finished the phase. */
    method CheckRunList()
      requires Staged()
      modifies this`threads, this`curThreadIdx, this`runningThreads, this`known
      ensures Staged() && old(known) <= known && old(runningThreads) <= runningThreads
      ensures Woke(old(threads), threads, known, done)
      ensures old(curThreadIdx) <= curThreadIdx && NoneAsleep(threads, runList, old(curThreadIdx), curThreadIdx)
      ensures runningThreads == parallelThreads || curThreadIdx == |runList|
    {
      while runningThreads < parallelThreads && curThreadIdx < |runList|
        invariant Staged() && old(known) <= known && old(runningThreads) <= runningThreads
        invariant Woke(old(threads), threads, known, done)
        invariant old(curThreadIdx) <= curThreadIdx && NoneAsleep(threads, runList, old(curThreadIdx), curThreadIdx)
        decreases |runList| - curThreadIdx
      {
        var idx := curThreadIdx;
        assert SlotOK(tracked, threads, runList, idx, done, idx);
        var wtid := runList[idx];
        if threads[wtid].state == WAITING {
          WakeNext(tracked, parallelThreads, threads, runList, idx, runningThreads, leftThreads, known, done);
          WakeNextWoke(old(threads), threads, runList, old(curThreadIdx), idx, known, done);
          assert threads[wtid].futexWord == 1;
          threads := Awake(threads, wtid, idx);
          known := known + {wtid};
          runningThreads := runningThreads + 1;
        } else {
          PassNext(tracked, parallelThreads, threads, runList, idx, runningThreads, leftThreads, known, done);
        }
        curThreadIdx := curThreadIdx + 1;
      }
    }

    /** Takes the threads that have LEFT off the list. */
    method TakeLeaversOff()
      requires Staged() && curThreadIdx == 0 && done == {}
      modifies this`threads, this`runList, this`leftThreads, this`known
      ensures Staged() && |threads| == |old(threads)| && known <= old(known)
      ensures forall t :: 0 <= t < |threads| ==>
                threads[t].state == if old(threads)[t].state == LEFT then OFFLINE else old(threads)[t].state
    {
      var idx, newSize := 0, |runList|;
      ghost var leftNow := leftThreads;
      ghost var knownNow := known;
      var ths := threads;
      var list: seq<nat> := runList;
      while idx < newSize
        invariant 0 <= idx <= newSize == |list| && newSize + leftThreads == |runList| + leftNow
        invariant Stage(tracked, parallelThreads, ths, list, 0, runningThreads, leftNow, knownNow, {})
        invariant knownNow <= known && |ths| == |threads|
        invariant threads == old(threads) && runList == old(runList) && leftThreads == old(leftThreads)
                  && known == old(known)
        invariant forall i :: 0 <= i < idx ==> list[i] < |ths| && ths[list[i]].state != LEFT
        invariant forall t :: 0 <= t < |ths| ==>
                    ths[t].state == threads[t].state || (threads[t].state == LEFT && ths[t].state == OFFLINE)
        decreases newSize - idx
      {
        assert SlotOK(tracked, ths, list, 0, {}, idx) && SlotOK(tracked, ths, list, 0, {}, newSize - 1);
        var wtid := list[idx];
        if ths[wtid].state == LEFT {
          TakeOffOK(tracked, parallelThreads, ths, list, runningThreads, leftNow, knownNow, idx);
          ths := TakeOff(ths, list, idx);
          list := list[idx := list[newSize - 1]][..newSize - 1];
          newSize := newSize - 1;
          leftNow, knownNow := leftNow - 1, knownNow - {wtid};
        } else {
          idx := idx + 1;
        }
      }
      NoLeaverListed(tracked, parallelThreads, ths, list, runningThreads, leftNow, knownNow);
      assert |runList| - newSize == leftThreads;
      threads, runList, leftThreads, known := ths, list, 0, knownNow;
    }

    /** The Fisher-Yates shuffle; the random draw may be anything. */
    method Shuffle()
      requires Staged() && curThreadIdx == 0 && |runList| > 0
      modifies this`threads, this`runList
      ensures Staged() && |threads| == |old(threads)| && |runList| == |old(runList)|
      ensures forall t :: 0 <= t < |threads| ==> threads[t].state == old(threads)[t].state
    {
      var i := |runList| - 1;
      while i > 0
        invariant 0 <= i < |runList| == |old(runList)|
        invariant Staged() && |threads| == |old(threads)|
        invariant forall t :: 0 <= t < |threads| ==> threads[t].state == old(threads)[t].state
      {
        var j: nat :| j <= i;
        assert SlotOK(tracked, threads, runList, 0, done, i) && SlotOK(tracked, threads, runList, 0, done, j);
        SwapOK(tracked, parallelThreads, threads, runList, 0, runningThreads, leftThreads, known, done, i, j);
        threads, runList := Noted(threads, runList, i, j), Swap(runList, i, j);
        i := i - 1;
      }
    }

    /** Ends the phase if everyone has been called and nobody runs, unless all have
        left.  In a tracked run every thread still taking part has synced by then. */
    method CheckEndPhase() returns (ended: bool)
      requires Staged()
      modifies this`threads, this`runList, this`curThreadIdx, this`leftThreads, this`phaseCount, this`known, this`done
      ensures Staged() && |threads| == |old(threads)|
      ensures ended <==> old(curThreadIdx == |runList| && runningThreads == 0 && leftThreads != |runList|)
      ensures !ended ==> threads == old(threads) && runList == old(runList) && curThreadIdx == old(curThreadIdx)
                         && leftThreads == old(leftThreads) && phaseCount == old(phaseCount) && done == old(done)
                         && known == old(known)
      ensures ended ==> curThreadIdx == 0 && phaseCount == old(phaseCount) + 1 && done == {} && known <= old(known)
      ensures ended ==> exists t :: 0 <= t < |threads| && threads[t].state == WAITING
      ensures ended && tracked ==> forall t :: 0 <= t < |threads| && threads[t].state == WAITING ==> t in old(done)
      ensures forall t :: 0 <= t < |threads| ==>
                threads[t].state == old(threads)[t].state
                    || (old(threads)[t].state == LEFT && threads[t].state == OFFLINE)
    {
      ended := curThreadIdx == |runList| && runningThreads == 0;
      if !ended {
        return;
      }
      if leftThreads == |runList| {
        return false;
      }
      // the scheduler's callback comes here
      Rewind(tracked, parallelThreads, threads, runList, runningThreads, leftThreads, known, done);
      ghost var i :| 0 <= i < |runList| && runList[i] < |threads| && threads[runList[i]].state == WAITING;
      ghost var sleeper := runList[i];
      curThreadIdx, done := 0, {};
      var cleanup := phaseCount % 32 == 0;
      phaseCount := phaseCount + 1;
      if cleanup {
        assert |runList| > 0;
        TakeLeaversOff();
      }
      if parallelThreads < |runList| {
        Shuffle();
      }
      assert threads[sleeper].state == WAITING;
    }

    /** Wakes, ends the phase if it is over, and wakes again for the next. */
    method TryWakeNext() returns (ended: bool)
      requires Staged()
      modifies this`threads, this`runList, this`curThreadIdx, this`runningThreads, this`leftThreads, this`phaseCount,
               this`known, this`done
      ensures Valid() && |threads| == |old(threads)|
      ensures phaseCount == old(phaseCount) + (if ended then 1 else 0)
      ensures !ended ==>
                && Woke(old(threads), threads, known, done)
                && done == old(done) && runList == old(runList) && old(known) <= known
      ensures !ended ==> NoneAsleep(threads, runList, old(curThreadIdx), curThreadIdx)
      ensures !ended ==> leftThreads == old(leftThreads)
      ensures !ended ==> old(runningThreads) <= runningThreads && old(curThreadIdx) <= curThreadIdx
      ensures ended ==> old(runningThreads) == 0 && runningThreads > 0 && done == {}
      ensures ended ==> forall i :: old(curThreadIdx) <= i < |old(runList)| && old(runList)[i] < |threads| ==>
                old(threads)[old(runList)[i]].state != WAITING
      ensures ended && tracked ==> forall t :: 0 <= t < |threads| && old(threads)[t].state == WAITING ==> t in old(done)
    {
      CheckRunList();
      if runningThreads == 0 {
        CountZero(threads, RUNNING);
        if leftThreads == |runList| {
          AllGone(tracked, parallelThreads, threads, runList, curThreadIdx, runningThreads, leftThreads, known, done);
        }
      }
      ended := CheckEndPhase();
      ghost var before := threads;
      CheckRunList();
      if ended && curThreadIdx == |runList| {
        ghost var t :| 0 <= t < |before| && before[t].state == WAITING;
        SomeoneRuns(tracked, parallelThreads, before, threads, runList, runningThreads, leftThreads, known, done, t);
      }
    }

    /** A thread joins.  `aborted` is the failed assertion on its recorded place:
        it can fail only for a thread that had LEFT, was called over in this phase,
        and is not where lastIdx says. */
    method Join(tid: nat) returns (aborted: bool)
      requires Valid() && tid < |threads| && (threads[tid].state == LEFT || threads[tid].state == OFFLINE)
      modifies this`threads, this`runList, this`curThreadIdx, this`runningThreads, this`leftThreads, this`phaseCount,
               this`known, this`done
      ensures aborted <==> old(&& threads[tid].state == LEFT && threads[tid].lastIdx < curThreadIdx
                               && runList[threads[tid].lastIdx] != tid)
      ensures !aborted ==> Valid() && |threads| == |old(threads)|
      ensures aborted ==> !tracked
      // in a tracked run a join ends no phase, wakes nobody who is done, and leaves tid running or next in line
      ensures tracked ==> phaseCount == old(phaseCount) && done == old(done)
      ensures tracked ==> forall t :: 0 <= t < |threads| && t != tid ==>
                || threads[t].state == old(threads)[t].state
                || (old(threads)[t].state == WAITING && threads[t].state == RUNNING && t !in done)
      ensures old(threads[tid].state) == OFFLINE ==>
                && runList == old(runList) + [tid]
                && Woke(old(threads)[tid := old(threads)[tid].(state := WAITING, futexWord := 1)], threads, known, done)
      ensures tracked ==>
                threads[tid].state == RUNNING || (threads[tid].state == WAITING && runningThreads == parallelThreads)
    {
      aborted := false;
      ghost var place;
      if threads[tid].state == OFFLINE {
        place := |runList|;
        ComeOn(tracked, parallelThreads, threads, runList, curThreadIdx, runningThreads, leftThreads, known, done, tid);
        runList := runList + [tid];
        threads := threads[tid := threads[tid].(state := WAITING, futexWord := 1)];
      } else {
        aborted := Rejoin(tid);
        if aborted {
          return;
        }
        place := threads[tid].lastIdx;
      }
      assert tracked || old(threads[tid].state) == OFFLINE ==>
               curThreadIdx <= place < |runList| && runList[place] == tid;
      var ended := TryWakeNext();
    }

    /** A thread that had LEFT goes back to its place in the list; if that was
        already called in this phase, it is moved to be called next. */
    method Rejoin(tid: nat) returns (aborted: bool)
      requires Staged() && tid < |threads| && threads[tid].state == LEFT
      modifies this`threads, this`runList, this`curThreadIdx, this`leftThreads
      ensures aborted <==> old(threads[tid].lastIdx < curThreadIdx && runList[threads[tid].lastIdx] != tid)
      ensures aborted ==> !tracked && unchanged(this)
      ensures !aborted ==> Staged() && |threads| == |old(threads)|
      ensures !aborted ==> forall t :: 0 <= t < |threads| ==>
                threads[t].state == if t == tid then WAITING else old(threads)[t].state
      ensures !aborted && tracked ==>
                curThreadIdx <= threads[tid].lastIdx < |runList| && runList[threads[tid].lastIdx] == tid
    {
      aborted := false;
      assert ThreadOK(tracked, threads, runList, known, done, tid);
      var lastIdx := threads[tid].lastIdx;
      if curThreadIdx > lastIdx {
        if runList[lastIdx] != tid {
          return true;
        }
        var cur := curThreadIdx - 1;
        assert SlotOK(tracked, threads, runList, curThreadIdx, done, cur);
        SwapOK(tracked, parallelThreads, threads, runList, curThreadIdx, runningThreads, leftThreads, known, done,
            lastIdx, cur);
        threads, runList := Noted(threads, runList, lastIdx, cur), Swap(runList, lastIdx, cur);
        assert runList[cur] == tid && threads[tid].lastIdx == cur;
        StepBack(tracked, parallelThreads, threads, runList, curThreadIdx, runningThreads, leftThreads, known, done);
        curThreadIdx := cur;
      }
      assert ThreadOK(tracked, threads, runList, known, done, tid);
      ComeBack(tracked, parallelThreads, threads, runList, curThreadIdx, runningThreads, leftThreads, known, done, tid);
      leftThreads := leftThreads - 1;
      threads := threads[tid := threads[tid].(state := WAITING, futexWord := 1)];
    }

    /** Leaving gives up the thread's slot; it can end the phase. */
    method Leave(tid: nat) returns (ended: bool)
      requires Valid() && tid < |threads| && (threads[tid].state == RUNNING || threads[tid].state == WAITING)
      modifies this`threads, this`runList, this`curThreadIdx, this`runningThreads, this`leftThreads, this`phaseCount,
               this`known, this`done, this`tracked
      ensures Valid() && |threads| == |old(threads)|
      ensures tracked <==> old(tracked && tid in known)
      ensures phaseCount == old(phaseCount) + (if ended then 1 else 0)
      ensures !ended ==> threads[tid].state == LEFT && done == old(done) - {tid}
      ensures !ended ==> Woke(old(threads)[tid := threads[tid]], threads, known, done)
      ensures ended ==> old(threads[tid].state) == RUNNING && old(runningThreads) == 1 && done == {}
      ensures old(threads[tid].state) == WAITING ==>
                && threads == old(threads)[tid := old(threads)[tid].(state := LEFT)] && runList == old(runList)
                && curThreadIdx == old(curThreadIdx) && runningThreads == old(runningThreads)
      ensures ended && tracked ==> forall t :: 0 <= t < |threads| && t != tid && old(threads)[t].state == WAITING ==>
                t in old(done)
    {
      LeaveOK(tracked, parallelThreads, threads, runList, curThreadIdx, runningThreads, leftThreads, known, done, tid);
      var wasRunning := threads[tid].state == RUNNING;
      tracked := tracked && tid in known;
      done := done - {tid};
      threads := threads[tid := threads[tid].(state := LEFT)];
      leftThreads := leftThreads + 1;
      ended := false;
      if wasRunning {
        runningThreads := runningThreads - 1;
        ended := TryWakeNext();
      }
    }

    /** A running thread reaches the end of its phase and sleeps until the next. */
    method Sync(tid: nat) returns (ended: bool)
      requires Valid() && tid < |threads| && threads[tid].state == RUNNING
      modifies this`threads, this`runList, this`curThreadIdx, this`runningThreads, this`leftThreads, this`phaseCount,
               this`known, this`done
      ensures Valid() && |threads| == |old(threads)|
      ensures phaseCount == old(phaseCount) + (if ended then 1 else 0)
      ensures !ended ==> threads[tid].state == WAITING && done == old(done) + {tid}
      ensures !ended ==> Woke(old(threads)[tid := threads[tid]], threads, known, done)
      ensures ended ==> old(runningThreads) == 1 && runningThreads > 0 && done == {}
      ensures ended && tracked ==> forall t :: 0 <= t < |threads| && t != tid && old(threads)[t].state == WAITING ==>
                t in old(done)
    {
      SyncOK(tracked, parallelThreads, threads, runList, curThreadIdx, runningThreads, leftThreads, known, done, tid);
      threads := threads[tid := threads[tid].(state := WAITING, futexWord := 1)];
      runningThreads := runningThreads - 1;
      done := done + {tid};
      ghost var mid := threads;
      ended := TryWakeNext();
      if ended && tracked {
        forall t | 0 <= t < |threads| && t != tid && old(threads)[t].state == WAITING
          ensures t in old(done)
        {
          assert mid[t].state == WAITING;
        }
      }
    }
  }

  /** After a pass over the whole list, a thread that was asleep runs. */
  lemma SomeoneRuns(tracked: bool, par: nat, before: Threads, threads: Threads, runList: seq<nat>, running: nat,
                    left: nat,
                    known: set<nat>, done: set<nat>, t: nat)
    requires Stage(tracked, par, threads, runList, |runList|, running, left, known, done)
    requires Woke(before, threads, known, done) && NoneAsleep(threads, runList, 0, |runList|)
    requires t < |before| && before[t].state == WAITING
    ensures running > 0
  {
    assert ThreadOK(tracked, threads, runList, known, done, t);
    assert threads[t].state == RUNNING;
    if Count(threads, RUNNING) == 0 { CountZero(threads, RUNNING); }
  }

  /** If as many have LEFT as are listed, nobody on the list is asleep. */
  lemma AllGone(tracked: bool, par: nat, threads: Threads, runList: seq<nat>, cur: nat, running: nat, left: nat,
                known: set<nat>, done: set<nat>)
    requires Stage(tracked, par, threads, runList, cur, running, left, known, done) && left == |runList|
    ensures NoneAsleep(threads, runList, 0, |runList|)
  {
    forall i | 0 <= i < |runList| ensures runList[i] < |threads| {
      assert SlotOK(tracked, threads, runList, cur, done, i);
    }
    forall t | 0 <= t < |threads| && threads[t].state == LEFT ensures t in runList {
      assert ThreadOK(tracked, threads, runList, known, done, t);
    }
    AllLeft(threads, runList);
  }

  lemma NoLeaverListed(tracked: bool, par: nat, threads: Threads, runList: seq<nat>, running: nat, left: nat,
                       known: set<nat>)
    requires Stage(tracked, par, threads, runList, 0, running, left, known, {})
    requires forall i :: 0 <= i < |runList| ==> runList[i] < |threads| && threads[runList[i]].state != LEFT
    ensures left == 0
    ensures forall t :: 0 <= t < |threads| ==> threads[t].state != LEFT
  {
    forall t | 0 <= t < |threads| ensures threads[t].state != LEFT {
      assert ThreadOK(tracked, threads, runList, known, {}, t);
    }
    NoneInState(threads, LEFT);
  }

  // ---------------------------------------------------------------------------
  // Whole runs
  // ---------------------------------------------------------------------------

  datatype Op = Joins(tid: nat) | Leaves(tid: nat) | Syncs(tid: nat)

  /** The threads asleep, other than tid. */
  function Sleepers(threads: Threads, tid: nat): set<nat> {
    set t: nat | t < |threads| && threads[t].state == WAITING && t != tid
  }

  /** One operation, passed over if it is not possible.  synced is the set of threads that
      have synced in this phase, and fair stays true as long as a phase ends only when
      all threads asleep have. */
  method Step(b: Barrier, op: Op, synced: set<nat>, fair: bool) returns (aborted: bool, synced': set<nat>, fair': bool)
    requires b.Valid() && (b.tracked ==> fair && b.done <= synced)
    modifies b
    ensures aborted ==> !b.tracked
    ensures !aborted ==> b.Valid() && |b.threads| == |old(b.threads)| && (b.tracked ==> fair' && b.done <= synced')
  {
    aborted, synced', fair' := false, synced, fair;
    var tid := op.tid;
    if tid >= |b.threads| {
      return;
    }
    var sleepers, ended := Sleepers(b.threads, tid), false;
    match op {
      case Joins(_) =>
        if b.threads[tid].state == LEFT || b.threads[tid].state == OFFLINE { aborted := b.Join(tid); }
      case Leaves(_) =>
        if b.threads[tid].state == RUNNING || b.threads[tid].state == WAITING { ended := b.Leave(tid); }
      case Syncs(_) =>
        if b.threads[tid].state == RUNNING {
          ended := b.Sync(tid);
          synced' := synced + {tid};
        }
    }
    if ended {
      fair', synced' := fair && sleepers <= synced, {};
    }
  }

  /** Any schedule of operations (those that are not possible when their turn
      comes are passed over), until one aborts: the list stays exact, at most
      `parallel` threads run, and nobody waits while nobody runs.  If no thread
      left before it was first woken, none aborts, and every phase that ended did
      so when all threads asleep had synced in it. */
  method Run(numThreads: nat, parallel: nat, schedule: seq<Op>)
    returns (threads: Threads, runList: seq<nat>, running: nat, aborted: bool, fair: bool, ghost tracked: bool)
    requires parallel > 0
    ensures aborted ==> !tracked
    ensures tracked ==> fair
    ensures !aborted ==> Distinct(runList) && |threads| == numThreads
    ensures !aborted ==> forall t: nat :: t in runList <==> t < numThreads && threads[t].state != OFFLINE
    ensures !aborted ==> running == Count(threads, RUNNING) <= parallel
    ensures !aborted && running == 0 ==> forall t :: 0 <= t < numThreads ==> threads[t].state != WAITING
  {
    var b := new Barrier(numThreads, parallel);
    aborted, fair := false, true;
    var synced: set<nat> := {};
    var k := 0;
    while k < |schedule| && !aborted
      invariant 0 <= k <= |schedule|
      invariant b.parallelThreads == parallel
      invariant !aborted ==> b.Valid() && |b.threads| == numThreads && (b.tracked ==> fair && b.done <= synced)
      invariant aborted ==> !b.tracked
    {
      aborted, synced, fair := Step(b, schedule[k], synced, fair);
      k := k + 1;
    }
    threads, runList, running, tracked := b.threads, b.runList, b.runningThreads, b.tracked;
    if !aborted {
      Exact(b.tracked, parallel, threads, runList, b.curThreadIdx, running, b.leftThreads, b.known, b.done);
    }
  }

  lemma Exact(tracked: bool, par: nat, threads: Threads, runList: seq<nat>, cur: nat, running: nat, left: nat,
              known: set<nat>, done: set<nat>)
    requires Stage(tracked, par, threads, runList, cur, running, left, known, done)
    ensures forall t: nat :: t in runList <==> t < |threads| && threads[t].state != OFFLINE
    ensures NoneAsleep(threads, runList, 0, |runList|) ==> forall t :: 0 <= t < |threads| ==>
              threads[t].state != WAITING
  {
    forall t: nat ensures t in runList <==> t < |threads| && threads[t].state != OFFLINE {
      if t < |threads| { assert ThreadOK(tracked, threads, runList, known, done, t); }
      if t in runList {
        var i :| 0 <= i < |runList| && runList[i] == t;
        assert SlotOK(tracked, threads, runList, cur, done, i);
      }
    }
    if NoneAsleep(threads, runList, 0, |runList|) {
      forall t | 0 <= t < |threads| ensures threads[t].state != WAITING {
        if t in runList {
          var i :| 0 <= i < |runList| && runList[i] == t;
        }
      }
    }
  }

  /** An untracked run that aborts: thread 1 joins while thread 0 has the only
      slot, leaves without ever having been woken, and joins again; its lastIdx
      was never set and names thread 0's place. */
  method StaleIndexAborts() returns (aborted: bool)
    ensures aborted
  {
    var b := new Barrier(2, 1);
    var first := b.Join(0);
    assert b.runList[0] == 0;
    OnlyRunner(b.threads, 0, 1);
    assert b.threads[0].state == RUNNING;
    assert SlotOK(b.tracked, b.threads, b.runList, b.curThreadIdx, b.done, 0);
    var second := b.Join(1);
    assert b.runList[0] == 0 && b.runList[1] == 1;
    OnlyRunner(b.threads, 0, 1);
    assert SlotOK(b.tracked, b.threads, b.runList, b.curThreadIdx, b.done, 0);
    assert b.threads[1] == Thread(WAITING, 1, 0) && b.curThreadIdx > 0;
    var _ := b.Leave(1);
    aborted := b.Join(1);
  }

  lemma OnlyRunner(threads: Threads, t: nat, u: nat)
    requires |threads| == 2 && t < 2 && u < 2 && t != u && Count(threads, RUNNING) <= 1
    ensures threads[t].state == RUNNING ==> threads[u].state != RUNNING
    ensures Count(threads, RUNNING) == 1 && threads[u].state != RUNNING ==> threads[t].state == RUNNING
  {
    assert threads[..1][..0] == [];
    assert Count(threads, RUNNING) == Count(threads[..1], RUNNING) + (if threads[1].state == RUNNING then 1 else 0);
    assert Count(threads[..1], RUNNING) ==
             Count(threads[..1][..0], RUNNING) + (if threads[..1][0].state == RUNNING then 1 else 0);
  }
}
