/** The activation window of a DRAM rank: a circular buffer of the last few ACT
    cycles, kept sorted while activations arrive slightly out of order. */
module ActWindows {

  ghost predicate Sorted(w: seq<nat>) {
    forall i, j :: 0 <= i < j < |w| ==> w[i] <= w[j]
  }

  /** x put into its place in a sorted sequence, after its equals. */
  ghost function Insert(w: seq<nat>, x: nat): seq<nat> {
    if w == [] || w[|w| - 1] <= x then w + [x] else Insert(w[..|w| - 1], x) + [w[|w| - 1]]
  }

  lemma {:induction false} InsertSorts(w: seq<nat>, x: nat)
    requires Sorted(w)
    ensures |Insert(w, x)| == |w| + 1 && Sorted(Insert(w, x))
    ensures multiset(Insert(w, x)) == multiset(w) + multiset{x}
  {
    if w != [] && w[|w| - 1] > x {
      var front, last := w[..|w| - 1], w[|w| - 1];
      InsertSorts(front, x);
      InsertBelow(front, x, last);
      assert w == front + [last];
    }
  }

  lemma {:induction false} InsertBelow(w: seq<nat>, x: nat, m: nat)
    requires x <= m && forall i :: 0 <= i < |w| ==> w[i] <= m
    ensures forall i :: 0 <= i < |Insert(w, x)| ==> Insert(w, x)[i] <= m
  {
    if w != [] && w[|w| - 1] > x { InsertBelow(w[..|w| - 1], x, m); }
  }

  /** How many of the newest entries lie after x, the oldest left aside. */
  function Newer(w: seq<nat>, x: nat): (k: nat)
    requires w != []
    ensures k < |w| && forall i :: |w| - k <= i < |w| ==> w[i] > x
    ensures k < |w| - 1 ==> w[|w| - k - 1] <= x
  {
    if |w| == 1 || w[|w| - 1] <= x then 0 else Newer(w[..|w| - 1], x) + 1
  }

  lemma {:induction false} NewerIs(w: seq<nat>, x: nat, k: nat)
    requires k < |w| && (forall i :: |w| - k <= i < |w| ==> w[i] > x)
    requires k < |w| - 1 ==> w[|w| - k - 1] <= x
    ensures Newer(w, x) == k
  {
    if k > 0 { NewerIs(w[..|w| - 1], x, k - 1); }
  }

  /** What adding an activation leaves in the buffer, oldest first.  If all entries
      but the oldest lie after x, the loop runs round to the slot it overwrote
      first, and copies the newest entry from there. */
  function Added(w: seq<nat>, x: nat): seq<nat>
    requires w != []
  {
    seq(|w|, i requires 0 <= i < |w| => AddedEntry(w, x, Newer(w, x), i))
  }

  function AddedEntry(w: seq<nat>, x: nat, k: nat, i: nat): nat
    requires i < |w| && k < |w|
  {
    var n := |w|;
    if n > 1 && k == n - 1 then if i == 0 then w[n - 1] else if i == n - 1 then x else w[i]
    else if i + 1 < n - k then w[i + 1] else if i + 1 == n - k then x else w[i]
  }

  lemma {:induction false} InsertIsSplice(w: seq<nat>, x: nat, k: nat)
    requires k <= |w| && (forall i :: |w| - k <= i < |w| ==> w[i] > x)
    requires k < |w| ==> w[|w| - k - 1] <= x
    ensures Insert(w, x) == w[..|w| - k] + [x] + w[|w| - k..]
  {
    if k > 0 {
      InsertIsSplice(w[..|w| - 1], x, k - 1);
      assert w[|w| - k..] == w[..|w| - 1][|w| - k..] + [w[|w| - 1]];
      assert w[..|w| - 1][..|w| - k] == w[..|w| - k];
    }
  }

  /** The buffer is right after an activation, the oldest entry dropped and x in its
      place, exactly if x does not lie before the second oldest entry. */
  lemma AddedIsInsert(w: seq<nat>, x: nat)
    requires w != [] && Sorted(w)
    ensures Added(w, x) == Insert(w[1..], x) <==> |w| < 2 || w[1] <= x
  {
    if |w| < 2 || w[1] <= x { AddedInserts(w, x); } else { AddedMisplaces(w, x); }
  }

  lemma AddedInserts(w: seq<nat>, x: nat)
    requires w != [] && (|w| < 2 || w[1] <= x)
    ensures Added(w, x) == Insert(w[1..], x)
  {
    var n, k, rest := |w|, Newer(w, x), w[1..];
    InsertIsSplice(rest, x, k);
    assert rest[..n - 1 - k] == w[1..n - k] && rest[n - 1 - k..] == w[n - k..];
    assert Added(w, x) == w[1..n - k] + [x] + w[n - k..];
  }

  lemma AddedMisplaces(w: seq<nat>, x: nat)
    requires |w| > 1 && Sorted(w) && w[1] > x
    ensures Added(w, x) != Insert(w[1..], x)
  {
    var n := |w|;
    NewerIs(w, x, n - 1);
    InsertSorts(w[1..], x);
    assert Added(w, x)[n - 1] == x && Added(w, x)[0] == w[n - 1];
  }

  /** A window that goes wrong: a write put off until after some reads is activated for
      its own, earlier cycle. */
  lemma AddedCanUnsort()
    ensures Sorted([0, 100, 110, 120]) && Added([0, 100, 110, 120], 50) == [120, 100, 110, 50]
  {
    var w: seq<nat> := [0, 100, 110, 120];
    assert Newer(w, 50) == 3;
  }

  ghost function PlaceFrom(n: nat, idx: nat, j: nat): (p: nat)
    requires idx < n && j <= n
    ensures p < n
  {
    if idx + j < n then idx + j else idx + j - n
  }

  /** Slot j of the buffer b after k moves of the loop, when it held w: the newest k
      entries have each gone one slot up, and slot n - k is free for x. */
  ghost predicate SlotOK(b: seq<nat>, idx: nat, w: seq<nat>, k: nat, j: nat)
    requires |b| == |w| && idx < |w| && 0 < j <= |w|
  {
    j != |w| - k ==> b[PlaceFrom(|w|, idx, j)] == if j < |w| - k then w[j] else w[j - 1]
  }

  ghost predicate Moved(b: seq<nat>, idx: nat, w: seq<nat>, k: nat)
    requires |b| == |w| && idx < |w|
  {
    k < |w| && forall j :: 0 < j <= |w| ==> SlotOK(b, idx, w, k, j)
  }

  /** The entry the loop looks at next; at the last slot it is the newest one. */
  lemma LooksAt(b: seq<nat>, idx: nat, w: seq<nat>, k: nat)
    requires |b| == |w| && idx < |w| && Moved(b, idx, w, k)
    ensures k < |w| - 1 ==> b[PlaceFrom(|w|, idx, |w| - k - 1)] == w[|w| - k - 1]
    ensures 0 < k == |w| - 1 ==> b[PlaceFrom(|w|, idx, 0)] == w[|w| - 1]
  {
    if k < |w| - 1 {
      assert SlotOK(b, idx, w, k, |w| - k - 1);
    } else {
      assert SlotOK(b, idx, w, k, |w|);
    }
  }

  lemma MovedStep(b: seq<nat>, idx: nat, w: seq<nat>, k: nat)
    requires |b| == |w| && idx < |w| && Moved(b, idx, w, k) && k < |w| - 1
    ensures Moved(b[PlaceFrom(|w|, idx, |w| - k) := w[|w| - k - 1]], idx, w, k + 1)
  {
    var b', k' := b[PlaceFrom(|w|, idx, |w| - k) := w[|w| - k - 1]], k + 1;
    forall j | 0 < j <= |w| ensures SlotOK(b', idx, w, k', j) {
      assert SlotOK(b, idx, w, k, j);
    }
  }

  /** Slot j holds what the window should hold after the activation x. */
  ghost predicate DoneAt(b: seq<nat>, idx: nat, w: seq<nat>, x: nat, k: nat, j: nat)
    requires |b| == |w| && idx < |w| && 0 < j <= |w| && k < |w|
  {
    b[PlaceFrom(|w|, idx, j)] == AddedEntry(w, x, k, j - 1)
  }

  lemma MovedDone(b: seq<nat>, idx: nat, w: seq<nat>, k: nat, x: nat, j: nat)
    requires |b| == |w| && idx < |w| && Moved(b, idx, w, k) && (|w| == 1 || k < |w| - 1) && 0 < j <= |w|
    ensures DoneAt(b[PlaceFrom(|w|, idx, |w| - k) := x], idx, w, x, k, j)
  {
    assert SlotOK(b, idx, w, k, j);
  }

  lemma TurnedRound(b: seq<nat>, idx: nat, w: seq<nat>, x: nat, j: nat)
    requires |b| == |w| > 1 && idx < |w| && Moved(b, idx, w, |w| - 1) && 0 < j <= |w|
    ensures DoneAt(b[PlaceFrom(|w|, idx, 1) := w[|w| - 1]][idx := x], idx, w, x, |w| - 1, j)
  {
    assert SlotOK(b, idx, w, |w| - 1, j);
  }

  class ActWindow {
    const buf: array<nat>
    var idx: nat

    ghost predicate Valid()
      reads this
    {
      0 <= idx < buf.Length
    }

    /** The contents, oldest first. */
    ghost function Order(): seq<nat>
      requires Valid()
      reads this, buf
    {
      buf[idx..] + buf[..idx]
    }

    constructor (size: nat)
      requires size > 0
      ensures Valid() && fresh(buf) && buf.Length == size && Order() == seq(size, _ => 0)
    {
      buf := new nat[size](_ => 0);
      idx := 0;
    }

    method MinActCycle() returns (cycle: nat)
      requires Valid()
      ensures cycle == Order()[0]
    {
      cycle := buf[idx];
    }

    /** The second oldest entry, or the only one. */
    method Second() returns (cycle: nat)
      requires Valid()
      ensures cycle == if buf.Length == 1 then Order()[0] else Order()[1]
    {
      cycle := buf[Inc(idx)];
    }

    function Inc(i: nat): nat
      requires i < buf.Length
    {
      if i < buf.Length - 1 then i + 1 else 0
    }

    function Dec(i: nat): nat
      requires i < buf.Length
    {
      if i > 0 then i - 1 else buf.Length - 1
    }

    /** The slot that is j places after the oldest one; the n-th is the oldest again. */
    ghost function Place(j: nat): (p: nat)
      requires Valid() && j <= buf.Length
      ensures p < buf.Length
      reads this
    {
      PlaceFrom(buf.Length, idx, j)
    }

    lemma OrderAt(j: nat)
      requires Valid() && j < buf.Length
      ensures Order()[j] == buf[Place(j)]
    {
    }

    /** One turn of that loop: the entry before cur is copied to it. */
    method Lift(cur: nat) returns (cur': nat)
      requires Valid() && cur < buf.Length
      modifies buf
      ensures cur' == Dec(cur) && buf[..] == old(buf[..])[cur := old(buf[Dec(cur)])]
    {
      buf[cur] := buf[Dec(cur)];
      cur' := Dec(cur);
    }

    /** The loop of addActivation; b is the buffer before its last move, if it came
        round to where it began. */
    method MoveUp(actCycle: nat) returns (cur: nat, ghost k: nat, ghost b: seq<nat>)
      requires Valid() && Order()[0] <= actCycle
      modifies buf
      ensures k == Newer(old(Order()), actCycle) && |b| == buf.Length && Moved(b, idx, old(Order()), k)
      ensures if 0 < k == buf.Length - 1
              then cur == idx && buf[..] == b[Place(1) := old(Order())[k]]
              else cur == Place(buf.Length - k) && buf[..] == b
    {
      ghost var w := Order();
      ghost var n := |w|;
      k := 0;
      forall j | 0 < j <= n ensures SlotOK(buf[..], idx, w, 0, j) { if j < n { OrderAt(j); } }
      cur, b := idx, buf[..];
      while buf[Dec(cur)] > actCycle
        invariant k < n && cur == Place(n - k) && b == buf[..] && Moved(b, idx, w, k)
        invariant forall i :: n - k <= i < n ==> w[i] > actCycle
        invariant k == 0 ==> buf[idx] == w[0]
        decreases n - k
      {
        assert Dec(cur) == Place(n - k - 1);
        LooksAt(b, idx, w, k);
        cur := Lift(cur);
        if cur == idx {
          NewerIs(w, actCycle, k);
          return;
        }
        MovedStep(b, idx, w, k);
        b, k := buf[..], k + 1;
      }
      assert Dec(cur) == Place(n - k - 1);
      LooksAt(b, idx, w, k);
      NewerIs(w, actCycle, k);
    }

    /** The loop, and the write after it. */
    method PutInPlace(actCycle: nat) returns (ghost k: nat)
      requires Valid() && Order()[0] <= actCycle
      modifies buf
      ensures k == Newer(old(Order()), actCycle)
      ensures forall j :: 0 < j <= buf.Length ==> DoneAt(buf[..], idx, old(Order()), actCycle, k, j)
    {
      ghost var w := Order();
      var cur;
      ghost var b;
      cur, k, b := MoveUp(actCycle);
      buf[cur] := actCycle;
      forall j | 0 < j <= |w| ensures DoneAt(buf[..], idx, w, actCycle, k, j) {
        if 0 < k == |w| - 1 { TurnedRound(b, idx, w, actCycle, j); } else { MovedDone(b, idx, w, k, actCycle, j); }
      }
    }

    method AddActivation(actCycle: nat)
      requires Valid() && Order()[0] <= actCycle
      modifies this, buf
      ensures Valid() && Order() == Added(old(Order()), actCycle)
    {
      ghost var w := Order();
      ghost var k := PutInPlace(actCycle);
      ghost var n, oldest := |w|, idx;
      idx := Inc(idx);
      forall j | 0 <= j < n ensures Order()[j] == Added(w, actCycle)[j] {
        assert DoneAt(buf[..], oldest, w, actCycle, k, j + 1);
        assert Place(j) == PlaceFrom(n, oldest, j + 1);
        OrderAt(j);
      }
    }
  }

  // ---------------------------------------------------------------------------
  // The four-activate rule
  // ---------------------------------------------------------------------------

  /** How many of the activations fall into the length cycles from t on. */
  ghost function Within(acts: seq<nat>, t: nat, length: nat): nat {
    if acts == [] then 0
    else Within(acts[..|acts| - 1], t, length) + if t <= acts[|acts| - 1] < t + length then 1 else 0
  }

  /** How many entries of the window are not before t. */
  ghost function Since(w: seq<nat>, t: nat): (k: nat)
    ensures k <= |w|
  {
    if w == [] then 0 else Since(w[..|w| - 1], t) + if t <= w[|w| - 1] then 1 else 0
  }

  lemma {:induction false} SinceConcat(a: seq<nat>, b: seq<nat>, t: nat)
    ensures Since(a + b, t) == Since(a, t) + Since(b, t)
  {
    if b == [] {
      assert a + b == a;
    } else {
      SinceConcat(a, b[..|b| - 1], t);
      assert (a + b)[..|a + b| - 1] == a + b[..|b| - 1];
    }
  }

  lemma SinceOne(x: nat, t: nat)
    ensures Since([x], t) == if t <= x then 1 else 0
  {
    assert [x][..0] == [];
  }

  lemma SinceThree(a: seq<nat>, x: nat, b: seq<nat>, t: nat)
    ensures Since(a + [x] + b, t) == Since(a, t) + (if t <= x then 1 else 0) + Since(b, t)
  {
    SinceConcat(a + [x], b, t);
    SinceConcat(a, [x], t);
    SinceOne(x, t);
  }

  /** In place, the new entry stands before the k newer ones. */
  lemma AddedInPlace(w: seq<nat>, x: nat, t: nat, k: nat)
    requires w != [] && k == Newer(w, x) && (|w| == 1 || k < |w| - 1)
    ensures Since(Added(w, x), t) == Since(w[1..], t) + if t <= x then 1 else 0
  {
    var front, back := w[1..|w| - k], w[|w| - k..];
    assert w[1..] == front + back;
    assert Added(w, x) == front + [x] + back;
    SinceConcat(front, back, t);
    SinceThree(front, x, back, t);
  }

  /** Out of place, the newest entry stands first and the new one last. */
  lemma AddedRound(w: seq<nat>, x: nat, t: nat)
    requires |w| > 1 && Newer(w, x) == |w| - 1
    ensures Since(Added(w, x), t) == Since(w[1..], t) + if t <= x then 1 else 0
  {
    var mid, last := w[1..|w| - 1], [w[|w| - 1]];
    assert w[1..] == mid + last;
    assert Added(w, x) == last + mid + [x];
    SinceConcat(mid, last, t);
    SinceConcat(last, mid, t);
    SinceConcat(last + mid, [x], t);
    SinceOne(x, t);
  }

  /** In order or not, the window trades its oldest entry for the new one. */
  lemma AddedTrades(w: seq<nat>, x: nat, t: nat)
    requires w != []
    ensures Since(Added(w, x), t) + (if t <= w[0] then 1 else 0) == Since(w, t) + if t <= x then 1 else 0
  {
    assert w == [w[0]] + w[1..];
    SinceConcat([w[0]], w[1..], t);
    SinceOne(w[0], t);
    var k := Newer(w, x);
    if |w| > 1 && k == |w| - 1 { AddedRound(w, x, t); } else { AddedInPlace(w, x, t, k); }
  }

  /** For every stretch of tFAW cycles, each activation in it is matched by an entry of
      the window that is not before it. */
  ghost predicate Covered(acts: seq<nat>, w: seq<nat>, tFAW: nat) {
    forall t: nat :: Within(acts, t, tFAW) <= Since(w, t)
  }

  /** An activation that comes tFAW after the oldest entry keeps it so, even one that
      leaves the window out of order. */
  lemma CoveredAct(acts: seq<nat>, w: seq<nat>, tFAW: nat, x: nat)
    requires w != [] && Covered(acts, w, tFAW) && x >= w[0] + tFAW
    ensures Covered(acts + [x], Added(w, x), tFAW)
  {
    var acts', w' := acts + [x], Added(w, x);
    assert acts'[..|acts|] == acts;
    forall t: nat ensures Within(acts', t, tFAW) <= Since(w', t) {
      AddedTrades(w, x, t);
    }
  }

  /** No more than n activations in any tFAW cycles. */
  ghost predicate AtMostIn(acts: seq<nat>, n: nat, tFAW: nat) {
    forall t: nat :: Within(acts, t, tFAW) <= n
  }

  /** Each activation was made at the cycle it was asked for, or later. */
  ghost predicate Delayed(asked: seq<nat>, made: seq<nat>) {
    |made| <= |asked| && forall i :: 0 <= i < |made| ==> made[i] >= asked[i]
  }

  /** One activation, as the memory controller makes it: not before it is asked for,
      nor before tFAW after the oldest entry. */
  method Activate(w: ActWindow, tFAW: nat, asked: nat, ghost acts: seq<nat>) returns (actCycle: nat)
    requires w.Valid() && Covered(acts, w.Order(), tFAW)
    modifies w, w.buf
    ensures w.Valid() && actCycle >= asked && actCycle >= old(w.Order()[0]) + tFAW
    ensures actCycle == asked || actCycle == old(w.Order()[0]) + tFAW
    ensures w.Order() == Added(old(w.Order()), actCycle) && Covered(acts + [actCycle], w.Order(), tFAW)
  {
    var least := w.MinActCycle();
    actCycle := if asked > least + tFAW then asked else least + tFAW;
    CoveredAct(acts, w.Order(), tFAW, actCycle);
    w.AddActivation(actCycle);
  }

  // ---------------------------------------------------------------------------
  // The newest activations
  // ---------------------------------------------------------------------------

  /** The activations in order of time, after size that stand for the beginning. */
  ghost function InTime(made: seq<nat>, size: nat): seq<nat> {
    if made == [] then seq(size, _ => 0) else Insert(InTime(made[..|made| - 1], size), made[|made| - 1])
  }

  lemma {:induction false} InTimeSorts(made: seq<nat>, size: nat)
    ensures |InTime(made, size)| == |made| + size && Sorted(InTime(made, size))
    ensures multiset(InTime(made, size)) == multiset(seq(size, _ => 0)) + multiset(made)
  {
    if made != [] {
      var front, last := made[..|made| - 1], made[|made| - 1];
      InTimeSorts(front, size);
      InsertSorts(InTime(front, size), last);
      assert made == front + [last];
    }
  }

  /** The window holds the newest of all activations, oldest first. */
  ghost predicate Newest(w: seq<nat>, acts: seq<nat>) {
    |w| <= |acts| && w == acts[|acts| - |w|..]
  }

  /** An insertion after entry n leaves those up to there alone. */
  lemma {:induction false} InsertSuffix(acts: seq<nat>, n: nat, x: nat)
    requires n < |acts| && acts[n] <= x
    ensures |Insert(acts, x)| == |acts| + 1 && Insert(acts, x)[n + 1..] == Insert(acts[n + 1..], x)
  {
    var last, rest := |acts| - 1, acts[n + 1..];
    if acts[last] <= x {
      assert (acts + [x])[n + 1..] == rest + [x];
    } else {
      var front := acts[..last];
      InsertSuffix(front, n, x);
      assert rest[..|rest| - 1] == front[n + 1..];
    }
  }

  /** An activation that does not lie before the second oldest entry keeps it so. */
  lemma AddedNewest(w: seq<nat>, acts: seq<nat>, x: nat)
    requires w != [] && Sorted(acts) && Newest(w, acts) && w[0] <= x && (|w| > 1 ==> w[1] <= x)
    ensures Newest(Added(w, x), Insert(acts, x))
  {
    var n := |acts| - |w|;
    assert w[1..] == acts[n + 1..];
    AddedIsInsert(w, x);
    InsertSuffix(acts, n, x);
  }

  /** Any run of activations of a rank, in any order: no more than size of all the
      activations made fall into any tFAW cycles.  As long as none lies before the second
      oldest entry, the window holds the newest activations, in order. */
  method Run(size: nat, tFAW: nat, asked: seq<nat>) returns (made: seq<nat>, order: seq<nat>, inOrder: bool)
    requires size > 0
    ensures |made| == |asked| && Delayed(asked, made) && AtMostIn(made, size, tFAW)
    ensures |order| == size && (inOrder ==> Newest(order, InTime(made, size)))
  {
    var w := new ActWindow(size);
    made, inOrder := [], true;
    while |made| < |asked|
      invariant w.Valid() && w.buf.Length == size && fresh(w) && fresh(w.buf)
      invariant Delayed(asked, made) && Covered(made, w.Order(), tFAW)
      invariant inOrder ==> Newest(w.Order(), InTime(made, size))
    {
      ghost var before, acts := w.Order(), InTime(made, size);
      var second := w.Second();
      var actCycle := Activate(w, tFAW, asked[|made|], made);
      inOrder := inOrder && (size == 1 || second <= actCycle);
      InTimeSorts(made, size);
      if inOrder { AddedNewest(before, acts, actCycle); }
      assert (made + [actCycle])[..|made|] == made;
      made := made + [actCycle];
    }
    order := w.buf[w.idx..] + w.buf[..w.idx];
  }
}
