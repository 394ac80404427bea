/** The calendar queue of the weave phase: a ring of B blocks of 64 cycles each,
    and a map for elements too far ahead to fit the ring. */
module PrioQueues {

  /** 64 lists and a bitmap of the nonempty ones. */
  datatype Block<T> = Block(slots: seq<seq<T>>, occ: seq<bool>) {
    ghost predicate Valid() {
      && |slots| == |occ| == 64
      && (forall i :: 0 <= i < 64 ==> (occ[i] <==> slots[i] != []))
    }

    /** occ is not 0. */
    predicate Occupied() {
      exists i :: 0 <= i < |occ| && occ[i]
    }
  }

  function EmptyBlock<T>(): (b: Block<T>)
    ensures b.Valid() && !b.Occupied()
  {
    Block(seq(64, _ => []), seq(64, _ => false))
  }

  type Far<T> = seq<(nat, T)>

  // ---------------------------------------------------------------------------
  // The ring
  // ---------------------------------------------------------------------------

  /** Two numbers less than B apart and equal modulo B are equal. */
  lemma SameSlot(a: nat, b: nat, B: nat)
    requires B > 0 && a % B == b % B && a <= b < a + B
    ensures a == b
  {
    var x, y := a / B, b / B;
    assert a == B * x + a % B && b == B * y + b % B;
    Multiples(B, x, y);
  }

  lemma Multiples(B: nat, x: nat, y: nat)
    requires 0 <= B * y - B * x < B
    ensures x == y
  {
    if x < y { MulMonotone(B, x, y); }
    if y < x { MulMonotone(B, y, x); }
  }

  lemma {:induction false} MulMonotone(B: nat, x: nat, y: nat)
    requires x < y
    ensures B * x + B <= B * y
    decreases y
  {
    assert B * y == B * (y - 1) + B;
    if x < y - 1 { MulMonotone(B, x, y - 1); }
  }

  lemma RemainderIs(n: nat, B: nat, q: nat, r: nat)
    requires r < B && n == B * q + r
    ensures n % B == r
  {
    var x, s := n / B, n % B;
    assert n == B * x + s;
    SameQuotient(B, x, s, q, r);
  }

  lemma SameQuotient(B: nat, x: nat, s: nat, q: nat, r: nat)
    requires s < B && r < B && B * x + s == B * q + r
    ensures x == q
  {
    if x < q { MulMonotone(B, x, q); }
    if q < x { MulMonotone(B, q, x); }
  }

  lemma AddModulus(a: nat, B: nat)
    requires B > 0
    ensures (a + B) % B == a % B
  {
    var x, s := a / B, a % B;
    assert a == B * x + s;
    assert B * (x + 1) == B * x + B;
    RemainderIs(a + B, B, x + 1, s);
  }

  /** The ring index of cycle c. */
  function Ring(c: nat, B: nat): (i: nat)
    requires B > 0
    ensures i < B
  {
    (c / 64) % B
  }

  ghost predicate ValidBlocks<T>(blocks: seq<Block<T>>) {
    |blocks| > 0 && forall i :: 0 <= i < |blocks| ==> blocks[i].Valid()
  }

  /** The list for cycle c, if c falls into the ring. */
  ghost function Slot<T>(blocks: seq<Block<T>>, c: nat): seq<T>
    requires ValidBlocks(blocks)
  {
    var i := Ring(c, |blocks|);
    assert blocks[i].Valid();
    blocks[i].slots[c % 64]
  }

  /** How often (c, x) is in the ring. */
  ghost function NearCount<T>(blocks: seq<Block<T>>, cur: nat, c: nat, x: T): nat
    requires ValidBlocks(blocks)
  {
    if cur <= c / 64 < cur + |blocks| then multiset(Slot(blocks, c))[x] else 0
  }

  ghost predicate Sorted<T>(far: Far<T>) {
    forall i, j :: 0 <= i < j < |far| ==> far[i].0 <= far[j].0
  }

  /** The first block that may hold far elements: everything nearer was moved into
      the ring when the current half-ring began. */
  function Horizon(cur: nat, B: nat): nat
    requires B >= 2
  {
    cur - cur % (B / 2) + B
  }

  lemma HorizonBeyondHalf(cur: nat, B: nat)
    requires B >= 2
    ensures cur + B / 2 < Horizon(cur, B) <= cur + B
  {
  }

  /** (c, x) is in the queue as often as it should be. */
  ghost predicate CountOK<T>(blocks: seq<Block<T>>, cur: nat, far: Far<T>, contents: multiset<(nat, T)>, c: nat, x: T)
    requires ValidBlocks(blocks)
  {
    contents[(c, x)] == NearCount(blocks, cur, c, x) + multiset(far)[(c, x)]
  }

  /** The queue represents `contents`, with nothing in the far map before block hz. */
  ghost predicate Represents<T(!new)>(blocks: seq<Block<T>>, cur: nat, hz: nat, far: Far<T>,
                                      contents: multiset<(nat, T)>) {
    && |blocks| >= 2 && ValidBlocks(blocks)
    && Sorted(far)
    && (forall k :: 0 <= k < |far| ==> far[k].0 / 64 >= hz)
    && (forall c: nat, x: T :: CountOK(blocks, cur, far, contents, c, x))
  }

  /** The ring with x at the head of the list for the given cycle. */
  function Pushed<T>(blocks: seq<Block<T>>, cycle: nat, x: T): seq<Block<T>>
    requires ValidBlocks(blocks)
  {
    var i := Ring(cycle, |blocks|);
    assert blocks[i].Valid();
    blocks[i := Block(blocks[i].slots[cycle % 64 := [x] + blocks[i].slots[cycle % 64]],
        blocks[i].occ[cycle % 64 := true])]
  }

  lemma SameCycle(cur: nat, B: nat, c: nat, d: nat)
    requires B > 0 && cur <= c / 64 < cur + B && cur <= d / 64 < cur + B
    requires Ring(c, B) == Ring(d, B) && c % 64 == d % 64
    ensures c == d
  {
    if c / 64 <= d / 64 { SameSlot(c / 64, d / 64, B); } else { SameSlot(d / 64, c / 64, B); }
  }

  lemma PushedSlot<T>(blocks: seq<Block<T>>, cur: nat, cycle: nat, x: T, c: nat)
    requires ValidBlocks(blocks)
    requires cur <= cycle / 64 < cur + |blocks| && cur <= c / 64 < cur + |blocks|
    ensures var after := Pushed(blocks, cycle, x);
            && ValidBlocks(after)
            && Slot(after, c) == if c == cycle then [x] + Slot(blocks, c) else Slot(blocks, c)
  {
    if Ring(c, |blocks|) == Ring(cycle, |blocks|) && c % 64 == cycle % 64 {
      SameCycle(cur, |blocks|, c, cycle);
    }
  }

  lemma PushRepresents<T(!new)>(blocks: seq<Block<T>>, cur: nat, hz: nat, far: Far<T>, contents: multiset<(nat, T)>,
                                cycle: nat, x: T)
    requires Represents(blocks, cur, hz, far, contents)
    requires cur <= cycle / 64 < cur + |blocks|
    ensures Represents(Pushed(blocks, cycle, x), cur, hz, far, contents + multiset{(cycle, x)})
  {
    var after, contents' := Pushed(blocks, cycle, x), contents + multiset{(cycle, x)};
    PushedSlot(blocks, cur, cycle, x, cycle);
    forall c: nat, y: T
      ensures CountOK(after, cur, far, contents', c, y)
    {
      assert CountOK(blocks, cur, far, contents, c, y);
      if cur <= c / 64 < cur + |blocks| { PushedSlot(blocks, cur, cycle, x, c); }
    }
  }

  /** The far map with one more element, after those of the same cycle. */
  function Inserted<T>(far: Far<T>, cycle: nat, x: T): (r: Far<T>)
    requires Sorted(far)
    ensures Sorted(r) && multiset(r) == multiset(far) + multiset{(cycle, x)}
    ensures forall k :: 0 <= k < |r| ==> r[k] == (cycle, x) || r[k] in far
  {
    if far == [] || far[|far| - 1].0 <= cycle then far + [(cycle, x)]
    else
      var last := |far| - 1;
      assert far == far[..last] + [far[last]];
      Inserted(far[..last], cycle, x) + [far[last]]
  }

  lemma InsertRepresents<T(!new)>(blocks: seq<Block<T>>, cur: nat, hz: nat, far: Far<T>, contents: multiset<(nat, T)>,
                                  cycle: nat, x: T)
    requires Represents(blocks, cur, hz, far, contents) && cycle / 64 >= hz
    ensures Represents(blocks, cur, hz, Inserted(far, cycle, x), contents + multiset{(cycle, x)})
  {
    var far', contents' := Inserted(far, cycle, x), contents + multiset{(cycle, x)};
    forall k | 0 <= k < |far'| ensures far'[k].0 / 64 >= hz {
      if far'[k] in far { var j :| 0 <= j < |far| && far[j] == far'[k]; }
    }
    forall c: nat, y: T
      ensures CountOK(blocks, cur, far', contents', c, y)
    {
      assert CountOK(blocks, cur, far, contents, c, y);
      assert contents'[(c, y)] == contents[(c, y)] + multiset{(cycle, x)}[(c, y)];
    }
  }

  /** Moving the nearest far element into the ring changes nothing. */
  lemma MoveRepresents<T(!new)>(blocks: seq<Block<T>>, cur: nat, hz: nat, far: Far<T>, contents: multiset<(nat, T)>)
    requires Represents(blocks, cur, hz, far, contents)
    requires far != [] && cur <= far[0].0 / 64 < cur + |blocks|
    ensures Represents(Pushed(blocks, far[0].0, far[0].1), cur, hz, far[1..], contents)
  {
    var (cycle, x) := far[0];
    var rest := contents - multiset{(cycle, x)};
    assert far == [far[0]] + far[1..];
    assert multiset(far) == multiset{(cycle, x)} + multiset(far[1..]);
    assert CountOK(blocks, cur, far, contents, cycle, x);
    assert contents[(cycle, x)] > 0;
    var tail := far[1..];
    forall c: nat, y: T
      ensures CountOK(blocks, cur, tail, rest, c, y)
    {
      assert CountOK(blocks, cur, far, contents, c, y);
    }
    PushRepresents(blocks, cur, hz, tail, rest, cycle, x);
    assert rest + multiset{(cycle, x)} == contents;
  }

  /** The ring may turn past a block with nothing in it. */
  lemma TurnRepresents<T(!new)>(blocks: seq<Block<T>>, cur: nat, hz: nat, far: Far<T>, contents: multiset<(nat, T)>)
    requires Represents(blocks, cur, hz, far, contents)
    requires !blocks[cur % |blocks|].Occupied()
    ensures Represents(blocks, cur + 1, hz, far, contents)
  {
    var B := |blocks|;
    assert blocks[cur % B].Valid();
    AddModulus(cur, B);
    var next := cur + 1;
    forall c: nat, y: T
      ensures CountOK(blocks, next, far, contents, c, y)
    {
      assert CountOK(blocks, cur, far, contents, c, y);
      if c / 64 == cur || c / 64 == cur + B {
        assert Ring(c, B) == cur % B;
        assert Slot(blocks, c) == [];
      }
    }
  }

  // ---------------------------------------------------------------------------
  // The first element
  // ---------------------------------------------------------------------------

  ghost predicate IsFirst<T(!new)>(contents: multiset<(nat, T)>, cycle: nat) {
    && (exists x: T :: (cycle, x) in contents)
    && (forall c: nat, x: T :: (c, x) in contents ==> cycle <= c)
  }

  /** The lowest nonempty list of the first nonempty block comes first, as long as
      the far map starts later. */
  lemma NearestIsFirst<T(!new)>(blocks: seq<Block<T>>, cur: nat, hz: nat, far: Far<T>, contents: multiset<(nat, T)>,
                                b: nat, pos: nat)
    requires Represents(blocks, cur, hz, far, contents) && pos < 64
    requires cur <= b < cur + |blocks|
    requires forall a :: cur <= a < b ==> !blocks[a % |blocks|].Occupied()
    requires var block := blocks[b % |blocks|];
             block.occ[pos] && forall i :: 0 <= i < pos ==> !block.occ[i]
    requires forall k :: 0 <= k < |far| ==> b * 64 + pos <= far[k].0
    ensures IsFirst(contents, b * 64 + pos)
  {
    var B, cycle := |blocks|, b * 64 + pos;
    assert blocks[b % B].Valid();
    assert Ring(cycle, B) == b % B && Slot(blocks, cycle) != [];
    var x := Slot(blocks, cycle)[0];
    assert CountOK(blocks, cur, far, contents, cycle, x);
    assert contents[(cycle, x)] > 0;
    forall c: nat, y: T | (c, y) in contents
      ensures cycle <= c
    {
      assert CountOK(blocks, cur, far, contents, c, y);
      if NearCount(blocks, cur, c, y) > 0 {
        NearIsLater(blocks, cur, b, pos, c);
      } else {
        assert (c, y) in far;
      }
    }
  }

  lemma NearIsLater<T>(blocks: seq<Block<T>>, cur: nat, b: nat, pos: nat, c: nat)
    requires ValidBlocks(blocks) && pos < 64 && cur <= b < cur + |blocks|
    requires forall a :: cur <= a < b ==> !blocks[a % |blocks|].Occupied()
    requires var block := blocks[b % |blocks|];
             |block.occ| == 64 && forall i :: 0 <= i < pos ==> !block.occ[i]
    requires cur <= c / 64 < cur + |blocks| && Slot(blocks, c) != []
    ensures b * 64 + pos <= c
  {
    var a := c / 64;
    assert blocks[Ring(c, |blocks|)].Valid();
    assert blocks[a % |blocks|].occ[c % 64];
    assert a >= b;
  }

  /** The far map's head comes first if the ring has nothing before it. */
  lemma FarIsFirst<T(!new)>(blocks: seq<Block<T>>, cur: nat, hz: nat, far: Far<T>, contents: multiset<(nat, T)>)
    requires Represents(blocks, cur, hz, far, contents) && far != []
    requires forall c: nat :: cur <= c / 64 < cur + |blocks| && c < far[0].0 ==> Slot(blocks, c) == []
    ensures IsFirst(contents, far[0].0)
  {
    var (cycle, x) := far[0];
    assert (cycle, x) in far;
    assert CountOK(blocks, cur, far, contents, cycle, x);
    assert contents[(cycle, x)] > 0;
    forall c: nat, y: T | (c, y) in contents
      ensures cycle <= c
    {
      assert CountOK(blocks, cur, far, contents, c, y);
      if NearCount(blocks, cur, c, y) == 0 {
        assert (c, y) in far;
      }
    }
  }

  /** The ring with the head of the list for the given cycle taken off. */
  function Popped<T>(blocks: seq<Block<T>>, cycle: nat): seq<Block<T>>
    requires ValidBlocks(blocks) && |blocks[Ring(cycle, |blocks|)].slots| == 64
    requires blocks[Ring(cycle, |blocks|)].slots[cycle % 64] != []
  {
    var i := Ring(cycle, |blocks|);
    assert blocks[i].Valid();
    var next := blocks[i].slots[cycle % 64][1..];
    blocks[i := Block(blocks[i].slots[cycle % 64 := next], blocks[i].occ[cycle % 64 := next != []])]
  }

  lemma PoppedSlot<T>(blocks: seq<Block<T>>, cur: nat, cycle: nat, c: nat)
    requires ValidBlocks(blocks) && blocks[Ring(cycle, |blocks|)].Valid()
    requires cur <= cycle / 64 < cur + |blocks| && cur <= c / 64 < cur + |blocks| && Slot(blocks, cycle) != []
    ensures var after := Popped(blocks, cycle);
            && ValidBlocks(after)
            && Slot(after, c) == if c == cycle then Slot(blocks, c)[1..] else Slot(blocks, c)
  {
    if Ring(c, |blocks|) == Ring(cycle, |blocks|) && c % 64 == cycle % 64 {
      SameCycle(cur, |blocks|, c, cycle);
    }
  }

  lemma PopRepresents<T(!new)>(blocks: seq<Block<T>>, cur: nat, hz: nat, far: Far<T>, contents: multiset<(nat, T)>,
                               cycle: nat)
    requires Represents(blocks, cur, hz, far, contents)
    requires cur <= cycle / 64 < cur + |blocks| && Slot(blocks, cycle) != []
    ensures (cycle, Slot(blocks, cycle)[0]) in contents
    ensures blocks[Ring(cycle, |blocks|)].Valid()
            && Represents(Popped(blocks, cycle), cur, hz, far, contents - multiset{(cycle, Slot(blocks, cycle)[0])})
  {
    assert blocks[Ring(cycle, |blocks|)].Valid();
    var list := Slot(blocks, cycle);
    var x := list[0];
    assert list == [x] + list[1..];
    assert multiset(list) == multiset{x} + multiset(list[1..]);
    assert CountOK(blocks, cur, far, contents, cycle, x);
    assert contents[(cycle, x)] > 0;
    var after, contents' := Popped(blocks, cycle), contents - multiset{(cycle, x)};
    PoppedSlot(blocks, cur, cycle, cycle);
    forall c: nat, y: T
      ensures CountOK(after, cur, far, contents', c, y)
    {
      assert CountOK(blocks, cur, far, contents, c, y);
      if cur <= c / 64 < cur + |blocks| { PoppedSlot(blocks, cur, cycle, c); }
    }
  }

  lemma HorizonStep(cur: nat, B: nat)
    requires B >= 2
    ensures Horizon(cur + 1, B) == if (cur + 1) % (B / 2) == 0 then cur + 1 + B else Horizon(cur, B)
  {
    var h := B / 2;
    var x, y := cur / h, (cur + 1) / h;
    assert cur == h * x + cur % h && cur + 1 == h * y + (cur + 1) % h;
    if (cur + 1) % h != 0 {
      if y < x { MulMonotone(h, y, x); }
      if x < y { MulMonotone(h, x, y); }
      assert x == y;
    }
  }

  class PrioQueue<T(!new)> {
    const B: nat
    var blocks: seq<Block<T>>
    var feMap: Far<T>
    var curBlock: nat
    var elems: nat
    ghost var contents: multiset<(nat, T)>

    ghost predicate Valid()
      reads this
    {
      && B == |blocks| && B >= 2
      && Represents(blocks, curBlock, Horizon(curBlock, B), feMap, contents)
      && elems == |contents|
    }

    constructor (b: nat)
      requires b >= 2
      ensures Valid() && contents == multiset{} && curBlock == 0 && B == b
    {
      B := b;
      blocks := seq(b, _ => EmptyBlock());
      feMap := [];
      curBlock, elems := 0, 0;
      contents := multiset{};
      new;
      assert forall i :: 0 <= i < b ==> blocks[i] == EmptyBlock<T>();
    }

    /** The bitmap's lowest set bit. */
    method Ctz(occ: seq<bool>) returns (pos: nat)
      requires exists i :: 0 <= i < |occ| && occ[i]
      ensures pos < |occ| && occ[pos] && forall i :: 0 <= i < pos ==> !occ[i]
    {
      pos := 0;
      while !occ[pos]
        invariant 0 <= pos < |occ| && forall i :: 0 <= i < pos ==> !occ[i]
        decreases |occ| - pos
      {
        pos := pos + 1;
      }
    }

    method Enqueue(obj: T, cycle: nat)
      requires Valid() && curBlock <= cycle / 64
      modifies this`blocks, this`feMap, this`elems, this`contents
      ensures Valid() && contents == old(contents) + multiset{(cycle, obj)}
    {
      HorizonBeyondHalf(curBlock, B);
      if cycle / 64 < curBlock + B {
        PushRepresents(blocks, curBlock, Horizon(curBlock, B), feMap, contents, cycle, obj);
        blocks := Pushed(blocks, cycle, obj);
      } else {
        InsertRepresents(blocks, curBlock, Horizon(curBlock, B), feMap, contents, cycle, obj);
        feMap := Inserted(feMap, cycle, obj);
      }
      contents := contents + multiset{(cycle, obj)};
      elems := elems + 1;
    }

    /** Moves the far elements of the next half-ring into the ring. */
    method MoveNear(ghost hz: nat)
      requires B == |blocks| && B >= 2 && Represents(blocks, curBlock, hz, feMap, contents) && curBlock <= hz
      modifies this`blocks, this`feMap
      ensures |blocks| == B && Represents(blocks, curBlock, curBlock + B, feMap, contents)
    {
      var topCycle := (curBlock + B) * 64;
      while feMap != [] && feMap[0].0 < topCycle
        invariant B == |blocks| && Represents(blocks, curBlock, hz, feMap, contents)
        decreases |feMap|
      {
        MoveRepresents(blocks, curBlock, hz, feMap, contents);
        blocks := Pushed(blocks, feMap[0].0, feMap[0].1);
        feMap := feMap[1..];
      }
    }

    /** Takes out an element of the smallest cycle. */
    method Dequeue() returns (obj: T, deqCycle: nat)
      requires Valid() && elems > 0
      modifies this`blocks, this`feMap, this`curBlock, this`elems, this`contents
      ensures Valid() && IsFirst(old(contents), deqCycle)
      ensures (deqCycle, obj) in old(contents) && contents == old(contents) - multiset{(deqCycle, obj)}
      ensures old(curBlock) <= curBlock == deqCycle / 64
    {
      SkipEmpty();
      var pos := Ctz(blocks[curBlock % B].occ);
      deqCycle := curBlock * 64 + pos;
      obj := TakeHead(deqCycle, pos);
    }

    /** The first part of dequeue: moves on to the first block that holds anything. */
    method SkipEmpty()
      requires Valid() && elems > 0
      modifies this`blocks, this`feMap, this`curBlock
      ensures Valid() && old(curBlock) <= curBlock && blocks[curBlock % B].Occupied()
    {
      ghost var some :| some in contents;
      ghost var bound := some.0 / 64;
      InSight(blocks, curBlock, Horizon(curBlock, B), feMap, contents, some.0, some.1);
      while !blocks[curBlock % B].Occupied()
        invariant Valid() && old(curBlock) <= curBlock <= bound
        decreases bound - curBlock
      {
        InSight(blocks, curBlock, Horizon(curBlock, B), feMap, contents, some.0, some.1);
        TurnRepresents(blocks, curBlock, Horizon(curBlock, B), feMap, contents);
        HorizonStep(curBlock, B);
        HorizonBeyondHalf(curBlock, B);
        ghost var hz := Horizon(curBlock, B);
        curBlock := curBlock + 1;
        if curBlock % (B / 2) == 0 && feMap != [] {
          MoveNear(hz);
        }
      }
    }

    /** PQBlock::dequeue on the current block. */
    method TakeHead(cycle: nat, pos: nat) returns (obj: T)
      requires Valid() && pos < 64 && cycle == curBlock * 64 + pos
      requires var block := blocks[curBlock % B]; block.Valid() ==> block.occ[pos] && forall i :: 0 <= i < pos ==>
                 !block.occ[i]
      modifies this`blocks, this`elems, this`contents
      ensures Valid() && IsFirst(old(contents), cycle)
      ensures (cycle, obj) in old(contents) && contents == old(contents) - multiset{(cycle, obj)}
    {
      assert blocks[curBlock % B].Valid();
      HorizonBeyondHalf(curBlock, B);
      NearestIsFirst(blocks, curBlock, Horizon(curBlock, B), feMap, contents, curBlock, pos);
      assert Ring(cycle, B) == curBlock % B && Slot(blocks, cycle) != [];
      PopRepresents(blocks, curBlock, Horizon(curBlock, B), feMap, contents, cycle);
      obj := blocks[curBlock % B].slots[pos][0];
      blocks := Popped(blocks, cycle);
      contents := contents - multiset{(cycle, obj)};
      elems := elems - 1;
    }

    method Size() returns (n: nat)
      requires Valid()
      ensures n == |contents|
    {
      n := elems;
    }

    /** How far the first block is that holds anything, or B. */
    method FirstOccupied() returns (i: nat)
      requires Valid()
      ensures i <= B && forall a :: curBlock <= a < curBlock + i ==> !blocks[a % B].Occupied()
      ensures i < B ==> blocks[(curBlock + i) % B].Occupied()
    {
      i := 0;
      while i < B && !blocks[(curBlock + i) % B].Occupied()
        invariant 0 <= i <= B
        invariant forall a :: curBlock <= a < curBlock + i ==> !blocks[a % B].Occupied()
      {
        i := i + 1;
      }
    }

    /** The smallest cycle in the queue, without taking anything out. */
    method FirstCycle() returns (cycle: nat)
      requires Valid() && elems > 0
      ensures IsFirst(contents, cycle)
    {
      HorizonBeyondHalf(curBlock, B);
      ghost var hz := Horizon(curBlock, B);
      var i := FirstOccupied();
      if i < B {
        var b := curBlock + i;
        assert blocks[b % B].Valid();
        var pos := Ctz(blocks[b % B].occ);
        cycle := b * 64 + pos;
        if i >= B / 2 && feMap != [] && feMap[0].0 < cycle {
          cycle := feMap[0].0;
          forall c: nat | curBlock <= c / 64 < curBlock + B && c < feMap[0].0 ensures Slot(blocks, c) == [] {
            if Slot(blocks, c) != [] { NearIsLater(blocks, curBlock, b, pos, c); }
          }
          FarIsFirst(blocks, curBlock, hz, feMap, contents);
        } else {
          NearestIsFirst(blocks, curBlock, hz, feMap, contents, b, pos);
        }
      } else {
        NothingNear(blocks, curBlock, hz, feMap, contents);
        cycle := feMap[0].0;
      }
    }
  }

  /** An element of the current block is in the ring; none lies before it. */
  lemma InSight<T(!new)>(blocks: seq<Block<T>>, cur: nat, hz: nat, far: Far<T>, contents: multiset<(nat, T)>, c: nat,
                         x: T)
    requires Represents(blocks, cur, hz, far, contents) && (c, x) in contents && cur < hz
    ensures cur <= c / 64
    ensures c / 64 == cur ==> blocks[cur % |blocks|].Occupied()
  {
    assert CountOK(blocks, cur, far, contents, c, x);
    if NearCount(blocks, cur, c, x) > 0 {
      assert x in Slot(blocks, c);
      assert blocks[Ring(c, |blocks|)].Valid();
      assert blocks[Ring(c, |blocks|)].occ[c % 64];
    } else {
      assert (c, x) in far;
    }
  }

  lemma NothingNear<T(!new)>(blocks: seq<Block<T>>, cur: nat, hz: nat, far: Far<T>, contents: multiset<(nat, T)>)
    requires Represents(blocks, cur, hz, far, contents) && |contents| > 0
    requires forall a :: cur <= a < cur + |blocks| ==> !blocks[a % |blocks|].Occupied()
    ensures far != [] && IsFirst(contents, far[0].0)
  {
    forall c: nat | cur <= c / 64 < cur + |blocks| ensures Slot(blocks, c) == [] {
      assert blocks[Ring(c, |blocks|)].Valid();
      assert !blocks[(c / 64) % |blocks|].Occupied();
    }
    var some :| some in contents;
    assert CountOK(blocks, cur, far, contents, some.0, some.1);
    assert (some.0, some.1) in far;
    FarIsFirst(blocks, cur, hz, far, contents);
  }
}
