/** The placement policies of the page-granularity DRAM cache: LRU ranks, and
    frequency-based replacement with a table of counters per set. */
module PagePlacement {

  datatype Way = Way(valid: bool, tag: nat, dirty: bool)

  datatype ChunkEntry = ChunkEntry(valid: bool, tag: nat, count: nat)

  type Chunk = seq<ChunkEntry>

  // ---------------------------------------------------------------------------
  // LRU
  // ---------------------------------------------------------------------------

  ghost predicate Holder(ranks: seq<nat>, r: nat) {
    exists i :: 0 <= i < |ranks| && ranks[i] == r
  }

  /** The ranks of a set are a permutation of 0, ..., ways - 1. */
  ghost predicate RanksOK(ranks: seq<nat>) {
    && (forall i :: 0 <= i < |ranks| ==> ranks[i] < |ranks|)
    && (forall i, j :: 0 <= i < j < |ranks| ==> ranks[i] != ranks[j])
    && (forall r: nat {:trigger Holder(ranks, r)} :: r < |ranks| ==> Holder(ranks, r))
  }

  /** The rank of way i after way `way` was used. */
  function Aged(ranks: seq<nat>, way: nat, i: nat): nat
    requires way < |ranks| && i < |ranks|
  {
    if i == way then 0 else if ranks[i] < ranks[way] then ranks[i] + 1 else ranks[i]
  }

  method UpdateLRU(ranks: seq<nat>, way: nat) returns (ranks': seq<nat>)
    requires way < |ranks| && RanksOK(ranks)
    ensures |ranks'| == |ranks| && RanksOK(ranks') && forall i :: 0 <= i < |ranks| ==> ranks'[i] == Aged(ranks, way, i)
  {
    ranks' := ranks;
    for i := 0 to |ranks|
      invariant |ranks'| == |ranks| && ranks'[way] == ranks[way]
      invariant forall j :: 0 <= j < i && j != way ==> ranks'[j] == Aged(ranks, way, j)
      invariant forall j :: i <= j < |ranks| ==> ranks'[j] == ranks[j]
    {
      if ranks'[i] < ranks'[way] {
        ranks' := ranks'[i := ranks'[i] + 1];
      }
    }
    ranks' := ranks'[way := 0];
    AgedOK(ranks, ranks', way);
  }

  lemma AgedOK(ranks: seq<nat>, ranks': seq<nat>, way: nat)
    requires way < |ranks| && RanksOK(ranks) && |ranks'| == |ranks| && forall i :: 0 <= i < |ranks| ==>
               ranks'[i] == Aged(ranks, way, i)
    ensures RanksOK(ranks')
  {
    forall r: nat | r < |ranks| ensures Holder(ranks', r) {
      if r == 0 {
        assert ranks'[way] == 0;
      } else {
        var q := if r <= ranks[way] then r - 1 else r;
        assert Holder(ranks, q);
        var i :| 0 <= i < |ranks| && ranks[i] == q;
        assert ranks'[i] == r;
      }
    }
  }

  /** The least recently used way: there always is one. */
  method LeastRecent(ranks: seq<nat>) returns (way: nat)
    requires RanksOK(ranks) && ranks != []
    ensures way < |ranks| && ranks[way] == |ranks| - 1 && forall i :: 0 <= i < |ranks| ==> ranks[i] <= ranks[way]
  {
    assert Holder(ranks, |ranks| - 1);
    way := 0;
    while way < |ranks| && ranks[way] != |ranks| - 1
      invariant way <= |ranks| && forall i :: 0 <= i < way ==> ranks[i] != |ranks| - 1
    {
      way := way + 1;
    }
  }

  // ---------------------------------------------------------------------------
  // Frequency-based replacement
  // ---------------------------------------------------------------------------

  ghost predicate EntriesApart(e: Chunk, i: nat, j: nat)
    requires i < j < |e|
  {
    (e[j].valid ==> e[i].valid) && (e[i].valid && e[j].valid ==> e[i].tag != e[j].tag)
  }

  ghost predicate EntryOK(e: Chunk, i: nat, maxCount: nat)
    requires i < |e|
  {
    e[i].valid ==> e[i].count < maxCount
  }

  /** Valid entries are a prefix, their tags differ, and their counters are in range. */
  ghost predicate TableOK(e: Chunk, maxCount: nat) {
    && (forall i, j {:trigger EntriesApart(e, i, j)} :: 0 <= i < j < |e| ==> EntriesApart(e, i, j))
    && (forall i {:trigger EntryOK(e, i, maxCount)} :: 0 <= i < |e| ==> EntryOK(e, i, maxCount))
  }

  ghost predicate MirrorsAt(e: Chunk, ways: seq<Way>, w: nat)
    requires w < |ways| && w < |e|
  {
    (ways[w].valid <==> e[w].valid) && (ways[w].valid ==> ways[w].tag == e[w].tag)
  }

  /** The first entries of the table are the pages in the set's ways. */
  ghost predicate Mirrors(e: Chunk, ways: seq<Way>) {
    0 < |ways| < |e| && forall w {:trigger MirrorsAt(e, ways, w)} :: 0 <= w < |ways| ==> MirrorsAt(e, ways, w)
  }

  ghost predicate ChunkOK(e: Chunk, ways: seq<Way>, maxCount: nat) {
    TableOK(e, maxCount) && Mirrors(e, ways)
  }

  ghost predicate HasEntry(e: Chunk, tag: nat) {
    exists i :: 0 <= i < |e| && e[i].valid && e[i].tag == tag
  }

  /** getChunkEntry: the entry of the tag, or else a new one with count 0, in the first
      invalid entry or in place of a random one that belongs to no way; the latter
      is refused with some probability.  The random draws are arguments. */
  method GetChunkEntry(e: Chunk, numWays: nat, tag: nat, rand: nat, refuse: bool) returns (idx: nat, e': Chunk)
    requires numWays < |e|
    ensures idx <= |e| && |e'| == |e| && (idx == |e| ==> e' == e)
    ensures HasEntry(e, tag) ==> idx < |e| && e[idx].valid && e[idx].tag == tag && e' == e
    ensures !HasEntry(e, tag) && idx < |e| ==>
              e' == e[idx := ChunkEntry(true, tag, 0)] && (e[idx].valid ==> idx >= numWays)
    ensures !HasEntry(e, tag) && (exists i :: 0 <= i < |e| && !e[i].valid) ==>
              idx < |e| && !e[idx].valid && forall i :: 0 <= i < idx ==> e[i].valid
  {
    idx, e' := |e|, e;
    for i := 0 to |e|
      invariant forall j :: 0 <= j < i ==> !(e[j].valid && e[j].tag == tag)
      invariant idx == |e| || (idx < i && !e[idx].valid)
      invariant forall j :: 0 <= j < i && j < idx ==> e[j].valid
    {
      if e[i].valid && e[i].tag == tag {
        idx := i;
        return;
      } else if !e[i].valid && idx == |e| {
        idx := i;
      }
    }
    if idx == |e| {
      idx := numWays + rand % (|e| - numWays);
      if e[idx].count > 0 && refuse {
        idx := |e|;
      }
    }
    if idx < |e| {
      e' := e[idx := ChunkEntry(true, tag, 0)];
    }
  }

  /** handleCounterOverflow: all counters are halved, the overflowing one rounded up. */
  method HandleCounterOverflow(e: Chunk, idx: nat) returns (e': Chunk)
    requires idx < |e|
    ensures |e'| == |e|
    ensures forall i :: 0 <= i < |e| ==>
              e'[i] == e[i].(count := if i == idx then (e[i].count + 1) / 2 else e[i].count / 2)
  {
    e' := e;
    for i := 0 to |e|
      invariant |e'| == |e|
      invariant forall j :: 0 <= j < i ==>
                  e'[j] == e[j].(count := if j == idx then (e[j].count + 1) / 2 else e[j].count / 2)
      invariant forall j :: i <= j < |e| ==> e'[j] == e[j]
    {
      if i == idx {
        e' := e'[i := e'[i].(count := (e'[i].count + 1) / 2)];
      } else {
        e' := e'[i := e'[i].(count := e'[i].count / 2)];
      }
    }
  }

  /** Same tags, and counters in range. */
  lemma Recounted(e: Chunk, e': Chunk, maxCount: nat, ways: seq<Way>)
    requires ChunkOK(e, ways, maxCount) && |e'| == |e|
    requires forall i :: 0 <= i < |e| ==>
               e'[i].valid == e[i].valid && e'[i].tag == e[i].tag && (e[i].valid ==> e'[i].count < maxCount)
    ensures ChunkOK(e', ways, maxCount)
  {
    forall i, j | 0 <= i < j < |e| ensures EntriesApart(e', i, j) { assert EntriesApart(e, i, j); }
    forall w | 0 <= w < |ways| ensures MirrorsAt(e', ways, w) { assert MirrorsAt(e, ways, w); }
  }

  /** Entry idx was counted; if its counter reached the maximum, all were halved. */
  ghost predicate CountedUp(e: Chunk, e': Chunk, idx: nat, maxCount: nat)
    requires idx < |e|
  {
    && |e'| == |e|
    && (forall i :: 0 <= i < |e| ==> e'[i].valid == e[i].valid && e'[i].tag == e[i].tag)
    && if e[idx].count + 1 < maxCount then e' == e[idx := e[idx].(count := e[idx].count + 1)]
       else forall i :: 0 <= i < |e| ==> e'[i].count == (if i == idx then (e[i].count + 2) / 2 else e[i].count / 2)
  }

  /** The counting common to hits and misses: counters stay below their maximum. */
  method CountUp(e: Chunk, idx: nat, ghost ways: seq<Way>, maxCount: nat) returns (e': Chunk)
    requires ChunkOK(e, ways, maxCount) && idx < |e| && e[idx].valid && maxCount > 1
    ensures ChunkOK(e', ways, maxCount) && CountedUp(e, e', idx, maxCount)
  {
    assert EntryOK(e, idx, maxCount);
    e' := e[idx := e[idx].(count := e[idx].count + 1)];
    if e'[idx].count >= maxCount {
      e' := HandleCounterOverflow(e', idx);
    }
    forall i | 0 <= i < |e| && e[i].valid ensures e'[i].count < maxCount { assert EntryOK(e, i, maxCount); }
    Recounted(e, e', maxCount, ways);
  }

  /** pickVictimWay: the way with the least count; the search from 10000 finds one. */
  method PickVictimWay(e: Chunk, numWays: nat, ghost maxCount: nat) returns (way: nat)
    requires 0 < numWays < |e| && TableOK(e, maxCount) && maxCount <= 10000 && e[numWays - 1].valid
    ensures way < numWays && forall i :: 0 <= i < numWays ==> e[way].count <= e[i].count
  {
    var minCount := 10000;
    way := numWays;
    for i := 0 to numWays
      invariant way < i || way == numWays
      invariant way == numWays ==> i == 0 && minCount == 10000
      invariant way < numWays ==> e[way].count == minCount && forall j :: 0 <= j < i ==> minCount <= e[j].count
    {
      assert i < numWays - 1 ==> EntriesApart(e, i, numWays - 1);
      assert e[i].valid;
      assert EntryOK(e, i, maxCount);
      if e[i].count < minCount {
        minCount, way := e[i].count, i;
      }
    }
  }

  method FlushChunk(e: Chunk) returns (e': Chunk)
    ensures |e'| == |e| && forall i :: 0 <= i < |e| ==> e'[i] == ChunkEntry(false, 0, 0)
  {
    e' := e;
    for i := 0 to |e|
      invariant |e'| == |e| && forall j :: 0 <= j < i ==> e'[j] == ChunkEntry(false, 0, 0)
    {
      e' := e'[i := ChunkEntry(false, 0, 0)];
    }
  }

  // ---------------------------------------------------------------------------
  // Hits and misses under frequency-based replacement
  // ---------------------------------------------------------------------------

  /** The first way that is not valid, or the number of ways. */
  method GetEmptyWay(ways: seq<Way>) returns (way: nat)
    ensures way <= |ways| && (way < |ways| ==> !ways[way].valid) && forall i :: 0 <= i < way ==> ways[i].valid
  {
    way := 0;
    while way < |ways| && ways[way].valid
      invariant way <= |ways| && forall i :: 0 <= i < way ==> ways[i].valid
    {
      way := way + 1;
    }
  }

  ghost predicate Holds(ways: seq<Way>, tag: nat) {
    exists w :: 0 <= w < |ways| && ways[w].valid && ways[w].tag == tag
  }

  /** The ways with the page in one of them. */
  function With(ways: seq<Way>, w: nat, tag: nat, dirty: bool): seq<Way>
    requires w < |ways|
  {
    ways[w := Way(true, tag, dirty)]
  }

  /** Which way is dirty does not matter to the table. */
  lemma DirtyIrrelevant(e: Chunk, ways: seq<Way>, ways': seq<Way>, maxCount: nat)
    requires ChunkOK(e, ways, maxCount) && |ways'| == |ways|
    requires forall w :: 0 <= w < |ways| ==>
               ways'[w].valid == ways[w].valid && (ways[w].valid ==> ways'[w].tag == ways[w].tag)
    ensures ChunkOK(e, ways', maxCount)
  {
    forall w | 0 <= w < |ways| ensures MirrorsAt(e, ways', w) { assert MirrorsAt(e, ways, w); }
  }

  /** The table after a new entry was made for a page that is in no way: if the entry
      is one of a way, that way was empty, and the page must go there. */
  lemma NewEntry(e: Chunk, ways: seq<Way>, maxCount: nat, tag: nat, idx: nat)
    requires ChunkOK(e, ways, maxCount) && !HasEntry(e, tag) && maxCount > 0 && idx < |e|
             && (e[idx].valid ==> idx >= |ways|)
    requires !e[idx].valid ==> forall i :: 0 <= i < idx ==> e[i].valid
    ensures ChunkOK(e[idx := ChunkEntry(true, tag, 0)], if idx < |ways| then With(ways, idx, tag, false)
            else ways, maxCount)
  {
    var e', ways' := e[idx := ChunkEntry(true, tag, 0)], if idx < |ways| then With(ways, idx, tag, false) else ways;
    forall i, j | 0 <= i < j < |e| ensures EntriesApart(e', i, j) { assert EntriesApart(e, i, j); }
    forall i | 0 <= i < |e| ensures EntryOK(e', i, maxCount) { assert EntryOK(e, i, maxCount); }
    forall w | 0 <= w < |ways| ensures MirrorsAt(e', ways', w) { assert MirrorsAt(e, ways, w); }
  }

  /** The part of a miss that counts: the page's entry is found or made.  If a way is
      empty, it is the entry of the first empty way; otherwise it belongs to no way. */
  method CountMiss(e: Chunk, ways: seq<Way>, tag: nat, rand: nat, refuse: bool, maxCount: nat)
      returns (idx: nat, e': Chunk)
    requires ChunkOK(e, ways, maxCount) && maxCount > 1 && !Holds(ways, tag)
    ensures idx <= |e| == |e'| && (idx == |e| ==> e' == e)
    ensures idx < |e| ==> e'[idx].valid && e'[idx].tag == tag
    ensures idx < |e| ==>
              CountedUp(if HasEntry(e, tag) then e else e[idx := ChunkEntry(true, tag, 0)], e', idx, maxCount)
    ensures idx < |ways| ==> !ways[idx].valid && (forall i :: 0 <= i < idx ==> ways[i].valid)
    ensures idx < |ways| ==> ChunkOK(e', With(ways, idx, tag, false), maxCount)
    ensures idx >= |ways| ==> (forall i :: 0 <= i < |ways| ==> ways[i].valid) && ChunkOK(e', ways, maxCount)
  {
    idx, e' := GetChunkEntry(e, |ways|, tag, rand, refuse);
    WhereFound(e, ways, maxCount, tag, idx);
    if idx < |e| {
      if !HasEntry(e, tag) {
        NewEntry(e, ways, maxCount, tag, idx);
      }
      e' := CountUp(e', idx, if idx < |ways| then With(ways, idx, tag, false) else ways, maxCount);
    }
  }

  /** Where the entry of a page in no way can be. */
  lemma WhereFound(e: Chunk, ways: seq<Way>, maxCount: nat, tag: nat, idx: nat)
    requires ChunkOK(e, ways, maxCount) && !Holds(ways, tag) && idx <= |e|
    requires HasEntry(e, tag) ==> idx < |e| && e[idx].valid && e[idx].tag == tag
    requires !HasEntry(e, tag) && idx < |e| && e[idx].valid ==> idx >= |ways|
    requires !HasEntry(e, tag) && (exists i :: 0 <= i < |e| && !e[i].valid) ==>
               idx < |e| && !e[idx].valid && forall i :: 0 <= i < idx ==> e[i].valid
    ensures idx < |ways| ==> !HasEntry(e, tag) && !ways[idx].valid && forall i :: 0 <= i < idx ==> ways[i].valid
    ensures idx >= |ways| ==> forall i :: 0 <= i < |ways| ==> ways[i].valid
  {
    forall w | 0 <= w < |ways| ensures MirrorsAt(e, ways, w) {}
    if idx < |ways| {
      assert MirrorsAt(e, ways, idx);
      forall i | 0 <= i < idx ensures ways[i].valid { assert MirrorsAt(e, ways, i); }
    } else {
      forall i | 0 <= i < |ways| ensures ways[i].valid {
        assert MirrorsAt(e, ways, i);
        if idx < |e| && i < idx { assert EntriesApart(e, i, idx); }
      }
    }
  }

  /** The swap of a page's entry with that of the way it is going to. */
  lemma SwapOK(e: Chunk, ways: seq<Way>, maxCount: nat, idx: nat, w: nat)
    requires ChunkOK(e, ways, maxCount) && w < |ways| <= idx < |e| && e[idx].valid && e[w].valid
    ensures ChunkOK(e[idx := e[w]][w := e[idx]], With(ways, w, e[idx].tag, false), maxCount)
  {
    var e', ways' := e[idx := e[w]][w := e[idx]], With(ways, w, e[idx].tag, false);
    forall i, j | 0 <= i < j < |e| ensures EntriesApart(e', i, j) {
      var i', j' := if i == w then idx else if i == idx then w else i, if j == w then idx else if j == idx then w
          else j;
      assert EntriesApart(e, i, j);
      assert if i' < j' then EntriesApart(e, i', j') else EntriesApart(e, j', i');
      assert i < idx ==> EntriesApart(e, i, idx);
    }
    forall i | 0 <= i < |e| ensures EntryOK(e', i, maxCount) {
      assert EntryOK(e, i, maxCount) && EntryOK(e, idx, maxCount) && EntryOK(e, w, maxCount);
    }
    forall v | 0 <= v < |ways| ensures MirrorsAt(e', ways', v) { assert MirrorsAt(e, ways, v); }
  }

  /** A hit counts the page's entry, which is that of its way. */
  method CountHit(e: Chunk, ways: seq<Way>, hitWay: nat, tag: nat, rand: nat, refuse: bool, maxCount: nat)
      returns (e': Chunk)
    requires ChunkOK(e, ways, maxCount) && maxCount > 1 && hitWay < |ways| && ways[hitWay].valid
             && ways[hitWay].tag == tag
    ensures ChunkOK(e', ways, maxCount) && hitWay < |e| && CountedUp(e, e', hitWay, maxCount)
  {
    assert MirrorsAt(e, ways, hitWay);
    assert HasEntry(e, tag);
    var idx;
    idx, e' := GetChunkEntry(e, |ways|, tag, rand, refuse);
    assert idx < hitWay ==> EntriesApart(e, idx, hitWay);
    assert hitWay < idx ==> EntriesApart(e, hitWay, idx);
    assert idx == hitWay;
    e' := CountUp(e', idx, ways, maxCount);
  }
}
