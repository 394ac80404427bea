/** The DRAM cache controller with 4096-byte pages: hits, misses, placement, eviction and
    the flushing of sets when bandwidth is rebalanced. */
module DramCaches {
  import opened PagePlacement
  import opened PageMap
  import TagBuffers

  datatype Scheme = UnisonCache | Tagless | HybridCache

  /** The random draws of an access: whether to sample or replace, which table entry to
      give up, and whether to refuse to. */
  datatype Draws = Draws(sample: bool, rand: nat, refuse: bool)

  /** The policy's state of a set goes with its ways. */
  ghost predicate SetFits(fbr: bool, maxCount: nat, ways: seq<Way>, chunk: Chunk, ranks: seq<nat>) {
    |ranks| == |ways| && RanksOK(ranks) && (fbr ==> ChunkOK(chunk, ways, maxCount))
  }

  ghost predicate AllFit(fbr: bool, maxCount: nat, c: Core, chunks: seq<Chunk>, ranks: seq<seq<nat>>) {
    && |chunks| == |ranks| == |c.ways|
    && forall k {:trigger SetFits(fbr, maxCount, c.ways[k], chunks[k], ranks[k])} :: 0 <= k < |c.ways| ==>
         SetFits(fbr, maxCount, c.ways[k], chunks[k], ranks[k])
  }

  ghost predicate EmptySet(ways: seq<Way>) {
    forall w :: 0 <= w < |ways| ==> !ways[w].valid
  }

  /** No way is empty. */
  ghost predicate FullSet(ways: seq<Way>) {
    forall w :: 0 <= w < |ways| ==> ways[w].valid
  }

  /** No page is in a set below the index: they are kept for external memory. */
  ghost predicate EmptyBelow(c: Core, dsIndex: nat) {
    forall k {:trigger EmptySet(c.ways[k])} :: 0 <= k < |c.ways| && k < dsIndex ==> EmptySet(c.ways[k])
  }

  /** A way chosen by recency, and the ranks after that. */
  ghost predicate UsedIn(ways: seq<Way>, ranks: seq<seq<nat>>, ranks': seq<seq<nat>>, k: nat, way: nat) {
    && |ranks| == |ranks'| && k < |ranks| && |ranks[k]| == |ranks'[k]| == |ways| && way < |ways|
    && (!ways[way].valid ==> forall i :: 0 <= i < way ==> ways[i].valid)
    && (ways[way].valid ==> ranks[k][way] == |ways| - 1 && forall i :: 0 <= i < |ways| ==> ways[i].valid)
    && (forall i :: 0 <= i < |ways| ==> ranks'[k][i] == Aged(ranks[k], way, i))
  }

  /** A page takes the place of another under FBR: the other one's count is the least of
      all ways, and the page's exceeds it by the margin. */
  ghost predicate Promoted(chunk: Chunk, numWays: nat, way: nat, evicted: nat, margin: real) {
    && way < numWays <= |chunk|
    && exists i :: 0 <= i < |chunk| && chunk[i].valid && chunk[i].tag == evicted
         && chunk[way].count as real >= chunk[i].count as real + margin
         && forall w :: 0 <= w < numWays && w != way ==> chunk[i].count <= chunk[w].count
  }

  function MaxCount(largeCounters: bool): nat {
    if largeCounters then 255 else 31
  }

  class MemoryController {
    const scheme: Scheme
    const fbr: bool
    const enableReplace: bool
    const maxCount: nat
    const margin: real
    const tagBuffer: TagBuffers.TagBuffer
    var core: Core
    var chunks: seq<Chunk>
    var ranks: seq<seq<nat>>
    var dsIndex: nat
    var nextEvict: nat
    // Where the latest value of each line is
    ghost var v: Versions

    ghost predicate ConfigOK() {
      && 1 < maxCount <= 10000
      && (fbr ==> scheme == HybridCache && enableReplace)
    }

    ghost predicate Valid()
      reads this, tagBuffer
    {
      && ConfigOK() && tagBuffer.Valid()
      && CoreOK(core) && VersionsOK(core, v)
      // a store miss is sent to external memory, unless it places the page under Unison;
      // under FBR it never places one
      && (fbr || scheme == UnisonCache ==> v.both == {})
      && AllFit(fbr, maxCount, core, chunks, ranks)
      && EmptyBelow(core, dsIndex) && nextEvict < core.numWays
      && (scheme == Tagless ==> dsIndex == 0)
    }

    constructor (scheme: Scheme, fbr: bool, enableReplace: bool, largeCounters: bool, margin: real, numSets: nat,
                 numWays: nat, tagBufferSize: nat)
      requires numSets > 0 && numWays > 0 && tagBufferSize >= 8 && (fbr ==> scheme == HybridCache && enableReplace)
      requires if scheme == Tagless then numSets == 1 else numWays < 9
      ensures Valid() && fresh(tagBuffer) && core.numSets == numSets && core.numWays == numWays
      ensures dsIndex == 0 && v == Versions({}, {}, {})
      ensures this.scheme == scheme && this.fbr == fbr && maxCount == MaxCount(largeCounters)
      ensures tagBuffer.numWays == 8 && tagBuffer.numSets == tagBufferSize / 8
      ensures core.tlb == map[] && forall k :: 0 <= k < numSets ==> EmptySet(core.ways[k])
    {
      this.scheme, this.fbr, this.enableReplace, this.margin := scheme, fbr, enableReplace, margin;
      maxCount := MaxCount(largeCounters);
      tagBuffer := new TagBuffers.TagBuffer(tagBufferSize);
      core := Core(numSets, numWays, seq(numSets, _ => seq(numWays, _ => Way(false, 0, false))), map[]);
      chunks := seq(numSets, _ => seq(9, _ => ChunkEntry(false, 0, 0)));
      ranks := seq(numSets, _ => seq(numWays, j requires 0 <= j => j));
      dsIndex, nextEvict, v := 0, 0, Versions({}, {}, {});
      new;
      forall k | 0 <= k < numSets ensures SetFits(fbr, maxCount, core.ways[k], chunks[k], ranks[k]) {
        forall r: nat | r < numWays ensures Holder(ranks[k], r) { assert ranks[k][r] == r; }
      }
    }

    /** handleCacheMiss under LRU. */
    method MissLRU(tag: nat, k: nat, draws: Draws) returns (way: nat)
      requires Valid() && !fbr && k < core.numSets
      modifies this`ranks
      ensures Valid() && way <= core.numWays
      ensures way < core.numWays && core.ways[k][way].valid && scheme == HybridCache ==>
                tagBuffer.BothFitIn(tag, core.ways[k][way].tag)
      ensures way == core.numWays ==> ranks == old(ranks) && FullSet(core.ways[k])
      // the first empty way, or the least recently used; it becomes the most recently used
      ensures way < core.numWays ==> UsedIn(core.ways[k], old(ranks), ranks, k, way)
    {
      assert SetFits(fbr, maxCount, core.ways[k], chunks[k], ranks[k]);
      way := GetEmptyWay(core.ways[k]);
      if way == core.numWays {
        if !enableReplace || !draws.sample {
          return;
        }
        way := LeastRecent(ranks[k]);
        if scheme == HybridCache {
          var ok := tagBuffer.CanInsertBoth(tag, core.ways[k][way].tag);
          if !ok {
            way := core.numWays;
            return;
          }
        }
      }
      var r := UpdateLRU(ranks[k], way);
      ranks := ranks[k := r];
      AllFitUpdate(fbr, maxCount, core, old(chunks), old(ranks), k, core.ways[k], chunks[k], r);
    }

    /** handleCacheMiss under FBR.  If it names a way, the table is that of the set with
        the page in that way. */
    method MissFBR(tag: nat, k: nat, write: bool, draws: Draws) returns (way: nat)
      requires Valid() && fbr && k == TagBuffers.Home(tag, core.numSets) && !Resident(core, tag)
      modifies this`chunks
      ensures way <= core.numWays && |chunks| == core.numSets && chunks == old(chunks)[k := chunks[k]]
      ensures way == core.numWays ==> ChunkOK(chunks[k], core.ways[k], maxCount)
      ensures way < core.numWays ==> ChunkOK(chunks[k], With(core.ways[k], way, tag, false), maxCount)
      ensures way < core.numWays && core.ways[k][way].valid ==>
                tagBuffer.BothFitIn(tag, core.ways[k][way].tag)
                    && Promoted(chunks[k], core.numWays, way, core.ways[k][way].tag, margin)
      ensures write ==> way == core.numWays && chunks == old(chunks)
    {
      assert SetFits(fbr, maxCount, core.ways[k], chunks[k], ranks[k]);
      var ways := core.ways[k];
      way := core.numWays;
      // Never replace for a dirty eviction of the last-level cache
      if write {
        return;
      }
      var emptyWay := GetEmptyWay(ways);
      if emptyWay == core.numWays && !draws.sample {
        return;
      }
      NotHeld(core, tag);
      var idx, e := CountMiss(chunks[k], ways, tag, draws.rand, draws.refuse, maxCount);
      chunks := chunks[k := e];
      if idx == |e| {
        return;
      }
      if emptyWay < core.numWays {
        assert idx == emptyWay;
        way := emptyWay;
      } else {
        assert idx >= core.numWays;
        var swapped;
        way, swapped := Challenge(tag, ways, e, idx);
        chunks := chunks[k := swapped];
      }
    }

    /** The page of entry idx takes the place of the way with the least count if it exceeds
        that by the margin, and both tags fit the tag buffer. */
    method Challenge(tag: nat, ways: seq<Way>, e: Chunk, idx: nat) returns (way: nat, e': Chunk)
      requires ConfigOK() && tagBuffer.Valid() && ChunkOK(e, ways, maxCount) && ways != [] && FullSet(ways)
      requires |ways| <= idx < |e| && e[idx].valid && e[idx].tag == tag && !Holds(ways, tag)
      ensures way <= |ways| && (way == |ways| ==> e' == e)
      ensures way < |ways| ==> ChunkOK(e', With(ways, way, tag, false), maxCount)
      ensures way < |ways| ==>
                tagBuffer.BothFitIn(tag, ways[way].tag) && Promoted(e', |ways|, way, ways[way].tag, margin)
    {
      way, e' := |ways|, e;
      assert MirrorsAt(e, ways, |ways| - 1);
      var victim := PickVictimWay(e, |ways|, maxCount);
      assert MirrorsAt(e, ways, victim);
      var fits := tagBuffer.CanInsertBoth(tag, e[victim].tag);
      if e[idx].count as real >= e[victim].count as real + margin && fits {
        SwapOK(e, ways, maxCount, idx, victim);
        e' := e[idx := e[victim]][victim := e[idx]];
        assert e'[idx] == e[victim];
        way := victim;
      }
    }

    /** The page of a way is given up for another: both go to the tag buffer, and what
        was written goes to external memory. */
    method Replace(tag: nat, k: nat, way: nat) returns (back: set<Line>)
      requires ConfigOK() && tagBuffer.Valid() && CoreOK(core) && VersionsOK(core, v) && k < core.numSets
               && way < core.numWays
      requires core.ways[k][way].valid && scheme == HybridCache ==> tagBuffer.BothFitIn(tag, core.ways[k][way].tag)
      requires core.ways[k][way].valid ==> core.ways[k][way].tag != tag
      modifies this`core, this`v, tagBuffer
      ensures WayOK(old(core), k, way) && core == Evicted(old(core), k, way)
      ensures tagBuffer.Valid() && CoreOK(core) && VersionsOK(core, v) && !core.ways[k][way].valid
      ensures back == WrittenBack(old(core), k, way, scheme == HybridCache) && v == WroteBack(old(v), back)
      ensures scheme == HybridCache && old(core).ways[k][way].valid ==>
                tagBuffer.Remapped(tag) && tagBuffer.Remapped(old(core).ways[k][way].tag)
    {
      assert WayOK(core, k, way);
      back := {};
      EvictedOK(core, k, way);
      var x := core.ways[k][way];
      if x.valid {
        if scheme == HybridCache {
          var ok1, ok2 := tagBuffer.InsertBoth(tag, x.tag);
          assert ok1 && ok2;
        }
        var e := core.tlb[x.tag];
        assert e.touch != {} && (x.dirty <==> e.dirty != {});
        back := WrittenBack(core, k, way, scheme == HybridCache);
      }
      EvictedStale(core, v, k, way, scheme == HybridCache);
      core, v := Evicted(core, k, way), WroteBack(v, WrittenBack(core, k, way, scheme == HybridCache));
    }

    /** A page that is not resident is placed in a way of its set.  Under Hybrid and Tagless
        a write that does so has been sent to external memory as well. */
    method Place(tag: nat, way: nat, bit: nat, write: bool) returns (back: set<Line>)
      requires ConfigOK() && tagBuffer.Valid() && CoreOK(core) && VersionsOK(core, v) && way < core.numWays && bit < 64
      requires !Resident(core, tag)
      requires core.ways[TagBuffers.Home(tag, core.numSets)][way].valid && scheme == HybridCache ==>
                 tagBuffer.BothFitIn(tag, core.ways[TagBuffers.Home(tag, core.numSets)][way].tag)
      modifies this`core, this`v, tagBuffer
      ensures tagBuffer.Valid() && CoreOK(core) && VersionsOK(core, v) && Resident(core, tag)
      ensures core.numSets == old(core.numSets) && core.numWays == old(core.numWays)
      ensures var k := TagBuffers.Home(tag, core.numSets);
              core.ways == old(core.ways)[k := With(old(core.ways)[k], way, tag, write)]
              && WayOK(old(core), k, way) && back == WrittenBack(old(core), k, way, scheme == HybridCache)
      ensures v == Accessed(old(v), (tag, bit), write, false, true, scheme == UnisonCache, back)
    {
      var k := TagBuffers.Home(tag, core.numSets);
      ViewsAgree(core, tag, way);
      back := Replace(tag, k, way);
      PlacedOK(core, tag, way, bit, write);
      PlacedStale(core, v, tag, way, bit, write, scheme != UnisonCache);
      core := Placed(core, tag, way, bit, write);
      assert core.ways[k] == With(old(core.ways)[k], way, tag, write);
      v := Accessed(old(v), (tag, bit), write, false, true, scheme == UnisonCache, back);
    }

    /** The choice of a way on a miss. */
    method ChooseWay(tag: nat, write: bool, draws: Draws) returns (way: nat)
      requires Valid() && !Resident(core, tag)
      modifies this`chunks, this`ranks, this`nextEvict
      ensures way <= core.numWays && nextEvict < core.numWays
      ensures scheme == Tagless ==> way == old(nextEvict) && nextEvict == (way + 1) % core.numWays
      ensures way == core.numWays ==> AllFit(fbr, maxCount, core, chunks, ranks) && scheme != Tagless
      ensures way < core.numWays ==> FitsWith(fbr, maxCount, core, chunks, ranks, tag, way)
      ensures way < core.numWays ==> TagBuffers.Home(tag, core.numSets) >= dsIndex
      ensures way == core.numWays && !fbr ==>
                TagBuffers.Home(tag, core.numSets) < dsIndex || FullSet(core.ways[TagBuffers.Home(tag, core.numSets)])
      ensures fbr && write ==> way == core.numWays
      ensures way < core.numWays && core.ways[TagBuffers.Home(tag, core.numSets)][way].valid
              && scheme == HybridCache ==>
                tagBuffer.BothFitIn(tag, core.ways[TagBuffers.Home(tag, core.numSets)][way].tag)
    {
      var k := TagBuffers.Home(tag, core.numSets);
      way := core.numWays;
      assert SetFits(fbr, maxCount, core.ways[k], chunks[k], ranks[k]);
      if scheme == Tagless {
        way := nextEvict;
        nextEvict := (nextEvict + 1) % core.numWays;
        AllFitUpdate(fbr, maxCount, core, chunks, ranks, k, With(core.ways[k], way, tag, false), chunks[k], ranks[k]);
      } else if k >= dsIndex {
        if fbr {
          way := MissFBR(tag, k, write, draws);
          AllFitUpdate(fbr, maxCount, core, old(chunks), ranks, k,
                       if way < core.numWays then With(core.ways[k], way, tag, false)
                           else core.ways[k], chunks[k], ranks[k]);
        } else {
          way := MissLRU(tag, k, draws);
          assert SetFits(fbr, maxCount, core.ways[k], chunks[k], ranks[k]);
          if way < core.numWays {
            AllFitUpdate(fbr, maxCount, core, chunks, ranks, k, With(core.ways[k], way, tag, false), chunks[k],
                ranks[k]);
          }
        }
      }
    }

    /** A miss.  A write that places no page goes to external memory. */
    method Miss(tag: nat, bit: nat, write: bool, draws: Draws) returns (placed: bool, back: set<Line>)
      requires Valid() && !Resident(core, tag) && bit < 64
      modifies this, tagBuffer
      ensures Valid() && core.numSets == old(core.numSets) && core.numWays == old(core.numWays)
      ensures placed <==> Resident(core, tag)
      ensures placed ==> TagBuffers.Home(tag, core.numSets) >= dsIndex == old(dsIndex)
      ensures !placed ==> back == {} && core == old(core) && dsIndex == old(dsIndex)
      ensures !placed && !fbr ==>
                TagBuffers.Home(tag, core.numSets) < dsIndex || FullSet(core.ways[TagBuffers.Home(tag, core.numSets)])
      ensures v == Accessed(old(v), (tag, bit), write, false, placed, scheme == UnisonCache, back)
    {
      var k := TagBuffers.Home(tag, core.numSets);
      back := {};
      var way := ChooseWay(tag, write, draws);
      placed := way < core.numWays;
      if placed {
        ghost var c := core;
        back := Place(tag, way, bit, write);
        PlacedFits(fbr, maxCount, c, core, chunks, ranks, tag, way, write);
        PlacedAbove(c, core, dsIndex, k);
      } else {
        assert scheme != Tagless;
        NoteLoad(tag, write);
        v := Accessed(v, (tag, bit), write, false, false, scheme == UnisonCache, {});
      }
    }

    /** handleCacheHit */
    method CountUse(tag: nat, draws: Draws)
      requires Valid() && Resident(core, tag)
      modifies this`chunks, this`ranks
      ensures Valid()
      ensures !fbr && scheme != Tagless ==>
                var k, w := TagBuffers.Home(tag, core.numSets), core.tlb[tag].way;
                |ranks| == core.numSets && w < |ranks[k]| && ranks[k][w] == 0
      ensures fbr && draws.sample ==>
                var k, w := TagBuffers.Home(tag, core.numSets), core.tlb[tag].way;
                k < |chunks| && k < |old(chunks)| && w < |old(chunks)[k]|
                    && CountedUp(old(chunks)[k], chunks[k], w, maxCount)
    {
      var k, w := TagBuffers.Home(tag, core.numSets), core.tlb[tag].way;
      assert EntryFound(core, tag);
      assert SetFits(fbr, maxCount, core.ways[k], chunks[k], ranks[k]);
      if scheme != Tagless {
        if !fbr {
          var r := UpdateLRU(ranks[k], w);
          AllFitUpdate(fbr, maxCount, core, chunks, ranks, k, core.ways[k], chunks[k], r);
          ranks := ranks[k := r];
        } else if draws.sample {
          var e := CountHit(chunks[k], core.ways[k], w, tag, draws.rand, draws.refuse, maxCount);
          AllFitUpdate(fbr, maxCount, core, chunks, ranks, k, core.ways[k], e, ranks[k]);
          chunks := chunks[k := e];
        }
      }
    }

    /** A load of a page leaves its tag in the tag buffer, if there is room. */
    method NoteLoad(tag: nat, write: bool)
      requires tagBuffer.Valid()
      modifies tagBuffer
      ensures tagBuffer.Valid()
      ensures scheme == HybridCache && !write && old(tagBuffer.Fits(tag)) ==>
                TagBuffers.HasTag(tagBuffer.sets[TagBuffers.Home(tag, tagBuffer.numSets)], tag)
      ensures scheme != HybridCache || write || !old(tagBuffer.Fits(tag)) ==> tagBuffer.sets == old(tagBuffer.sets)
    {
      if scheme == HybridCache && !write {
        var ok := tagBuffer.CanInsert(tag);
        if ok {
          var ok', v := tagBuffer.Insert(tag, false);
          assert ok';
        }
      }
    }

    /** A hit. */
    method Hit(tag: nat, bit: nat, write: bool, draws: Draws)
      requires Valid() && Resident(core, tag) && bit < 64
      modifies this, tagBuffer
      ensures Valid() && dsIndex == old(dsIndex) && core == Touched(old(core), tag, bit, write)
      ensures v == if write then StoredInside(old(v), (tag, bit)) else old(v)
    {
      ghost var c, k, w := core, TagBuffers.Home(tag, core.numSets), core.tlb[tag].way;
      assert EntryFound(core, tag);
      assert core.ways[k][w].valid && core.ways[k][w].tag == tag;
      assert k >= dsIndex by { assert k < dsIndex ==> EmptySet(core.ways[k]); }
      CountUse(tag, draws);
      TouchedOK(core, tag, bit, write);
      TouchedStale(core, v, tag, bit, write);
      TouchedFits(fbr, maxCount, core, chunks, ranks, tag, bit, write);
      core := Touched(core, tag, bit, write);
      v := if write then StoredInside(v, (tag, bit)) else v;
      PlacedAbove(c, core, dsIndex, k);
      NoteLoad(tag, write);
    }

    /** access: a load, or the dirty eviction of a line by the last-level cache.  A write
        that hits goes to the DRAM cache only, as does one that places its page under
        Unison; all others reach external memory.  No value is lost, and a write makes
        good for one that was. */
    method Access(address: nat, write: bool, draws: Draws) returns (hit: bool, back: set<Line>)
      requires Valid()
      modifies this, tagBuffer
      ensures Valid() && core.numSets == old(core.numSets) && core.numWays == old(core.numWays)
              && dsIndex == old(dsIndex)
      ensures var tag, bit := address / 64, address % 64;
              && (hit <==> Resident(old(core), tag)) && (hit ==> Resident(core, tag) && back == {})
              && v == Accessed(old(v), (tag, bit), write, hit, Resident(core, tag), scheme == UnisonCache, back)
      ensures var tag := address / 64;
              !fbr && !Resident(core, tag) ==>
                TagBuffers.Home(tag, core.numSets) < dsIndex
                    || FullSet(old(core.ways)[TagBuffers.Home(tag, core.numSets)])
    {
      var tag := address / 64;
      var bit := address - tag * 64;
      assert bit == address % 64;
      KnownOK(core, tag);
      KnownStale(core, v, tag);
      ghost var c := core;
      core := Known(core, tag);
      assert AllFit(fbr, maxCount, core, chunks, ranks) by {
        assert core.ways == c.ways;
        forall k | 0 <= k < |core.ways| ensures SetFits(fbr, maxCount, core.ways[k], chunks[k], ranks[k]) {
          assert SetFits(fbr, maxCount, c.ways[k], chunks[k], ranks[k]);
        }
      }
      assert EmptyBelow(core, dsIndex) by {
        forall k | 0 <= k < |core.ways| && k < dsIndex ensures EmptySet(core.ways[k]) { assert EmptySet(c.ways[k]); }
      }
      hit, back := Resident(core, tag), {};
      if hit {
        Hit(tag, bit, write, draws);
      } else {
        var placed;
        placed, back := Miss(tag, bit, write, draws);
      }
      if scheme == HybridCache && 10 * tagBuffer.entryOccupied > 7 * (tagBuffer.numWays * tagBuffer.numSets) {
        tagBuffer.ClearTagBuffer();
      }
    }

    /** A way is emptied when bandwidth is rebalanced; the tag buffer is cleared if it
        has no room for the page.  For a dirty page, the DRAM cache and external memory
        are both read, and none is written. */
    method FlushWay(k: nat, w: nat) returns (flushed: set<Line>)
      requires tagBuffer.Valid() && CoreOK(core) && VersionsOK(core, v) && k < core.numSets && w < core.numWays
      modifies this`core, this`v, tagBuffer
      ensures WayOK(old(core), k, w) && core == Evicted(old(core), k, w)
      ensures tagBuffer.Valid() && CoreOK(core) && VersionsOK(core, v) && !core.ways[k][w].valid
      ensures flushed == DirtyLines(old(core), k, w) <= OfSets(old(v).Marks(), core.numSets, k, k + 1)
      ensures v == Flushed(old(v), flushed)
      ensures old(core).ways[k][w].valid ==> tagBuffer.Remapped(old(core).ways[k][w].tag)
    {
      EvictedOK(core, k, w);
      assert WayOK(core, k, w);
      var x := core.ways[k][w];
      flushed := DirtyLines(core, k, w);
      if x.valid {
        var ok := tagBuffer.CanInsert(x.tag);
        if !ok {
          tagBuffer.ClearTagBuffer();
          ok := tagBuffer.CanInsert(x.tag);
        }
        assert ok by {
          var s := tagBuffer.sets[TagBuffers.Home(x.tag, tagBuffer.numSets)];
          assert s == TagBuffers.Cleared(tagBuffer.numWays) ==> !s[0].remap;
        }
        var ok', _ := tagBuffer.Insert(x.tag, true);
        assert ok';
      }
      EvictedDropped(core, v, k, w);
      core, v := Evicted(core, k, w), Flushed(v, flushed);
    }

    /** A set is emptied, and its table of counters with it. */
    method FlushSet(k: nat) returns (flushed: set<Line>)
      requires Valid() && k < core.numSets
      modifies this, tagBuffer
      ensures Valid() && core.numSets == old(core.numSets) && core.numWays == old(core.numWays)
      ensures dsIndex == old(dsIndex) && nextEvict == old(nextEvict)
      ensures EmptySet(core.ways[k]) && core.ways == old(core.ways)[k := core.ways[k]]
      ensures flushed == OfSets(old(v).Marks(), core.numSets, k, k + 1) && v == Flushed(old(v), flushed)
    {
      flushed := {};
      ghost var c := core;
      for w := 0 to core.numWays
        invariant tagBuffer.Valid() && CoreOK(core) && VersionsOK(core, v)
        invariant core.numSets == c.numSets && core.numWays == c.numWays
        invariant core.ways == c.ways[k := core.ways[k]] && forall u :: 0 <= u < w ==> !core.ways[k][u].valid
        invariant dsIndex == old(dsIndex) && nextEvict == old(nextEvict) && chunks == old(chunks) && ranks == old(ranks)
        invariant flushed <= OfSets(old(v).Marks(), core.numSets, k, k + 1) && v == Flushed(old(v), flushed)
      {
        var more := FlushWay(k, w);
        FlushedTwice(old(v), flushed, more);
        flushed := flushed + more;
      }
      assert SetFits(fbr, maxCount, c.ways[k], chunks[k], ranks[k]);
      var e := FlushChunk(chunks[k]);
      if fbr { FlushedOK(c.ways[k], core.ways[k], chunks[k], e, maxCount); }
      AllFitUpdate(fbr, maxCount, c, chunks, ranks, k, core.ways[k], e, ranks[k]);
      chunks := chunks[k := e];
      FlushedBelow(c, core, dsIndex, k);
      NoneMarked(core, old(v), flushed, k, k + 1);
    }

    /** One pass over the sets that external memory takes over. */
    method FlushRange(to: nat) returns (flushed: set<Line>)
      requires Valid()
      modifies this, tagBuffer
      ensures Valid() && core.numSets == old(core.numSets) && core.numWays == old(core.numWays)
              && dsIndex == old(dsIndex)
      ensures EmptyFrom(core, dsIndex, to)
      ensures flushed == OfSets(old(v).Marks(), core.numSets, dsIndex, to) && v == Flushed(old(v), flushed)
    {
      flushed := {};
      var k := dsIndex;
      while k < to && k < core.numSets
        invariant Valid() && core.numSets == old(core.numSets) && core.numWays == old(core.numWays)
                  && dsIndex == old(dsIndex)
        invariant k >= dsIndex && EmptyFrom(core, dsIndex, k)
        invariant flushed <= OfSets(old(v).Marks(), core.numSets, dsIndex, to) && v == Flushed(old(v), flushed)
        decreases if k < to then to - k else 0
      {
        ghost var c := core;
        var more := FlushSet(k);
        FlushedTwice(old(v), flushed, more);
        flushed := flushed + more;
        forall j | 0 <= j < core.numSets && dsIndex <= j < k ensures EmptySet(core.ways[j]) {
          assert EmptySet(c.ways[j]);
        }
        k := k + 1;
      }
      NoneMarked(core, old(v), flushed, dsIndex, to);
    }

    /** The rebalancing of bandwidth: the index moves by delta, and the sets it passes
        are emptied, once for every channel.  Of the lines marked as written there, those
        that external memory does not have are lost: none if and only if it has them
        all.  Under FBR that is so just if no way there is dirty. */
    method Rebalance(delta: int, channels: nat) returns (flushed: set<Line>)
      requires Valid() && scheme == HybridCache && channels > 0
      modifies this, tagBuffer
      ensures Valid() && core.numSets == old(core.numSets) && core.numWays == old(core.numWays)
      ensures dsIndex == if old(dsIndex) + delta <= 0 then 0 else old(dsIndex) + delta
      ensures var hi := if delta > 0 then old(dsIndex) + delta else old(dsIndex);
              && flushed == MarksOf(old(core), old(dsIndex), hi) && v == Flushed(old(v), flushed)
              && (v.lost == old(v).lost <==> flushed <= old(v).both)
              && (CleanSets(old(core), old(dsIndex), hi) ==> v.lost == old(v).lost)
              && (fbr ==> (v.lost == old(v).lost <==> CleanSets(old(core), old(dsIndex), hi)))
    {
      flushed := {};
      ghost var hi := if delta > 0 then dsIndex + delta else dsIndex;
      RebalanceFacts(core, v, dsIndex, hi);
      if delta > 0 {
        var to := dsIndex + delta;
        for mc := 0 to channels
          invariant Valid() && core.numSets == old(core.numSets) && core.numWays == old(core.numWays)
                    && dsIndex == old(dsIndex)
          invariant mc > 0 ==> EmptyFrom(core, dsIndex, to)
          invariant flushed == if mc > 0 then OfSets(old(v).Marks(), core.numSets, dsIndex, to) else {}
          invariant v == Flushed(old(v), flushed)
        {
          var more := FlushRange(to);
          FlushedTwice(old(v), flushed, more);
          flushed := flushed + more;
        }
      }
      dsIndex := if dsIndex + delta <= 0 then 0 else dsIndex + delta;
      forall k | 0 <= k < |core.ways| && k < dsIndex ensures EmptySet(core.ways[k]) {
        assert k < old(dsIndex) ==> EmptySet(core.ways[k]);
      }
    }
  }

  /** Where the latest values are after an access to a line. */
  function Accessed(v: Versions, line: Line, write: bool, hit: bool, placed: bool, unison: bool,
                    back: set<Line>): Versions {
    var v' := WroteBack(v, back);
    if !write then v'
    else if hit || (placed && unison) then StoredInside(v', line)
    else if placed then StoredThrough(v', line)
    else StoredOutside(v', line)
  }

  // ---------------------------------------------------------------------------
  // Every run
  // ---------------------------------------------------------------------------

  /** A controller with the page of address 0 in it, placed by a load or a store. */
  method OnePage(write: bool, draws: Draws) returns (mc: MemoryController)
    ensures fresh(mc) && fresh(mc.tagBuffer) && mc.Valid() && mc.scheme == HybridCache && mc.dsIndex == 0
            && mc.core.numSets == 1000
    ensures Resident(mc.core, 0) && mc.v == Versions({}, if write then {(0, 0)} else {}, {})
  {
    mc := new MemoryController(HybridCache, false, true, false, 0.0, 1000, 4, 1024);
    assert EmptySet(mc.core.ways[0]) && !mc.core.ways[0][0].valid && TagBuffers.Home(0, 1000) == 0;
    ghost var ways := mc.core.ways;
    var hit, back := mc.Access(0, write, draws);
    assert !FullSet(ways[0]);
  }

  /** A rebalancing that loses a write: a page is loaded, a line of it written, and its
      set taken over by external memory. */
  method RebalanceLosesWrite(draws: Draws) returns (flushed: set<Line>, ghost lost: set<Line>)
    ensures flushed == lost == {(0, 0)}
  {
    var mc := OnePage(false, draws);
    var hit, back := mc.Access(0, true, draws);
    assert mc.v.stale == {(0, 0)};
    MarksAreMarked(mc.core, mc.v.Marks(), 0, 2);
    flushed := mc.Rebalance(2, 4);
    lost := mc.v.lost;
  }

  /** One that does not, though it passes a dirty way: the page was placed by the write,
      which external memory has got as well. */
  method RebalanceKeepsStoreMiss(draws: Draws) returns (clean: bool, flushed: set<Line>, ghost lost: set<Line>)
    ensures !clean && flushed == {(0, 0)} && lost == {}
  {
    var mc := OnePage(true, draws);
    CleanIsNoneMarked(mc.core, mc.v.Marks(), 0, 2);
    MarksAreMarked(mc.core, mc.v.Marks(), 0, 2);
    assert (0, 0) in OfSets(mc.v.Marks(), 1000, 0, 2);
    clean := CleanSets(mc.core, 0, 2);
    flushed := mc.Rebalance(2, 4);
    lost := mc.v.lost;
  }

  datatype Op = Access(address: nat, write: bool, draws: Draws) | Rebalance(delta: int)

  /** Whether losses can be ruled out before a rebalancing: kept is that external memory
      has all lines marked in the sets to be passed, clean that no way there is dirty. */
  datatype Outlook = Outlook(kept: bool, clean: bool)

  /** One operation; v and dropped follow what it does to the latest values. */
  method Step(mc: MemoryController, op: Op, v: Versions, dropped: set<Line>, o: Outlook)
      returns (v': Versions, dropped': set<Line>, o': Outlook)
    requires mc.Valid() && v == mc.v && RunOK(mc.fbr, v, dropped, o)
    modifies mc, mc.tagBuffer
    ensures mc.Valid() && v' == mc.v && RunOK(mc.fbr, v', dropped', o')
    ensures mc.core.numSets == old(mc.core.numSets) && mc.core.numWays == old(mc.core.numWays)
  {
    v', dropped', o' := v, dropped, o;
    match op {
      case Access(address, write, draws) =>
        var hit, back := mc.Access(address, write, draws);
        var line := (address / 64, address % 64);
        v' := Accessed(v, line, write, hit, Resident(mc.core, line.0), mc.scheme == UnisonCache, back);
      case Rebalance(delta) =>
        if mc.scheme == HybridCache {
          var hi := if delta > 0 then mc.dsIndex + delta else mc.dsIndex;
          o' := Outlook(o.kept && MarksOf(mc.core, mc.dsIndex, hi) <= v.both, o.clean
              && CleanSets(mc.core, mc.dsIndex, hi));
          var flushed := mc.Rebalance(delta, 4);
          v' := Flushed(v, flushed);
          dropped' := dropped + (v'.lost - v.lost);
        }
    }
  }

  /** Something was dropped just if that was not ruled out. */
  ghost predicate RunOK(fbr: bool, v: Versions, dropped: set<Line>, o: Outlook) {
    v.lost <= dropped && (dropped == {} <==> o.kept) && (o.clean ==> o.kept) && (fbr ==> (o.clean <==> o.kept))
  }

  /** Any run from an empty cache: the page map, the ways, the policies' state and the
      tag buffer agree, and no page is in a set below the index.  The lines that
      resident pages mark as written are those whose latest value is only in the DRAM
      cache, and those that external memory has as well, of which there are none under
      FBR or Unison.  A latest value was dropped at some time if and only if some
      rebalancing passed a marked line that external memory did not have; under FBR,
      if and only if one passed a dirty way. */
  method Run(scheme: Scheme, fbr: bool, largeCounters: bool, margin: real, numSets: nat, numWays: nat,
             tagBufferSize: nat, ops: seq<Op>)
      returns (core: Core, chunks: seq<Chunk>, ranks: seq<seq<nat>>, tags: seq<TagBuffers.TagSet>, occupied: nat,
               dsIndex: nat, v: Versions, dropped: set<Line>, o: Outlook)
    requires numSets > 0 && numWays > 0 && tagBufferSize >= 8 && (fbr ==> scheme == HybridCache)
    requires if scheme == Tagless then numSets == 1 else numWays < 9
    ensures CoreOK(core) && core.numSets == numSets && core.numWays == numWays
    ensures AllFit(fbr, MaxCount(largeCounters), core, chunks, ranks)
            && TagBuffers.BufferOK(tags, 8, tagBufferSize / 8, occupied)
    ensures EmptyBelow(core, dsIndex) && VersionsOK(core, v) && (fbr || scheme == UnisonCache ==> v.both == {})
    ensures v.lost <= dropped && (dropped == {} <==> o.kept)
    ensures (o.clean ==> dropped == {}) && (fbr ==> (dropped == {} <==> o.clean))
  {
    var mc := new MemoryController(scheme, fbr, true, largeCounters, margin, numSets, numWays, tagBufferSize);
    v, dropped, o := Versions({}, {}, {}), {}, Outlook(true, true);
    for i := 0 to |ops|
      invariant fresh(mc) && fresh(mc.tagBuffer) && mc.Valid() && mc.scheme == scheme && mc.fbr == fbr
      invariant mc.maxCount == MaxCount(largeCounters) && mc.tagBuffer.numWays == 8
                && mc.tagBuffer.numSets == tagBufferSize / 8
      invariant mc.core.numSets == numSets && mc.core.numWays == numWays && v == mc.v && RunOK(fbr, v, dropped, o)
    {
      v, dropped, o := Step(mc, ops[i], v, dropped, o);
    }
    core, chunks, ranks, dsIndex := mc.core, mc.chunks, mc.ranks, mc.dsIndex;
    tags, occupied := mc.tagBuffer.sets, mc.tagBuffer.entryOccupied;
  }

  ghost predicate EmptyFrom(c: Core, lo: nat, hi: nat) {
    forall k {:trigger EmptySet(c.ways[k])} :: 0 <= k < |c.ways| && lo <= k < hi ==> EmptySet(c.ways[k])
  }

  /** No line of empty sets is marked, so all that were have been flushed. */
  lemma NoneMarked(c: Core, v: Versions, flushed: set<Line>, lo: nat, hi: nat)
    requires CoreOK(c) && VersionsOK(c, Flushed(v, flushed)) && EmptyFrom(c, lo, hi)
    requires flushed <= OfSets(v.Marks(), c.numSets, lo, hi)
    ensures flushed == OfSets(v.Marks(), c.numSets, lo, hi)
  {
    var marks := Flushed(v, flushed).Marks();
    assert CleanSets(c, lo, hi) by {
      forall k | 0 <= k < |c.ways| && lo <= k < hi ensures CleanSet(c.ways[k]) { assert EmptySet(c.ways[k]); }
    }
    CleanIsNoneMarked(c, marks, lo, hi);
    forall line | line in OfSets(v.Marks(), c.numSets, lo, hi) ensures line in flushed {
      assert line !in OfSets(marks, c.numSets, lo, hi);
    }
  }

  /** What can be said of a flush of these sets before it. */
  lemma RebalanceFacts(c: Core, v: Versions, lo: nat, hi: nat)
    requires CoreOK(c) && VersionsOK(c, v)
    ensures MarksOf(c, lo, hi) == OfSets(v.Marks(), c.numSets, lo, hi)
    ensures Flushed(v, MarksOf(c, lo, hi)).lost == v.lost <==> MarksOf(c, lo, hi) <= v.both
    ensures CleanSets(c, lo, hi) <==> MarksOf(c, lo, hi) == {}
  {
    MarksAreMarked(c, v.Marks(), lo, hi);
    CleanIsNoneMarked(c, v.Marks(), lo, hi);
    FlushLoses(c, v, MarksOf(c, lo, hi));
  }

  lemma FlushedOK(ways: seq<Way>, ways': seq<Way>, e: Chunk, e': Chunk, maxCount: nat)
    requires ChunkOK(e, ways, maxCount) && |ways'| == |ways| && |e'| == |e| && maxCount > 0
    requires EmptySet(ways') && forall i :: 0 <= i < |e| ==> e'[i] == ChunkEntry(false, 0, 0)
    ensures ChunkOK(e', ways', maxCount)
  {
  }

  lemma FlushedBelow(c: Core, c': Core, dsIndex: nat, k: nat)
    requires EmptyBelow(c, dsIndex) && k < |c.ways| == |c'.ways| && c'.ways == c.ways[k := c'.ways[k]]
             && EmptySet(c'.ways[k])
    ensures EmptyBelow(c', dsIndex)
  {
    forall j | 0 <= j < |c'.ways| && j < dsIndex ensures EmptySet(c'.ways[j]) { assert j != k ==> EmptySet(c.ways[j]); }
  }

  lemma PlacedFits(fbr: bool, maxCount: nat, c: Core, c': Core, chunks: seq<Chunk>, ranks: seq<seq<nat>>, tag: nat,
                   w: nat, write: bool)
    requires Shape(c) && Shape(c') && w < c.numWays && c'.numSets == c.numSets
    requires FitsWith(fbr, maxCount, c, chunks, ranks, tag, w)
    requires c'.ways == c.ways[TagBuffers.Home(tag, c.numSets) :=
             With(c.ways[TagBuffers.Home(tag, c.numSets)], w, tag, write)]
    ensures AllFit(fbr, maxCount, c', chunks, ranks)
  {
    var k := TagBuffers.Home(tag, c.numSets);
    var mid := c.(ways := c.ways[k := With(c.ways[k], w, tag, false)]);
    forall j | 0 <= j < |c'.ways| ensures SetFits(fbr, maxCount, c'.ways[j], chunks[j], ranks[j]) {
      assert SetFits(fbr, maxCount, mid.ways[j], chunks[j], ranks[j]);
      if j == k && fbr { DirtyIrrelevant(chunks[k], mid.ways[k], c'.ways[k], maxCount); }
    }
  }

  lemma TouchedFits(fbr: bool, maxCount: nat, c: Core, chunks: seq<Chunk>, ranks: seq<seq<nat>>, tag: nat, bit: nat,
                    write: bool)
    requires CoreOK(c) && AllFit(fbr, maxCount, c, chunks, ranks) && Resident(c, tag)
    ensures AllFit(fbr, maxCount, Touched(c, tag, bit, write), chunks, ranks)
  {
    var c', k := Touched(c, tag, bit, write), TagBuffers.Home(tag, c.numSets);
    forall j | 0 <= j < |c'.ways| ensures SetFits(fbr, maxCount, c'.ways[j], chunks[j], ranks[j]) {
      assert SetFits(fbr, maxCount, c.ways[j], chunks[j], ranks[j]);
      if j == k && fbr { DirtyIrrelevant(chunks[k], c.ways[k], c'.ways[k], maxCount); }
    }
  }

  /** Sets from the index on may change. */
  lemma PlacedAbove(c: Core, c': Core, dsIndex: nat, k: nat)
    requires EmptyBelow(c, dsIndex) && dsIndex <= k < |c.ways| == |c'.ways| && c'.ways == c.ways[k := c'.ways[k]]
    ensures EmptyBelow(c', dsIndex)
  {
    forall j | 0 <= j < |c'.ways| && j < dsIndex ensures EmptySet(c'.ways[j]) { assert EmptySet(c.ways[j]); }
  }

  /** The policies' state is that of the sets with the page in way w. */
  ghost predicate FitsWith(fbr: bool, maxCount: nat, c: Core, chunks: seq<Chunk>, ranks: seq<seq<nat>>, tag: nat,
                           w: nat)
    requires Shape(c) && w < c.numWays
  {
    var k := TagBuffers.Home(tag, c.numSets);
    AllFit(fbr, maxCount, c.(ways := c.ways[k := With(c.ways[k], w, tag, false)]), chunks, ranks)
  }

  /** A page that is not resident is in no way of its set. */
  lemma NotHeld(c: Core, t: nat)
    requires CoreOK(c) && !Resident(c, t)
    ensures !Holds(c.ways[TagBuffers.Home(t, c.numSets)], t)
  {
    var ways := c.ways[TagBuffers.Home(t, c.numSets)];
    forall w | 0 <= w < |ways| ensures !(ways[w].valid && ways[w].tag == t) { ViewsAgree(c, t, w); }
  }

  /** One set changes. */
  lemma AllFitUpdate(fbr: bool, maxCount: nat, c: Core, chunks: seq<Chunk>, ranks: seq<seq<nat>>,
                     k: nat, ways: seq<Way>, chunk: Chunk, rank: seq<nat>)
    requires AllFit(fbr, maxCount, c, chunks, ranks) && k < |c.ways| && SetFits(fbr, maxCount, ways, chunk, rank)
    ensures AllFit(fbr, maxCount, c.(ways := c.ways[k := ways]), chunks[k := chunk], ranks[k := rank])
  {
    var ways', chunks', ranks' := c.ways[k := ways], chunks[k := chunk], ranks[k := rank];
    forall j | 0 <= j < |ways'| ensures SetFits(fbr, maxCount, ways'[j], chunks'[j], ranks'[j]) {
      assert j != k ==> SetFits(fbr, maxCount, c.ways[j], chunks[j], ranks[j]);
    }
  }
}
