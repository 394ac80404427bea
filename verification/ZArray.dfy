/** The zcache tag array: a line may sit at any of its `ways` hash positions, and
    a replacement moves a chain of lines, each to another of its own positions. */
module ZArrays {

  /** Line addresses; 0 marks an unused line. */
  type Address = nat

  /** hash(w, a) is the already mixed hash of way w; the set mask keeps it below numSets. */
  datatype Geometry = Geometry(numSets: nat, ways: nat, cands: nat, hash: (nat, Address) -> nat) {
    predicate Valid() {
      numSets > 0 && ways > 1 && cands >= ways
    }

    function NumLines(): nat {
      ways * numSets
    }

    /** The position of address a in way w. */
    function Pos(w: nat, a: Address): (p: nat)
      requires Valid() && w < ways
      ensures p < NumLines()
    {
      PosBound(w, hash(w, a) % numSets);
      w * numSets + hash(w, a) % numSets
    }

    lemma PosBound(w: nat, h: nat)
      requires w < ways && h < numSets
      ensures w * numSets + h < ways * numSets
    {
      Apart(w, ways, numSets);
    }

    static lemma {:induction false} Apart(v: nat, w: nat, n: nat)
      requires v < w
      ensures v * n + n <= w * n
      decreases w
    {
      assert w * n == (w - 1) * n + n;
      if v < w - 1 { Apart(v, w - 1, n); }
    }

    /** Ways do not share positions. */
    lemma PosDistinct(v: nat, w: nat, a: Address, b: Address)
      requires Valid() && v < w < ways
      ensures Pos(v, a) != Pos(w, b)
    {
      Apart(v, w, numSets);
    }
  }

  // ---------------------------------------------------------------------------
  // The array's invariant
  // ---------------------------------------------------------------------------

  /** p is one of the positions of address a. */
  ghost predicate HashesTo(g: Geometry, a: Address, p: nat)
    requires g.Valid()
  {
    exists w: nat :: w < g.ways && g.Pos(w, a) == p
  }

  /** lookup and home are inverse to each other: lookup is a permutation. */
  ghost predicate Permutation(lookup: seq<nat>, home: seq<nat>) {
    && |lookup| == |home|
    && (forall p :: 0 <= p < |lookup| ==> lookup[p] < |home| && home[lookup[p]] == p)
    && (forall l :: 0 <= l < |home| ==> home[l] < |lookup| && lookup[home[l]] == l)
  }

  ghost predicate UniqueTags(tags: seq<Address>) {
    forall l, k :: 0 <= l < k < |tags| && tags[l] != 0 ==> tags[l] != tags[k]
  }

  ghost predicate Placed(g: Geometry, tags: seq<Address>, home: seq<nat>)
    requires g.Valid() && |tags| == |home|
  {
    forall l :: 0 <= l < |tags| && tags[l] != 0 ==> HashesTo(g, tags[l], home[l])
  }

  ghost predicate ArrayOK(g: Geometry, tags: seq<Address>, lookup: seq<nat>, home: seq<nat>) {
    && g.Valid()
    && |tags| == |lookup| == |home| == g.NumLines()
    && Permutation(lookup, home) && UniqueTags(tags) && Placed(g, tags, home)
  }

  // ---------------------------------------------------------------------------
  // The walk
  // ---------------------------------------------------------------------------

  datatype Walk = Walk(pos: nat, lineId: nat, parentIdx: int)

  ghost predicate StepOK(g: Geometry, tags: seq<Address>, lookup: seq<nat>, addr: Address, walk: seq<Walk>, i: nat)
    requires g.Valid() && |tags| == |lookup| == g.NumLines() && i < |walk|
  {
    && walk[i].pos < |lookup| && walk[i].lineId < |tags| && lookup[walk[i].pos] == walk[i].lineId
    && if i < g.ways then
         walk[i].parentIdx == -1 && walk[i].pos == g.Pos(i, addr)
       else
         && 0 <= walk[i].parentIdx && walk[i].parentIdx + g.ways <= i
         && var parent := walk[walk[i].parentIdx];
            && parent.lineId < |tags| && tags[parent.lineId] != 0 && walk[i].lineId != parent.lineId
            && HashesTo(g, tags[parent.lineId], walk[i].pos)
  }

  /** Fringe node f has been expanded on its first w ways: every other place its
      line could go to is a candidate. */
  ghost predicate Expanded(g: Geometry, tags: seq<Address>, lookup: seq<nat>, walk: seq<Walk>, f: nat, w: nat)
    requires g.Valid() && |tags| == |lookup| == g.NumLines() && f < |walk|
  {
    walk[f].lineId < |tags| &&
    forall v: nat :: v < w && v < g.ways ==>
      var p := g.Pos(v, tags[walk[f].lineId]);
      lookup[p] == walk[f].lineId || exists i :: f < i < |walk| && walk[i].parentIdx == f && walk[i].pos == p
  }

  /** A breadth-first walk whose first `fringe` nodes are expanded, and node
      `fringe` on its first w ways. */
  ghost predicate WalkOK(g: Geometry, tags: seq<Address>, lookup: seq<nat>, addr: Address, walk: seq<Walk>,
                         fringe: nat, w: nat) {
    && g.Valid() && |tags| == |lookup| == g.NumLines()
    && |walk| >= g.ways && fringe < |walk|
    && (forall i :: 0 <= i < |walk| ==> StepOK(g, tags, lookup, addr, walk, i))
    && (forall i, j :: 0 <= i < j < |walk| ==> walk[i].parentIdx <= walk[j].parentIdx)
    && (forall i :: 0 <= i < |walk| ==> walk[i].parentIdx <= fringe)
    && (forall f :: 0 <= f < fringe ==> Expanded(g, tags, lookup, walk, f, g.ways))
    && Expanded(g, tags, lookup, walk, fringe, w)
  }

  /** No earlier candidate is the same line. */
  ghost predicate First(walk: seq<Walk>, i: nat)
    requires i < |walk|
  {
    forall j :: 0 <= j < i ==> walk[j].lineId != walk[i].lineId
  }

  /** A line that an expanded node could go to is that node's, or one produced by it. */
  lemma ProducesLine(g: Geometry, tags: seq<Address>, lookup: seq<nat>, addr: Address, walk: seq<Walk>, fringe: nat,
                     w: nat, e: nat, v: nat)
    requires WalkOK(g, tags, lookup, addr, walk, fringe, w) && e < fringe && v < g.ways && walk[e].lineId < |tags|
    ensures var p := g.Pos(v, tags[walk[e].lineId]);
            && p < |lookup|
            && (|| lookup[p] == walk[e].lineId
                || exists j :: 0 <= j < |walk| && walk[j].parentIdx == e && walk[j].lineId == lookup[p])
  {
    assert Expanded(g, tags, lookup, walk, e, g.ways);
    var p := g.Pos(v, tags[walk[e].lineId]);
    if lookup[p] != walk[e].lineId {
      var j :| e < j < |walk| && walk[j].parentIdx == e && walk[j].pos == p;
      assert StepOK(g, tags, lookup, addr, walk, j);
    }
  }

  /** The crux: if a candidate is the first of its line, so is its parent.  An
      earlier copy of the parent would have been expanded earlier and would have
      produced the candidate's line earlier. */
  lemma ParentIsFirst(g: Geometry, tags: seq<Address>, lookup: seq<nat>, addr: Address, walk: seq<Walk>, fringe: nat,
                      w: nat, i: nat)
    requires WalkOK(g, tags, lookup, addr, walk, fringe, w)
    requires i < |walk| && First(walk, i) && walk[i].parentIdx >= 0
    ensures walk[i].parentIdx < i && First(walk, walk[i].parentIdx)
  {
    assert StepOK(g, tags, lookup, addr, walk, i);
    var f := walk[i].parentIdx;
    forall e | 0 <= e < f
      ensures walk[e].lineId != walk[f].lineId
    {
      assert Expanded(g, tags, lookup, walk, e, g.ways);
      var v: nat :| v < g.ways && g.Pos(v, tags[walk[f].lineId]) == walk[i].pos;
      ProducesLine(g, tags, lookup, addr, walk, fringe, w, e, v);
    }
  }

  // ---------------------------------------------------------------------------
  // The chain of moves
  // ---------------------------------------------------------------------------

  /** The indices from candidate i back to its seed. */
  ghost function Path(walk: seq<Walk>, i: int): seq<nat>
    decreases i
  {
    if 0 <= i < |walk| && walk[i].parentIdx < i then [i] + Path(walk, walk[i].parentIdx) else []
  }

  /** The path leads through first occurrences only, so it never visits a line
      twice; and it is short, because a parent lies at least `ways` before its child. */
  lemma {:induction false} PathIsSimple(g: Geometry, tags: seq<Address>, lookup: seq<nat>, addr: Address,
                                        walk: seq<Walk>,
                                        fringe: nat, w: nat, i: nat)
    requires WalkOK(g, tags, lookup, addr, walk, fringe, w)
    requires i < |walk| && First(walk, i)
    ensures var path := Path(walk, i);
            && |path| > 0 && (|path| - 1) * g.ways <= i
            && path[0] == i
            && (forall j :: 0 <= j < |path| ==> path[j] <= i && First(walk, path[j]))
            && (forall j, k :: 0 <= j < k < |path| ==> path[k] < path[j])
            && (forall j :: 0 <= j < |path| - 1 ==> walk[path[j]].parentIdx == path[j + 1])
            && walk[path[|path| - 1]].parentIdx < 0
    decreases i
  {
    assert StepOK(g, tags, lookup, addr, walk, i);
    var f := walk[i].parentIdx;
    if f < 0 {
      assert Path(walk, i) == [i];
    } else {
      ParentIsFirst(g, tags, lookup, addr, walk, fringe, w, i);
      PathIsSimple(g, tags, lookup, addr, walk, fringe, w, f);
      assert Path(walk, i) == [i] + Path(walk, f);
      OneMore(|Path(walk, f)|, g.ways);
    }
  }

  lemma OneMore(n: int, k: int)
    ensures n * k == (n - 1) * k + k
  {
  }

  lemma DivLower(n: nat, k: nat, i: nat)
    requires k > 0 && n * k <= i
    ensures n <= i / k
  {
    assert i == k * (i / k) + i % k;
    assert n * k < (i / k + 1) * k;
  }

  /** A chain of positions that ends where addr may go, each position but the
      last being one the line at the next position may move to. */
  ghost predicate ChainOK(g: Geometry, tags: seq<Address>, lookup: seq<nat>, addr: Address, chain: seq<nat>,
                          candidate: nat) {
    && g.Valid() && |tags| == |lookup| == g.NumLines() && |chain| > 0
    && (forall j :: 0 <= j < |chain| ==> chain[j] < |lookup| && lookup[chain[j]] < |tags|)
    && (forall j, k :: 0 <= j < k < |chain| ==> chain[j] != chain[k])
    && lookup[chain[0]] == candidate
    && (forall j :: 0 <= j < |chain| - 1 ==> HashesTo(g, tags[lookup[chain[j + 1]]], chain[j]))
    && HashesTo(g, addr, chain[|chain| - 1])
  }

  /** The positions along the path of a first occurrence form such a chain. */
  lemma {:induction false} PathIsChain(g: Geometry, tags: seq<Address>, lookup: seq<nat>, home: seq<nat>,
                                       addr: Address, walk: seq<Walk>,
                    fringe: nat, w: nat, i: nat, chain: seq<nat>)
    requires ArrayOK(g, tags, lookup, home) && WalkOK(g, tags, lookup, addr, walk, fringe, w)
    requires i < |walk| && First(walk, i)
    requires |chain| == |Path(walk, i)|
    requires forall j :: 0 <= j < |chain| ==> Path(walk, i)[j] < |walk| && chain[j] == walk[Path(walk, i)[j]].pos
    ensures ChainOK(g, tags, lookup, addr, chain, walk[i].lineId)
    ensures |chain| <= i / g.ways + 1
  {
    PathIsSimple(g, tags, lookup, addr, walk, fringe, w, i);
    var path := Path(walk, i);
    forall j | 0 <= j < |path|
      ensures StepOK(g, tags, lookup, addr, walk, path[j])
    {
    }
    forall j, k | 0 <= j < k < |chain|
      ensures chain[j] != chain[k]
    {
      assert First(walk, path[j]) && path[k] < path[j];
      assert lookup[chain[j]] == walk[path[j]].lineId && lookup[chain[k]] == walk[path[k]].lineId;
    }
    DivLower(|chain| - 1, g.ways, i);
    var last := path[|path| - 1];
    assert last < g.ways;
    assert walk[last].pos == g.Pos(last, addr);
  }

  // ---------------------------------------------------------------------------
  // The moves
  // ---------------------------------------------------------------------------

  /** p is not among chain[lo..hi]. */
  ghost predicate Off(chain: seq<nat>, lo: nat, hi: nat, p: nat)
    requires hi <= |chain|
  {
    forall j :: lo <= j < hi ==> chain[j] != p
  }

  /** postinsert after its first n moves: the line at each position of the chain
      has gone to the position before. */
  ghost predicate Moved(lookup: seq<nat>, home: seq<nat>, lookup': seq<nat>, home': seq<nat>, chain: seq<nat>, n: nat) {
    && n < |chain| && (forall j :: 0 <= j < |chain| ==> chain[j] < |lookup| && lookup[chain[j]] < |home|)
    && LookupMoved(lookup, lookup', chain, n) && HomeMoved(lookup, home, home', chain, n)
  }

  ghost predicate LookupMoved(lookup: seq<nat>, lookup': seq<nat>, chain: seq<nat>, n: nat)
    requires n < |chain| && forall j :: 0 <= j < |chain| ==> chain[j] < |lookup|
  {
    && |lookup'| == |lookup|
    && (forall p :: 0 <= p < |lookup| && Off(chain, 0, n, p) ==> lookup'[p] == lookup[p])
    && (forall j :: 0 <= j < n ==> lookup'[chain[j]] == lookup[chain[j + 1]])
  }

  ghost predicate HomeMoved(lookup: seq<nat>, home: seq<nat>, home': seq<nat>, chain: seq<nat>, n: nat)
    requires n < |chain| && forall j :: 0 <= j < |chain| ==> chain[j] < |lookup| && lookup[chain[j]] < |home|
  {
    && |home'| == |home|
    && (forall l :: 0 <= l < |home| && Off(chain, 1, n + 1, home[l]) ==> home'[l] == home[l])
    && (forall j :: 0 <= j < n ==> home'[lookup[chain[j + 1]]] == chain[j])
  }

  lemma LookupStep(lookup: seq<nat>, lookup': seq<nat>, chain: seq<nat>, n: nat)
    requires n + 1 < |chain| && (forall j :: 0 <= j < |chain| ==> chain[j] < |lookup|)
             && (forall j, k :: 0 <= j < k < |chain| ==> chain[j] != chain[k])
    requires LookupMoved(lookup, lookup', chain, n)
    ensures lookup'[chain[n + 1]] == lookup[chain[n + 1]]
    ensures LookupMoved(lookup, lookup'[chain[n] := lookup[chain[n + 1]]], chain, n + 1)
  {
    assert Off(chain, 0, n, chain[n + 1]);
    forall p | 0 <= p < |lookup| && Off(chain, 0, n + 1, p)
      ensures Off(chain, 0, n, p) && p != chain[n]
    {
    }
  }

  lemma HomeStep(lookup: seq<nat>, home: seq<nat>, home': seq<nat>, chain: seq<nat>, n: nat)
    requires n + 1 < |chain| && (forall j, k :: 0 <= j < k < |chain| ==> chain[j] != chain[k])
    requires forall j :: 0 <= j < |chain| ==>
               chain[j] < |lookup| && lookup[chain[j]] < |home| && home[lookup[chain[j]]] == chain[j]
    requires HomeMoved(lookup, home, home', chain, n)
    ensures HomeMoved(lookup, home, home'[lookup[chain[n + 1]] := chain[n]], chain, n + 1)
  {
    forall l | 0 <= l < |home| && Off(chain, 1, n + 2, home[l])
      ensures Off(chain, 1, n + 1, home[l]) && l != lookup[chain[n + 1]]
    {
      assert home[l] != chain[n + 1];
    }
  }

  /** The positions of a chain are distinct, and the lines at them are at home there. */
  ghost predicate Linked(lookup: seq<nat>, home: seq<nat>, chain: seq<nat>) {
    && (forall j, k :: 0 <= j < k < |chain| ==> chain[j] != chain[k])
    && (forall j :: 0 <= j < |chain| ==>
          chain[j] < |lookup| && lookup[chain[j]] < |home| && home[lookup[chain[j]]] == chain[j])
  }

  lemma MoveStep(lookup: seq<nat>, home: seq<nat>, chain: seq<nat>, lookup': seq<nat>, home': seq<nat>, n: nat)
    requires Linked(lookup, home, chain) && Moved(lookup, home, lookup', home', chain, n) && n + 1 < |chain|
    ensures lookup'[chain[n + 1]] == lookup[chain[n + 1]]
    ensures Moved(lookup, home, lookup'[chain[n] := lookup[chain[n + 1]]], home'[lookup[chain[n + 1]] := chain[n]],
            chain, n + 1)
  {
    LookupStep(lookup, lookup', chain, n);
    HomeStep(lookup, home, home', chain, n);
  }

  /** All moves of a chain are made, and the evicted line's slot is put at its end. */
  ghost predicate AllMoved(g: Geometry, tags: seq<Address>, lookup: seq<nat>, home: seq<nat>, addr: Address,
                           chain: seq<nat>, candidate: nat,
                           lookup': seq<nat>, home': seq<nat>)
  {
    && ArrayOK(g, tags, lookup, home) && ChainOK(g, tags, lookup, addr, chain, candidate)
    && Moved(lookup, home, lookup', home', chain, |chain| - 1)
  }

  lemma MovedLookup(g: Geometry, tags: seq<Address>, lookup: seq<nat>, home: seq<nat>, addr: Address, chain: seq<nat>,
                    candidate: nat,
                    lookup': seq<nat>, home': seq<nat>, p: nat)
    requires AllMoved(g, tags, lookup, home, addr, chain, candidate, lookup', home') && p < |lookup|
    ensures var last := chain[|chain| - 1]; var l := lookup'[last := candidate][p];
            l < |home| && home'[candidate := last][l] == p
  {
    var n := |chain| - 1;
    if p != chain[n] {
      if Off(chain, 0, n, p) {
        assert Off(chain, 1, n + 1, p) && lookup[p] != candidate && home[lookup[p]] == p;
      } else {
        var j :| 0 <= j < n && chain[j] == p;
        assert lookup[chain[j + 1]] != candidate by {
          assert home[lookup[chain[j + 1]]] == chain[j + 1] && home[lookup[chain[0]]] == chain[0];
        }
      }
    }
  }

  /** Where line l is after the moves: it stays, or it moved along the chain. */
  lemma MovedHome(g: Geometry, tags: seq<Address>, lookup: seq<nat>, home: seq<nat>, addr: Address, chain: seq<nat>,
                  candidate: nat,
                  lookup': seq<nat>, home': seq<nat>, l: nat)
    requires AllMoved(g, tags, lookup, home, addr, chain, candidate, lookup', home') && l < |home|
    ensures var last := chain[|chain| - 1]; var p := home'[candidate := last][l];
            && p < |lookup| && lookup'[last := candidate][p] == l
            && (l != candidate && tags[l] != 0 ==> HashesTo(g, tags[l], p))
  {
    var n := |chain| - 1;
    if l != candidate {
      assert home[l] != chain[0];
      if Off(chain, 1, n + 1, home[l]) {
        assert Off(chain, 0, n, home[l]) && home[l] != chain[n];
      } else {
        var j :| 1 <= j < n + 1 && chain[j] == home[l];
        assert home'[lookup[chain[j - 1 + 1]]] == chain[j - 1] && lookup[chain[j]] == l;
        assert lookup'[chain[j - 1]] == lookup[chain[j - 1 + 1]] && chain[j - 1] != chain[n];
        assert HashesTo(g, tags[lookup[chain[j - 1 + 1]]], chain[j - 1]);
      }
    }
  }

  /** The result is again a permutation with every line at one of its own
      positions, and only the victim's tag is gone. */
  lemma {:induction false} MovesKeepArray(g: Geometry, tags: seq<Address>, lookup: seq<nat>, home: seq<nat>,
                                          addr: Address, chain: seq<nat>, candidate: nat,
                       lookup': seq<nat>, home': seq<nat>)
    requires AllMoved(g, tags, lookup, home, addr, chain, candidate, lookup', home')
    requires addr != 0 && addr !in tags
    ensures var last := chain[|chain| - 1];
            ArrayOK(g, tags[candidate := addr], lookup'[last := candidate], home'[candidate := last])
  {
    var last := chain[|chain| - 1];
    var lookup2, home2 := lookup'[last := candidate], home'[candidate := last];
    forall p | 0 <= p < |lookup2|
      ensures lookup2[p] < |home2| && home2[lookup2[p]] == p
    {
      MovedLookup(g, tags, lookup, home, addr, chain, candidate, lookup', home', p);
    }
    forall l | 0 <= l < |home2|
      ensures home2[l] < |lookup2| && lookup2[home2[l]] == l
      ensures l != candidate && tags[l] != 0 ==> HashesTo(g, tags[l], home2[l])
    {
      MovedHome(g, tags, lookup, home, addr, chain, candidate, lookup', home', l);
    }
  }

  // ---------------------------------------------------------------------------
  // The array
  // ---------------------------------------------------------------------------

  /** An expansion adds all positions of the fringe line but its own. */
  lemma OwnWay(g: Geometry, tags: seq<Address>, lookup: seq<nat>, home: seq<nat>, l: nat) returns (own: nat)
    requires ArrayOK(g, tags, lookup, home) && l < |tags| && tags[l] != 0
    ensures own < g.ways
    ensures forall w: nat :: w < g.ways ==> (lookup[g.Pos(w, tags[l])] == l <==> w == own)
  {
    own :| own < g.ways && g.Pos(own, tags[l]) == home[l];
    forall w: nat | w < g.ways
      ensures lookup[g.Pos(w, tags[l])] == l <==> w == own
    {
      if w < own { g.PosDistinct(w, own, tags[l], tags[l]); }
      if own < w { g.PosDistinct(own, w, tags[l], tags[l]); }
    }
  }

  lemma WalkGrows(g: Geometry, tags: seq<Address>, lookup: seq<nat>, addr: Address, walk: seq<Walk>, fringe: nat,
                  w: nat)
    requires WalkOK(g, tags, lookup, addr, walk, fringe, w) && w < g.ways
    requires fringe + g.ways <= |walk| && tags[walk[fringe].lineId] != 0
    requires lookup[g.Pos(w, tags[walk[fringe].lineId])] < |tags|
    ensures var p := g.Pos(w, tags[walk[fringe].lineId]);
            && (lookup[p] != walk[fringe].lineId ==>
                  WalkOK(g, tags, lookup, addr, walk + [Walk(p, lookup[p], fringe)], fringe, w + 1))
            && (lookup[p] == walk[fringe].lineId ==> WalkOK(g, tags, lookup, addr, walk, fringe, w + 1))
  {
    var p := g.Pos(w, tags[walk[fringe].lineId]);
    if lookup[p] != walk[fringe].lineId {
      var walk' := walk + [Walk(p, lookup[p], fringe)];
      forall i | 0 <= i < |walk'|
        ensures StepOK(g, tags, lookup, addr, walk', i)
      {
        if i < |walk| { assert StepOK(g, tags, lookup, addr, walk, i); }
      }
      forall f | 0 <= f < fringe
        ensures Expanded(g, tags, lookup, walk', f, g.ways)
      {
        ExpandedStays(g, tags, lookup, walk, walk', f, g.ways);
      }
      ExpandedStays(g, tags, lookup, walk, walk', fringe, w);
      assert walk'[|walk|].parentIdx == fringe && walk'[|walk|].pos == p;
    }
  }

  lemma ExpandedStays(g: Geometry, tags: seq<Address>, lookup: seq<nat>, walk: seq<Walk>, walk': seq<Walk>, f: nat,
                      w: nat)
    requires g.Valid() && |tags| == |lookup| == g.NumLines() && f < |walk| && walk <= walk'
    requires Expanded(g, tags, lookup, walk, f, w)
    ensures Expanded(g, tags, lookup, walk', f, w)
  {
    forall v: nat | v < w && v < g.ways
      ensures var p := g.Pos(v, tags[walk[f].lineId]);
              lookup[p] == walk[f].lineId || exists i :: f < i < |walk'| && walk'[i].parentIdx == f && walk'[i].pos == p
    {
      var p := g.Pos(v, tags[walk[f].lineId]);
      if lookup[p] != walk[f].lineId {
        var i :| f < i < |walk| && walk[i].parentIdx == f && walk[i].pos == p;
        assert walk'[i] == walk[i];
      }
    }
  }

  class ZArray {
    const g: Geometry
    const tags: array<Address>      // line id -> address
    const lookupArray: array<nat>   // position -> line id
    const swapArray: array<nat>     // positions, filled by Preinsert for Postinsert
    var swapArrayLen: nat
    ghost var home: seq<nat>        // line id -> position

    ghost predicate Valid()
      reads this, tags, lookupArray
    {
      && tags != lookupArray && tags != swapArray && lookupArray != swapArray
      && ArrayOK(g, tags[..], lookupArray[..], home)
      && swapArray.Length == g.cands / g.ways + 2
    }

    /** Preinsert has laid out the moves that make room for addr by giving up line id `candidate`. */
    ghost predicate Planned(addr: Address, candidate: nat)
      requires Valid()
      reads this, tags, lookupArray, swapArray
    {
      && swapArrayLen <= swapArray.Length
      && ChainOK(g, tags[..], lookupArray[..], addr, swapArray[..swapArrayLen], candidate)
    }

    constructor (geometry: Geometry)
      requires geometry.Valid()
      ensures Valid() && g == geometry && fresh(tags) && fresh(lookupArray) && fresh(swapArray)
      ensures forall l :: 0 <= l < tags.Length ==> tags[l] == 0
    {
      g := geometry;
      tags := new Address[geometry.NumLines()](_ => 0);
      lookupArray := new nat[geometry.NumLines()](i => i);
      swapArray := new nat[geometry.cands / geometry.ways + 2](_ => 0);
      swapArrayLen := 0;
      home := seq(geometry.NumLines(), i => i);
    }

    /** lookup finds a line exactly if a scan of all tags would. */
    method Lookup(addr: Address) returns (lineId: int)
      requires Valid() && addr != 0
      ensures lineId == -1 || 0 <= lineId < tags.Length
      ensures lineId == -1 ==> addr !in tags[..]
      ensures lineId >= 0 ==> tags[lineId] == addr
    {
      for w := 0 to g.ways
        invariant forall v: nat :: v < w ==> tags[lookupArray[g.Pos(v, addr)]] != addr
      {
        var l := lookupArray[g.Pos(w, addr)];
        if tags[l] == addr {
          return l;
        }
      }
      forall l | 0 <= l < tags.Length ensures tags[l] != addr {
        assert tags[..][l] != 0 ==> HashesTo(g, tags[..][l], home[l]);
      }
      return -1;
    }

    /** One fringe expansion: the fringe line's other positions become candidates,
        exactly ways - 1 of them. */
    method Expand(walk: array<Walk>, numCandidates: nat, fringeStart: nat, ghost addr: Address)
        returns (num: nat, allValid: bool)
      requires Valid() && walk.Length == g.cands + g.ways
      requires numCandidates < g.cands && fringeStart + g.ways <= numCandidates
      requires WalkOK(g, tags[..], lookupArray[..], addr, walk[..numCandidates], fringeStart, 0)
      requires AllUsed(tags[..], walk[..numCandidates])
      modifies walk
      ensures num == numCandidates + g.ways - 1
      ensures WalkOK(g, tags[..], lookupArray[..], addr, walk[..num], fringeStart, g.ways)
      ensures allValid ==> AllUsed(tags[..], walk[..num])
    {
      ghost var ts, ls := tags[..], lookupArray[..];
      num, allValid := numCandidates, true;
      var fringeId := walk[fringeStart].lineId;
      assert fringeId == walk[..num][fringeStart].lineId;
      var fringeAddr := tags[fringeId];
      assert fringeAddr != 0;
      ghost var own := OwnWay(g, ts, ls, home, fringeId);
      for w := 0 to g.ways
        invariant num == numCandidates + w - (if own < w then 1 else 0)
        invariant ts == tags[..] && ls == lookupArray[..] && walk[fringeStart].lineId == fringeId
        invariant WalkOK(g, ts, ls, addr, walk[..num], fringeStart, w)
        invariant allValid ==> AllUsed(ts, walk[..num])
      {
        var used;
        num, used := Probe(walk, num, fringeStart, fringeId, fringeAddr, w, ts, ls, addr);
        allValid := allValid && used;
      }
    }

    /** The fringe line's position in way w is written behind the candidates, and counts as
        one more unless it is the line's own. */
    method Probe(walk: array<Walk>, num: nat, fringeStart: nat, fringeId: nat, fringeAddr: Address, w: nat,
                 ghost ts: seq<Address>, ghost ls: seq<nat>, ghost addr: Address) returns (num': nat, used: bool)
      requires Valid() && ts == tags[..] && ls == lookupArray[..] && num < walk.Length && w < g.ways
               && fringeStart + g.ways <= num
      requires WalkOK(g, ts, ls, addr, walk[..num], fringeStart, w)
      requires fringeId == walk[fringeStart].lineId < |ts| && fringeAddr == ts[fringeId] != 0
      modifies walk
      ensures ts == tags[..] && ls == lookupArray[..] && walk[fringeStart] == old(walk[fringeStart])
      ensures num' == if ls[g.Pos(w, fringeAddr)] != fringeId then num + 1 else num
      ensures WalkOK(g, ts, ls, addr, walk[..num'], fringeStart, w + 1)
      ensures used && AllUsed(ts, old(walk[..num])) ==> AllUsed(ts, walk[..num'])
    {
      ghost var seen := walk[..num];
      assert seen[fringeStart] == walk[fringeStart];
      WalkGrows(g, ts, ls, addr, seen, fringeStart, w);
      var pos := g.Pos(w, fringeAddr);
      var lineId := lookupArray[pos];
      walk[num] := Walk(pos, lineId, fringeStart);
      assert walk[..num] == seen && walk[..num + 1] == seen + [walk[num]];
      used := tags[lineId] != 0;
      num' := if lineId != fringeId then num + 1 else num;
    }

    /** The breadth-first walk: at most cands + ways - 1 candidates, so the buffer suffices. */
    method WalkCandidates(addr: Address, walk: array<Walk>)
        returns (numCandidates: nat, ghost fringe: nat, ghost w: nat)
      requires Valid() && walk.Length == g.cands + g.ways
      modifies walk
      ensures 0 < numCandidates <= walk.Length
      ensures WalkOK(g, tags[..], lookupArray[..], addr, walk[..numCandidates], fringe, w)
    {
      ghost var ts, ls := tags[..], lookupArray[..];
      var allValid := Seed(addr, walk);
      numCandidates := g.ways;
      var fringeStart := 0;
      fringe, w := 0, 0;
      while numCandidates < g.cands && allValid
        invariant g.ways <= numCandidates < g.cands + g.ways && fringeStart + g.ways <= numCandidates
        invariant WalkOK(g, ts, ls, addr, walk[..numCandidates], fringe, w)
        invariant WalkOK(g, ts, ls, addr, walk[..numCandidates], fringeStart, 0)
        invariant allValid ==> AllUsed(ts, walk[..numCandidates])
        decreases g.cands - numCandidates
      {
        numCandidates, allValid := Expand(walk, numCandidates, fringeStart, addr);
        fringe, w := fringeStart, g.ways;
        NextFringe(g, ts, ls, addr, walk[..numCandidates], fringeStart);
        fringeStart := fringeStart + 1;
      }
      assert !allValid || numCandidates >= g.cands;
    }

    /** The first candidates are the positions of the address itself. */
    method Seed(addr: Address, walk: array<Walk>) returns (allValid: bool)
      requires Valid() && walk.Length == g.cands + g.ways
      modifies walk
      ensures WalkOK(g, tags[..], lookupArray[..], addr, walk[..g.ways], 0, 0)
      ensures allValid ==> AllUsed(tags[..], walk[..g.ways])
    {
      ghost var ts, ls := tags[..], lookupArray[..];
      allValid := true;
      for v := 0 to g.ways
        invariant forall i :: 0 <= i < v ==> walk[i] == Walk(g.Pos(i, addr), ls[g.Pos(i, addr)], -1)
        invariant allValid ==> forall i :: 0 <= i < v ==> ts[walk[i].lineId] != 0
      {
        var pos := g.Pos(v, addr);
        var lineId := lookupArray[pos];
        walk[v] := Walk(pos, lineId, -1);
        allValid := allValid && tags[lineId] != 0;
      }
      SeedsOK(g, ts, ls, addr, walk[..g.ways]);
    }

    /** Picks a victim among the candidates (whichever the replacement policy
        ranks best) and lays out the moves that free a position for addr. */
    method Preinsert(addr: Address) returns (bestCandidate: nat, wbLineAddr: Address)
      requires Valid()
      modifies swapArray, this`swapArrayLen
      ensures Valid() && Planned(addr, bestCandidate)
      ensures bestCandidate < tags.Length && wbLineAddr == tags[bestCandidate]
    {
      var walk := new Walk[g.cands + g.ways](_ => Walk(0, 0, -1));
      ghost var fringe, w;
      var numCandidates;
      numCandidates, fringe, w := WalkCandidates(addr, walk);
      ghost var full := walk[..numCandidates];
      ghost var ts, ls := tags[..], lookupArray[..];
      numCandidates := if numCandidates > g.cands then g.cands else numCandidates;

      // rankCands
      var ranked: nat :| ranked < numCandidates;
      bestCandidate := walk[ranked].lineId;

      var minIdx := FirstOf(walk, ranked);
      assert First(full, minIdx) && full[minIdx].lineId == bestCandidate;
      assert StepOK(g, ts, ls, addr, full, minIdx);
      FillSwapArray(walk, full, addr, fringe, w, minIdx);
      wbLineAddr := tags[bestCandidate];
    }

    /** Follows the parents of candidate minIdx; the chain fits the swap array. */
    method FillSwapArray(walk: array<Walk>, ghost full: seq<Walk>, ghost addr: Address, ghost fringe: nat,
                         ghost w: nat, minIdx: nat)
      requires Valid() && |full| <= walk.Length && full == walk[..|full|]
      requires WalkOK(g, tags[..], lookupArray[..], addr, full, fringe, w)
      requires minIdx < |full| && minIdx < g.cands && First(full, minIdx)
      modifies swapArray, this`swapArrayLen
      ensures Valid() && Planned(addr, full[minIdx].lineId)
    {
      PathIsSimple(g, tags[..], lookupArray[..], addr, full, fringe, w, minIdx);
      ghost var path := Path(full, minIdx);
      PathFits(g, |path|, minIdx);
      var idx: int := minIdx;
      var swapIdx := 0;
      while idx >= 0
        invariant 0 <= swapIdx <= |path|
        invariant if swapIdx < |path| then idx == path[swapIdx] else idx < 0
        invariant forall j :: 0 <= j < swapIdx ==> swapArray[j] == full[path[j]].pos
        decreases |path| - swapIdx
      {
        swapArray[swapIdx] := walk[idx].pos;
        swapIdx := swapIdx + 1;
        idx := walk[idx].parentIdx;
      }
      swapArrayLen := swapIdx;
      PathIsChain(g, tags[..], lookupArray[..], home, addr, full, fringe, w, minIdx, swapArray[..swapIdx]);
    }

    /** Makes the moves and writes the new tag: the array holds what it held, with
        addr in place of the line given up, every other line under its old id. */
    method Postinsert(addr: Address, candidate: nat)
      requires Valid() && Planned(addr, candidate)
      requires addr != 0 && addr !in tags[..]
      modifies tags, lookupArray, this`home
      ensures Valid() && candidate < tags.Length
      ensures tags[..] == old(tags[..])[candidate := addr]
    {
      ghost var ts, ls, home0 := tags[..], lookupArray[..], home;
      ghost var chain := swapArray[..swapArrayLen];
      assert lookupArray[swapArray[0]] == candidate by { assert chain[0] == swapArray[0]; }
      MakeMoves(addr, candidate);
      MovesKeepArray(g, ts, ls, home0, addr, chain, candidate, lookupArray[..], home);
      ghost var l := lookupArray[..];
      lookupArray[swapArray[swapArrayLen - 1]] := candidate;
      assert lookupArray[..] == l[chain[|chain| - 1] := candidate];
      home := home[candidate := chain[|chain| - 1]];
      tags[candidate] := addr;
      assert tags[..] == ts[candidate := addr];
    }

    /** The loop of postinsert. */
    method MakeMoves(ghost addr: Address, ghost candidate: nat)
      requires Valid() && Planned(addr, candidate)
      modifies lookupArray, this`home
      ensures tags[..] == old(tags[..]) && swapArray[..swapArrayLen] == old(swapArray[..swapArrayLen])
      ensures AllMoved(g, tags[..], old(lookupArray[..]), old(home), addr, swapArray[..swapArrayLen], candidate,
              lookupArray[..], home)
    {
      ghost var ls, chain := lookupArray[..], swapArray[..swapArrayLen];
      assert Linked(ls, home, chain);
      MoveAlong(ls, home, chain);
    }

    /** The loop itself. */
    method MoveAlong(ghost ls: seq<nat>, ghost home0: seq<nat>, ghost chain: seq<nat>)
      requires lookupArray != swapArray && lookupArray != tags && 0 < |chain| == swapArrayLen <= swapArray.Length
      requires chain == swapArray[..swapArrayLen] && ls == lookupArray[..] && home0 == home && Linked(ls, home0, chain)
      modifies lookupArray, this`home
      ensures Moved(ls, home0, lookupArray[..], home, chain, |chain| - 1)
    {
      var i := 0;
      while i < swapArrayLen - 1
        invariant 0 <= i <= swapArrayLen - 1 && chain == swapArray[..swapArrayLen]
        invariant Moved(ls, home0, lookupArray[..], home, chain, i)
      {
        MoveOne(i, ls, home0, chain);
        i := i + 1;
      }
    }

    /** One move: the line at the next position of the chain goes to this one. */
    method MoveOne(i: nat, ghost ls: seq<nat>, ghost home0: seq<nat>, ghost chain: seq<nat>)
      requires lookupArray != swapArray && lookupArray != tags && i + 1 < |chain| == swapArrayLen <= swapArray.Length
      requires swapArray[i] == chain[i] && swapArray[i + 1] == chain[i + 1]
      requires Linked(ls, home0, chain) && Moved(ls, home0, lookupArray[..], home, chain, i)
      modifies lookupArray, this`home
      ensures Moved(ls, home0, lookupArray[..], home, chain, i + 1)
    {
      ghost var l := lookupArray[..];
      MoveStep(ls, home0, chain, l, home, i);
      home := home[lookupArray[swapArray[i + 1]] := swapArray[i]];
      lookupArray[swapArray[i]] := lookupArray[swapArray[i + 1]];
      assert lookupArray[..] == l[chain[i] := ls[chain[i + 1]]];
    }

    /** Cache::access on the array: look the line up, and on a miss replace. */
    method Access(addr: Address) returns (lineId: nat, evicted: Address)
      requires Valid() && addr != 0
      modifies tags, lookupArray, swapArray, this`swapArrayLen, this`home
      ensures Valid() && lineId < tags.Length && tags[lineId] == addr
      ensures if addr in old(tags[..]) then tags[..] == old(tags[..]) && evicted == 0
              else evicted == old(tags[lineId]) && tags[..] == old(tags[..])[lineId := addr]
    {
      var found := Lookup(addr);
      if found >= 0 {
        lineId, evicted := found, 0;
      } else {
        lineId, evicted := Preinsert(addr);
        Postinsert(addr, lineId);
      }
    }
  }

  /** The first candidate that is the same line as candidate i. */
  method FirstOf(walk: array<Walk>, i: nat) returns (minIdx: nat)
    requires i < walk.Length
    ensures minIdx <= i && walk[minIdx].lineId == walk[i].lineId
    ensures forall j :: 0 <= j < minIdx ==> walk[j].lineId != walk[i].lineId
  {
    minIdx := 0;
    while walk[minIdx].lineId != walk[i].lineId
      invariant 0 <= minIdx <= i
      invariant forall j :: 0 <= j < minIdx ==> walk[j].lineId != walk[i].lineId
      decreases i - minIdx
    {
      minIdx := minIdx + 1;
    }
  }

  /** Every candidate so far is a line in use. */
  ghost predicate AllUsed(tags: seq<Address>, walk: seq<Walk>) {
    forall i :: 0 <= i < |walk| ==> walk[i].lineId < |tags| && tags[walk[i].lineId] != 0
  }

  lemma SeedsOK(g: Geometry, tags: seq<Address>, lookup: seq<nat>, addr: Address, walk: seq<Walk>)
    requires g.Valid() && |tags| == |lookup| == g.NumLines() && |walk| == g.ways
    requires forall p :: 0 <= p < |lookup| ==> lookup[p] < |tags|
    requires forall i :: 0 <= i < |walk| ==> walk[i] == Walk(g.Pos(i, addr), lookup[g.Pos(i, addr)], -1)
    ensures WalkOK(g, tags, lookup, addr, walk, 0, 0)
  {
  }

  lemma NextFringe(g: Geometry, tags: seq<Address>, lookup: seq<nat>, addr: Address, walk: seq<Walk>, fringe: nat)
    requires WalkOK(g, tags, lookup, addr, walk, fringe, g.ways) && fringe + 1 < |walk|
    ensures WalkOK(g, tags, lookup, addr, walk, fringe + 1, 0)
  {
    assert StepOK(g, tags, lookup, addr, walk, fringe + 1);
  }

  /** The chain of a candidate below cands fits cands / ways + 2 entries. */
  lemma PathFits(g: Geometry, len: nat, i: nat)
    requires g.Valid() && len > 0 && (len - 1) * g.ways <= i < g.cands
    ensures len <= g.cands / g.ways + 1
  {
    DivLower(len - 1, g.ways, g.cands);
  }

  // ---------------------------------------------------------------------------
  // Whole runs
  // ---------------------------------------------------------------------------

  /** The tags held, as a set. */
  ghost function Held(tags: seq<Address>): set<Address> {
    set l | 0 <= l < |tags| && tags[l] != 0 :: tags[l]
  }

  /** Any sequence of accesses, whatever the policy picks as victim: the array
      stays a permutation with unique tags at their own positions, every access
      ends with its line present, and the reported evictions account exactly for
      what has left. */
  method Run(g: Geometry, trace: seq<Address>)
      returns (tags: seq<Address>, lookup: seq<nat>, ghost home: seq<nat>, evictions: seq<Address>)
    requires g.Valid() && 0 !in trace
    ensures ArrayOK(g, tags, lookup, home) && |evictions| == |trace|
    ensures trace != [] ==> trace[|trace| - 1] in Held(tags)
    ensures forall a :: a in Held(tags) ==> a in trace
    ensures forall a :: a in trace && a !in Held(tags) ==> a in evictions
  {
    var z := new ZArray(g);
    evictions := [];
    assert Held(z.tags[..]) == {};
    for i := 0 to |trace|
      invariant z.Valid() && z.g == g && fresh(z.tags) && fresh(z.lookupArray) && fresh(z.swapArray) && |evictions| == i
      invariant i > 0 ==> trace[i - 1] in Held(z.tags[..])
      invariant forall a :: a in Held(z.tags[..]) ==> a in trace[..i]
      invariant forall a :: a in trace[..i] && a !in Held(z.tags[..]) ==> a in evictions
    {
      ghost var before := z.tags[..];
      var lineId, evicted := z.Access(trace[i]);
      AccessHeld(before, z.tags[..], trace[i], lineId, evicted);
      assert trace[..i + 1] == trace[..i] + [trace[i]];
      evictions := evictions + [evicted];
    }
    assert trace[..|trace|] == trace;
    tags, lookup, home := z.tags[..], z.lookupArray[..], z.home;
  }

  lemma AccessHeld(before: seq<Address>, after: seq<Address>, addr: Address, lineId: nat, evicted: Address)
    requires addr != 0 && lineId < |before| == |after| && after[lineId] == addr && UniqueTags(before)
    requires if addr in before then after == before else evicted == before[lineId] && after == before[lineId := addr]
    ensures addr in Held(after)
    ensures Held(after) <= Held(before) + {addr}
    ensures forall a :: a in Held(before) ==> a in Held(after) || a == evicted
  {
    forall a | a in Held(before)
      ensures a in Held(after) || a == evicted
    {
      var l :| 0 <= l < |before| && before[l] == a;
      if l != lineId { assert after[l] == a; }
    }
  }
}
