/** The page map of the DRAM cache and its ways: two views of which pages are resident,
    with the lines touched and written of each. */
module PageMap {
  import opened PagePlacement
  import TagBuffers

  /** Where a page is, if way < numWays, and its lines touched and written since then. */
  datatype TlbEntry = TlbEntry(way: nat, touch: set<nat>, dirty: set<nat>)

  datatype Core = Core(numSets: nat, numWays: nat, ways: seq<seq<Way>>, tlb: map<nat, TlbEntry>)

  /** A line: its page and its number in the page. */
  type Line = (nat, nat)

  ghost predicate Shape(c: Core) {
    && c.numSets > 0 && c.numWays > 0 && |c.ways| == c.numSets
    && forall k :: 0 <= k < c.numSets ==> |c.ways[k]| == c.numWays
  }

  /** What is recorded of a resident page: some line was touched, only touched lines
      were written, and the way is dirty just if a line was. */
  ghost predicate PageOK(e: TlbEntry, dirty: bool) {
    e.touch != {} && e.dirty <= e.touch && (forall b :: b in e.touch ==> b < 64) && (dirty <==> e.dirty != {})
  }

  /** A valid way holds a page of its set that the map says is there. */
  ghost predicate WayOK(c: Core, k: nat, w: nat)
    requires Shape(c) && k < c.numSets && w < c.numWays
  {
    var x := c.ways[k][w];
    x.valid ==>
      && TagBuffers.Home(x.tag, c.numSets) == k && x.tag in c.tlb
      && c.tlb[x.tag].way == w && PageOK(c.tlb[x.tag], x.dirty)
  }

  /** A page the map says is resident is in that way. */
  ghost predicate EntryFound(c: Core, t: nat)
    requires Shape(c) && t in c.tlb
  {
    var w, k := c.tlb[t].way, TagBuffers.Home(t, c.numSets);
    w <= c.numWays && (w < c.numWays ==> c.ways[k][w].valid && c.ways[k][w].tag == t)
  }

  ghost predicate CoreOK(c: Core) {
    && Shape(c)
    && (forall k, w {:trigger WayOK(c, k, w)} :: 0 <= k < c.numSets && 0 <= w < c.numWays ==> WayOK(c, k, w))
    && (forall t {:trigger EntryFound(c, t)} :: t in c.tlb ==> EntryFound(c, t))
  }

  /** A page is resident, according to the map. */
  predicate Resident(c: Core, t: nat) {
    t in c.tlb && c.tlb[t].way < c.numWays
  }

  /** The two views agree: the map has page t in way w just if way w of its set is
      valid and holds t. */
  lemma ViewsAgree(c: Core, t: nat, w: nat)
    requires CoreOK(c) && w < c.numWays
    ensures t in c.tlb && c.tlb[t].way == w <==>
            c.ways[TagBuffers.Home(t, c.numSets)][w].valid && c.ways[TagBuffers.Home(t, c.numSets)][w].tag == t
  {
    assert WayOK(c, TagBuffers.Home(t, c.numSets), w);
    if t in c.tlb { assert EntryFound(c, t); }
  }

  // ---------------------------------------------------------------------------
  // Steps
  // ---------------------------------------------------------------------------

  /** The map has an entry for every page that was accessed. */
  function Known(c: Core, t: nat): Core {
    if t in c.tlb then c else c.(tlb := c.tlb[t := TlbEntry(c.numWays, {}, {})])
  }

  lemma KnownOK(c: Core, t: nat)
    requires CoreOK(c)
    ensures CoreOK(Known(c, t))
  {
    var c' := Known(c, t);
    forall k, w | 0 <= k < c.numSets && 0 <= w < c.numWays ensures WayOK(c', k, w) { assert WayOK(c, k, w); }
    forall u | u in c'.tlb ensures EntryFound(c', u) { if u in c.tlb { assert EntryFound(c, u); } }
  }

  function Bits(e: set<nat>, bit: nat, write: bool): set<nat> {
    if write then e + {bit} else e
  }

  /** A resident page is accessed. */
  function Touched(c: Core, t: nat, bit: nat, write: bool): Core
    requires Shape(c) && Resident(c, t)
  {
    var e, k := c.tlb[t], TagBuffers.Home(t, c.numSets);
    var x := c.ways[k][e.way];
    c.(ways := c.ways[k := c.ways[k][e.way := x.(dirty := x.dirty || write)]],
       tlb := c.tlb[t := e.(touch := e.touch + {bit}, dirty := Bits(e.dirty, bit, write))])
  }

  lemma {:induction false} TouchedOK(c: Core, t: nat, bit: nat, write: bool)
    requires CoreOK(c) && Resident(c, t) && bit < 64
    ensures CoreOK(Touched(c, t, bit, write))
  {
    var c', k', w' := Touched(c, t, bit, write), TagBuffers.Home(t, c.numSets), c.tlb[t].way;
    assert EntryFound(c, t) && WayOK(c, k', w');
    assert bit in c'.tlb[t].touch && (write ==> bit in c'.tlb[t].dirty);
    forall k, w | 0 <= k < c.numSets && 0 <= w < c.numWays ensures WayOK(c', k, w) { assert WayOK(c, k, w); }
    forall u | u in c'.tlb ensures EntryFound(c', u) { assert EntryFound(c, u); }
  }

  /** A way is emptied. */
  function Evicted(c: Core, k: nat, w: nat): Core
    requires Shape(c) && k < c.numSets && w < c.numWays && (c.ways[k][w].valid ==> c.ways[k][w].tag in c.tlb)
  {
    var x := c.ways[k][w];
    if x.valid then
      c.(ways := c.ways[k := c.ways[k][w := x.(valid := false, dirty := false)]],
         tlb := c.tlb[x.tag := c.tlb[x.tag].(way := c.numWays)])
    else c
  }

  lemma {:induction false} EvictedOK(c: Core, k: nat, w: nat)
    requires CoreOK(c) && k < c.numSets && w < c.numWays
    ensures c.ways[k][w].valid ==> c.ways[k][w].tag in c.tlb
    ensures CoreOK(Evicted(c, k, w)) && !Evicted(c, k, w).ways[k][w].valid
  {
    assert WayOK(c, k, w);
    var c' := Evicted(c, k, w);
    forall k', w' | 0 <= k' < c.numSets && 0 <= w' < c.numWays ensures WayOK(c', k', w') { assert WayOK(c, k', w'); }
    forall u | u in c'.tlb ensures EntryFound(c', u) { assert EntryFound(c, u); }
  }

  /** A page that is not resident is placed in an empty way of its set. */
  function Placed(c: Core, t: nat, w: nat, bit: nat, write: bool): Core
    requires Shape(c) && w < c.numWays
  {
    var k := TagBuffers.Home(t, c.numSets);
    c.(ways := c.ways[k := c.ways[k][w := Way(true, t, write)]],
       tlb := c.tlb[t := TlbEntry(w, {bit}, Bits({}, bit, write))])
  }

  lemma {:induction false} PlacedOK(c: Core, t: nat, w: nat, bit: nat, write: bool)
    requires CoreOK(c) && !Resident(c, t) && w < c.numWays && bit < 64
             && !c.ways[TagBuffers.Home(t, c.numSets)][w].valid
    ensures CoreOK(Placed(c, t, w, bit, write)) && Resident(Placed(c, t, w, bit, write), t)
  {
    var c', k' := Placed(c, t, w, bit, write), TagBuffers.Home(t, c.numSets);
    assert bit in c'.tlb[t].touch && (write ==> bit in c'.tlb[t].dirty);
    forall k, v | 0 <= k < c.numSets && 0 <= v < c.numWays ensures WayOK(c', k, v) { assert WayOK(c, k, v); }
    forall u | u in c'.tlb ensures EntryFound(c', u) { if u in c.tlb { assert EntryFound(c, u); } }
  }

  // ---------------------------------------------------------------------------
  // Where the latest values are
  // ---------------------------------------------------------------------------

  /** A line that a resident page marks as written. */
  ghost predicate Marked(c: Core, line: Line) {
    Resident(c, line.0) && line.1 in c.tlb[line.0].dirty
  }

  ghost predicate MarkedOK(c: Core, marked: set<Line>) {
    forall line {:trigger Marked(c, line)} :: line in marked <==> Marked(c, line)
  }

  /** Where the latest values of lines are: stale lines have it in the DRAM cache only,
      those in both there and in external memory, though marked as written, and
      lost ones nowhere.  For all others external memory has it. */
  datatype Versions = Versions(stale: set<Line>, both: set<Line>, lost: set<Line>) {
    function Marks(): set<Line> {
      stale + both
    }
  }

  ghost predicate VersionsOK(c: Core, v: Versions) {
    MarkedOK(c, v.Marks()) && v.stale !! v.both && v.stale !! v.lost && v.both !! v.lost
  }

  /** A line is written in the DRAM cache. */
  function StoredInside(v: Versions, line: Line): Versions {
    Versions(v.stale + {line}, v.both - {line}, v.lost - {line})
  }

  /** A line is written in external memory, and in a page that is placed for it. */
  function StoredThrough(v: Versions, line: Line): Versions {
    Versions(v.stale - {line}, v.both + {line}, v.lost - {line})
  }

  /** A line that is not in the DRAM cache is written in external memory. */
  function StoredOutside(v: Versions, line: Line): Versions {
    v.(lost := v.lost - {line})
  }

  /** Lines leave the DRAM cache for external memory. */
  function WroteBack(v: Versions, lines: set<Line>): Versions {
    v.(stale := v.stale - lines, both := v.both - lines)
  }

  /** Lines leave the DRAM cache, and external memory keeps what it has. */
  function Flushed(v: Versions, lines: set<Line>): Versions {
    Versions(v.stale - lines, v.both - lines, v.lost + lines * v.stale)
  }

  lemma FlushedTwice(v: Versions, a: set<Line>, b: set<Line>)
    ensures Flushed(Flushed(v, a), b) == Flushed(v, a + b)
  {
    var once, twice := Flushed(v, a + b), Flushed(Flushed(v, a), b);
    assert twice.stale == once.stale && twice.both == once.both && twice.lost == once.lost;
  }

  /** A flush loses nothing just if external memory has all that is flushed. */
  lemma FlushLoses(c: Core, v: Versions, lines: set<Line>)
    requires VersionsOK(c, v) && lines <= v.Marks()
    ensures Flushed(v, lines).lost == v.lost <==> lines <= v.both
  {
    if lines <= v.both {
      assert lines * v.stale == {};
    } else {
      var line :| line in lines && line !in v.both;
      assert line in Flushed(v, lines).lost && line !in v.lost;
    }
  }

  /** The lines written of the page in a way. */
  function DirtyLines(c: Core, k: nat, w: nat): set<Line>
    requires Shape(c) && k < c.numSets && w < c.numWays && (c.ways[k][w].valid ==> c.ways[k][w].tag in c.tlb)
  {
    var x := c.ways[k][w];
    if !x.valid || !x.dirty then {} else set b | b in c.tlb[x.tag].dirty :: (x.tag, b)
  }

  /** What is written to external memory when a page is replaced: nothing if it is
      clean, and otherwise the lines written, or the whole page. */
  function WrittenBack(c: Core, k: nat, w: nat, wholePage: bool): set<Line>
    requires Shape(c) && k < c.numSets && w < c.numWays && (c.ways[k][w].valid ==> c.ways[k][w].tag in c.tlb)
  {
    var x := c.ways[k][w];
    if !x.valid || !x.dirty || !wholePage then DirtyLines(c, k, w) else set b: nat | b < 64 :: (x.tag, b)
  }

  lemma EvictedMarks(c: Core, marked: set<Line>, k: nat, w: nat, wholePage: bool)
    requires CoreOK(c) && MarkedOK(c, marked) && k < c.numSets && w < c.numWays
    requires c.ways[k][w].valid ==> c.ways[k][w].tag in c.tlb
    ensures MarkedOK(Evicted(c, k, w), marked - WrittenBack(c, k, w, wholePage))
  {
    var c', back := Evicted(c, k, w), WrittenBack(c, k, w, wholePage);
    assert WayOK(c, k, w);
    forall line ensures line in marked - back <==> Marked(c', line) {
      assert line in marked <==> Marked(c, line);
      assert line == (line.0, line.1);
    }
  }

  /** Emptying a way loses no write if what was written goes to external memory. */
  lemma EvictedStale(c: Core, v: Versions, k: nat, w: nat, wholePage: bool)
    requires CoreOK(c) && VersionsOK(c, v) && k < c.numSets && w < c.numWays
    requires c.ways[k][w].valid ==> c.ways[k][w].tag in c.tlb
    ensures VersionsOK(Evicted(c, k, w), WroteBack(v, WrittenBack(c, k, w, wholePage)))
  {
    var back := WrittenBack(c, k, w, wholePage);
    EvictedMarks(c, v.Marks(), k, w, wholePage);
    assert WroteBack(v, back).Marks() == v.Marks() - back;
  }

  /** If it does not, what external memory does not have is lost. */
  lemma EvictedDropped(c: Core, v: Versions, k: nat, w: nat)
    requires CoreOK(c) && VersionsOK(c, v) && k < c.numSets && w < c.numWays
    requires c.ways[k][w].valid ==> c.ways[k][w].tag in c.tlb
    ensures VersionsOK(Evicted(c, k, w), Flushed(v, DirtyLines(c, k, w)))
    ensures DirtyLines(c, k, w) <= OfSets(v.Marks(), c.numSets, k, k + 1)
  {
    var lines := DirtyLines(c, k, w);
    EvictedMarks(c, v.Marks(), k, w, false);
    assert Flushed(v, lines).Marks() == v.Marks() - lines;
    assert WayOK(c, k, w);
    forall line | line in lines ensures line in OfSets(v.Marks(), c.numSets, k, k + 1) {
      assert Marked(c, line);
    }
  }

  /** The lines of pages of the sets from lo up to hi. */
  ghost function OfSets(lines: set<Line>, numSets: nat, lo: nat, hi: nat): set<Line>
    requires numSets > 0
  {
    set line | line in lines && lo <= TagBuffers.Home(line.0, numSets) < hi
  }

  /** The lines marked as written of the pages resident in these sets. */
  function MarksOf(c: Core, lo: nat, hi: nat): set<Line>
    requires c.numSets > 0
  {
    set t, b | t in c.tlb.Keys && Resident(c, t) && lo <= TagBuffers.Home(t, c.numSets) < hi
        && b in c.tlb[t].dirty :: (t, b)
  }

  lemma MarksAreMarked(c: Core, marked: set<Line>, lo: nat, hi: nat)
    requires c.numSets > 0 && MarkedOK(c, marked)
    ensures MarksOf(c, lo, hi) == OfSets(marked, c.numSets, lo, hi)
  {
    forall line ensures line in MarksOf(c, lo, hi) <==> line in OfSets(marked, c.numSets, lo, hi) {
      assert line in marked <==> Marked(c, line);
      assert line == (line.0, line.1);
    }
  }

  /** No page of these sets is marked as written. */
  predicate CleanSets(c: Core, lo: nat, hi: nat) {
    forall k :: 0 <= k < |c.ways| && lo <= k < hi ==> CleanSet(c.ways[k])
  }

  predicate CleanSet(ways: seq<Way>) {
    forall w :: 0 <= w < |ways| ==> !(ways[w].valid && ways[w].dirty)
  }

  /** The dirty flags of the ways tell whether any line of the sets is marked as written. */
  lemma CleanIsNoneMarked(c: Core, marked: set<Line>, lo: nat, hi: nat)
    requires CoreOK(c) && MarkedOK(c, marked)
    ensures CleanSets(c, lo, hi) <==> OfSets(marked, c.numSets, lo, hi) == {}
  {
    if CleanSets(c, lo, hi) {
      forall line | line in marked ensures line !in OfSets(marked, c.numSets, lo, hi) {
        assert Marked(c, line) && EntryFound(c, line.0);
        assert WayOK(c, TagBuffers.Home(line.0, c.numSets), c.tlb[line.0].way);
      }
    } else {
      var k: nat :| k < |c.ways| && lo <= k < hi && !CleanSet(c.ways[k]);
      var w: nat :| w < |c.ways[k]| && c.ways[k][w].valid && c.ways[k][w].dirty;
      assert WayOK(c, k, w);
      var t := c.ways[k][w].tag;
      var b :| b in c.tlb[t].dirty;
      assert Marked(c, (t, b));
      assert (t, b) in OfSets(marked, c.numSets, lo, hi);
    }
  }

  /** An access to a resident page; a write goes to the DRAM cache only. */
  lemma TouchedStale(c: Core, v: Versions, t: nat, bit: nat, write: bool)
    requires CoreOK(c) && VersionsOK(c, v) && Resident(c, t)
    ensures VersionsOK(Touched(c, t, bit, write), if write then StoredInside(v, (t, bit)) else v)
  {
    var c', v' := Touched(c, t, bit, write), if write then StoredInside(v, (t, bit)) else v;
    forall line ensures line in v'.Marks() <==> Marked(c', line) {
      assert line in v.Marks() <==> Marked(c, line);
      assert line == (line.0, line.1);
    }
  }

  /** A page is placed; a write that places it may have gone to external memory too. */
  lemma PlacedStale(c: Core, v: Versions, t: nat, w: nat, bit: nat, write: bool, through: bool)
    requires CoreOK(c) && VersionsOK(c, v) && !Resident(c, t) && w < c.numWays
    ensures var v' := if !write then v else if through then StoredThrough(v, (t, bit)) else StoredInside(v, (t, bit));
            VersionsOK(Placed(c, t, w, bit, write), v')
  {
    var c' := Placed(c, t, w, bit, write);
    var v' := if !write then v else if through then StoredThrough(v, (t, bit)) else StoredInside(v, (t, bit));
    forall line ensures line in v'.Marks() <==> Marked(c', line) {
      assert line in v.Marks() <==> Marked(c, line);
      assert line == (line.0, line.1);
    }
  }

  lemma KnownStale(c: Core, v: Versions, t: nat)
    requires VersionsOK(c, v)
    ensures VersionsOK(Known(c, t), v)
  {
    forall line ensures line in v.Marks() <==> Marked(Known(c, t), line) {
      assert line in v.Marks() <==> Marked(c, line);
    }
  }
}
