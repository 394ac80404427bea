/** A hierarchy of inclusive MESI caches of any shape, for one line address.

    Every step is what one thread does between releasing and regaining a lock:
    a core access, the parent taking up a waiting request, an eviction.  A
    request that has to go up leaves its cache open to invalidations until the
    parent takes it up; sweeps of invalidations downward hold the locks of the
    caches they pass and are single steps. */
module MesiHierarchy {
  import opened MesiProtocol

  type Nodes = seq<Node>

  ghost predicate Fits(t: Tree, nodes: Nodes) {
    t.WellFormed() && |nodes| == |t.parent|
  }

  // ---------------------------------------------------------------------------
  // The invariant, node by node
  // ---------------------------------------------------------------------------

  ghost predicate EntryOK(t: Tree, nodes: Nodes, n: nat)
    requires Fits(t, nodes) && t.Has(n)
  {
    && nodes[n].dir.Counted()
    && (forall c :: c in nodes[n].dir.sharers ==> 0 < c < |nodes| && t.parent[c] == n)
  }

  /** A cache against its parent's directory entry: sharer bit, exclusivity,
      inclusion, and rights that never exceed the parent's. */
  ghost predicate LinkOK(t: Tree, nodes: Nodes, n: nat)
    requires Fits(t, nodes) && t.Has(n) && n > 0
  {
    var p := nodes[t.parent[n]];
    && (n in p.dir.sharers <==> nodes[n].state != I)
    && (Exclusive(nodes[n].state) <==> n in p.dir.sharers && p.dir.IsExclusive())
    && (nodes[n].state != I ==> p.state != I)
    && (Exclusive(nodes[n].state) ==> Exclusive(p.state))
  }

  /** A valid copy that is out of date has handed the line out exclusively, and
      whoever holds it either owns the newer data or is out of date in turn. */
  ghost predicate CurrentOK(t: Tree, nodes: Nodes, latest: nat, n: nat)
    requires Fits(t, nodes) && t.Has(n) && EntryOK(t, nodes, n)
  {
    nodes[n].state != I && nodes[n].value != latest ==>
      && nodes[n].dir.IsExclusive()
      && (forall c :: c in nodes[n].dir.sharers ==> nodes[c].state == M || nodes[c].value != latest)
  }

  /** A valid line is in the array; its entry and its data are in order. */
  ghost predicate NodeOK(t: Tree, nodes: Nodes, latest: nat, n: nat)
    requires Fits(t, nodes) && t.Has(n)
  {
    EntryOK(t, nodes, n) && CurrentOK(t, nodes, latest, n) && nodes[n].value <= latest
        && (nodes[n].state != I ==> nodes[n].present)
  }

  /** The bookkeeping of a cache that waits on its parent. */
  ghost predicate BusyOK(t: Tree, nodes: Nodes, n: nat)
    requires Fits(t, nodes) && t.Has(n)
  {
    match nodes[n].pending
    case None => nodes[n].busy == Idle
    case Waiting(access, initial, _) =>
      && nodes[n].present
      && if access == PUTS || access == PUTX then
           nodes[n].busy == Evicting && nodes[n].dir.IsEmpty()
         else
           match nodes[n].busy
           case Core(a) => a == access && t.children[n] == []
           case Serving(c, a) =>
             && a == access && 0 < c < |nodes| && t.parent[c] == n
             && nodes[c].pending.Waiting? && nodes[c].pending.access == access
           case _ => false
  }

  /** The state of a waiting cache against the state its request was issued in. */
  ghost predicate WaitOK(node: Node, root: bool) {
    match node.pending
    case None => true
    case Waiting(access, initial, _) =>
      && Issuable(access, initial)
      && Survives(initial, node.state)
      && (root ==> node.state == initial)
  }

  ghost predicate Coherent(t: Tree, nodes: Nodes, latest: nat) {
    && Fits(t, nodes)
    && (forall n :: t.Has(n) ==> NodeOK(t, nodes, latest, n))
    && (forall n :: 0 < n < |nodes| ==> LinkOK(t, nodes, n))
  }

  ghost predicate QueuedExcept(t: Tree, nodes: Nodes, x: int) {
    && Fits(t, nodes)
    && (forall n :: t.Has(n) ==> BusyOK(t, nodes, n) && (n != x ==> WaitOK(nodes[n], n == 0)))
  }

  /** Memory is up to date unless the last-level cache has, or leads to, newer data. */
  ghost predicate MemoryOK(nodes: Nodes, memory: nat, latest: nat)
    requires |nodes| > 0
  {
    && memory <= latest
    && (memory != latest ==> nodes[0].state == M || (nodes[0].state != I && nodes[0].value != latest))
  }

  /** The invariant of every reachable state. */
  ghost predicate Inv(t: Tree, nodes: Nodes, memory: nat, latest: nat) {
    Coherent(t, nodes, latest) && QueuedExcept(t, nodes, -1) && MemoryOK(nodes, memory, latest)
  }

  /** c has been granted what it waits for, and has not yet acted on it. */
  ghost predicate Granted(node: Node) {
    && node.pending.Waiting?
    && match node.pending.access
       case GETS => node.state == S || node.state == E
       case GETX => node.state == M
       case _ => node.state == I
  }

  // ---------------------------------------------------------------------------
  // What the invariant means for the whole hierarchy
  // ---------------------------------------------------------------------------

  lemma {:induction false} AncestorsOfExclusive(t: Tree, nodes: Nodes, latest: nat, x: nat, a: nat)
    requires Coherent(t, nodes, latest) && t.Has(x) && t.Has(a) && t.Under(x, a)
    requires Exclusive(nodes[x].state)
    ensures Exclusive(nodes[a].state)
    ensures a != x ==> nodes[a].dir.IsExclusive() && nodes[a].dir.sharers == {t.Toward(x, a)}
    decreases x
  {
    if x != a {
      t.UnderIsAbove(x, a);
      var p := t.parent[x];
      assert LinkOK(t, nodes, x) && NodeOK(t, nodes, latest, p);
      AncestorsOfExclusive(t, nodes, latest, p, a);
      if p == a {
        Singleton(nodes[a].dir.sharers, x);
      }
    }
  }

  lemma {:induction false} Singleton(s: set<nat>, x: nat)
    requires |s| == 1 && x in s
    ensures s == {x}
  {
    assert |s - {x}| == 0;
  }

  /** Single writer or many readers: a cache with write permission shares the
      line only with its own ancestors and descendants. */
  lemma {:induction false} SingleWriter(t: Tree, nodes: Nodes, latest: nat, x: nat, n: nat)
    requires Coherent(t, nodes, latest) && t.Has(x) && t.Has(n)
    requires Exclusive(nodes[x].state) && nodes[n].state != I
    ensures t.Under(x, n) || t.Under(n, x)
    decreases n
  {
    if n == 0 {
      RootAbove(t, x);
    } else {
      var p := t.parent[n];
      assert LinkOK(t, nodes, n);
      SingleWriter(t, nodes, latest, x, p);
      if t.Under(x, p) && p != x {
        AncestorsOfExclusive(t, nodes, latest, x, p);
        assert n in nodes[p].dir.sharers;
      }
    }
  }

  lemma {:induction false} RootAbove(t: Tree, n: nat)
    requires t.WellFormed() && t.Has(n)
    ensures t.Under(n, 0)
    decreases n
  {
    if n > 0 { RootAbove(t, t.parent[n]); }
  }

  /** So two different terminal caches never both hold the line when one may write it. */
  lemma {:induction false} TerminalCachesExclude(t: Tree, nodes: Nodes, latest: nat, x: nat, n: nat)
    requires Coherent(t, nodes, latest) && t.Listed() && t.Has(x) && t.Has(n) && x != n
    requires t.children[x] == [] && t.children[n] == []
    requires Exclusive(nodes[x].state)
    ensures nodes[n].state == I
  {
    if nodes[n].state != I {
      SingleWriter(t, nodes, latest, x, n);
      assert t.ListedBelow(n) && t.ListedBelow(x);
      if t.Under(x, n) {
        var c := t.Toward(x, n);
      } else {
        var c := t.Toward(n, x);
      }
    }
  }

  /** Dirty data is never lost: a copy or a memory that misses the last store
      has a cache in M below it. */
  lemma {:induction false} StaleHasOwnerBelow(t: Tree, nodes: Nodes, latest: nat, n: nat) returns (m: nat)
    requires Coherent(t, nodes, latest) && t.Has(n)
    requires nodes[n].state != I && nodes[n].value != latest
    ensures t.Has(m) && m != n && t.Under(m, n) && nodes[m].state == M
    decreases |nodes| - n
  {
    assert NodeOK(t, nodes, latest, n);
    var c :| c in nodes[n].dir.sharers;
    assert LinkOK(t, nodes, c);
    if nodes[c].state == M {
      m := c;
    } else {
      m := StaleHasOwnerBelow(t, nodes, latest, c);
    }
    t.UnderChild(m, c, n);
  }

  lemma {:induction false} StaleMemoryHasOwner(t: Tree, nodes: Nodes, memory: nat, latest: nat) returns (m: nat)
    requires Inv(t, nodes, memory, latest)
    requires memory != latest
    ensures t.Has(m) && nodes[m].state == M
  {
    if nodes[0].state == M {
      m := 0;
    } else {
      m := StaleHasOwnerBelow(t, nodes, latest, 0);
    }
  }

  /** A terminal cache that holds the line holds the last value stored. */
  lemma {:induction false} TerminalCopyIsCurrent(t: Tree, nodes: Nodes, latest: nat, n: nat)
    requires Coherent(t, nodes, latest) && t.Listed() && t.Has(n)
    requires t.children[n] == [] && nodes[n].state != I
    ensures nodes[n].value == latest
  {
    assert NodeOK(t, nodes, latest, n) && t.ListedBelow(n);
  }

  /** The lock protocol cannot wedge: if any request waits, some waiting request
      can be taken up at once, its parent being idle (or memory). */
  lemma {:induction false} SomeRequestCanProceed(t: Tree, nodes: Nodes, n: nat) returns (c: nat)
    requires QueuedExcept(t, nodes, -1) && t.Has(n) && nodes[n].pending.Waiting?
    ensures t.Has(c) && nodes[c].pending.Waiting? && (c > 0 ==> nodes[t.parent[c]].busy == Idle)
    decreases n
  {
    c := n;
    if n > 0 && nodes[t.parent[n]].busy != Idle {
      assert BusyOK(t, nodes, t.parent[n]);
      c := SomeRequestCanProceed(t, nodes, t.parent[n]);
    }
  }
}
