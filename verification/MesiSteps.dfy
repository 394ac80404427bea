/** Each step of the controllers keeps the hierarchy's invariant. */
module MesiSteps {
  import opened MesiProtocol
  import opened MesiHierarchy
  import opened MesiSweep

  /** A coherent hierarchy is fine below every node. */
  lemma SubtreesOfCoherent(t: Tree, nodes: Nodes, latest: nat, p: nat)
    requires Coherent(t, nodes, latest) && t.Has(p)
    ensures SubtreeOK(t, nodes, latest, p)
    ensures Sweepable(t, nodes, latest, p)
  {
    forall n | t.Has(n) && t.Under(n, p)
      ensures NodeOK(t, nodes, latest, n) && (n != p ==> LinkOK(t, nodes, n))
    {
      if n != p { t.UnderIsAbove(n, p); }
    }
    assert NodeOK(t, nodes, latest, p);
    forall c | c in nodes[p].dir.sharers
      ensures SharerOK(t, nodes, latest, p, c)
    {
      assert t.Under(p, p);
      SubtreeOfChild(t, nodes, latest, p, c);
    }
  }

  /** A node takes no note of a change that stays away from it and its sharers. */
  lemma NodeFrame(t: Tree, a: Nodes, b: Nodes, latest: nat, n: nat)
    requires Fits(t, a) && Fits(t, b) && t.Has(n) && NodeOK(t, a, latest, n)
    requires b[n].dir == a[n].dir && b[n].value == a[n].value && b[n].present == a[n].present
             && (b[n].state != I ==> a[n].state != I)
    requires forall c :: c in a[n].dir.sharers ==>
               b[c].state == M || (b[c].state == a[c].state && b[c].value == a[c].value)
    ensures NodeOK(t, b, latest, n)
  {
  }

  /** Invalidations and grants leave the waiting requests in order. */
  lemma QueueKept(t: Tree, a: Nodes, b: Nodes, x: int)
    requires QueuedExcept(t, a, -1) && Fits(t, b)
    requires forall n :: t.Has(n) ==>
               && b[n].pending == a[n].pending && b[n].busy == a[n].busy && b[n].present == a[n].present
               && (a[n].dir.IsEmpty() ==> b[n].dir.IsEmpty() || a[n].pending.None?)
    requires forall n :: t.Has(n) && n != x ==>
               || b[n].state == a[n].state
               || (n != 0 && (b[n].state == I || b[n].state == Downgraded(a[n].state)))
               || (a[n].pending.None? && a[n].state != I)
    ensures QueuedExcept(t, b, x)
  {
    forall n | t.Has(n)
      ensures BusyOK(t, b, n)
      ensures n != x ==> WaitOK(b[n], n == 0)
    {
      assert BusyOK(t, a, n) && WaitOK(a[n], n == 0);
    }
  }

  // ---------------------------------------------------------------------------
  // Grants: MESITopCC::processAccess on a GET
  // ---------------------------------------------------------------------------

  /** p may serve c's waiting GET. */
  ghost predicate MayGrant(t: Tree, a: Nodes, latest: nat, p: nat, c: nat, access: AccessType) {
    && Coherent(t, a, latest) && QueuedExcept(t, a, -1)
    && t.Has(p) && 0 < c < |a| && t.parent[c] == p
    && a[p].pending.None? && a[p].state != I && (access == GETX ==> a[p].state == M)
    && a[c].pending.Waiting? && a[c].pending.access == access && (access == GETS || access == GETX)
  }

  /** p's entry takes c in, a returned dirty copy makes p M, and c gets the line in state s. */
  function Admit(m: Nodes, p: nat, c: nat, exclusive: bool, s: MESIState, writeback: bool): Nodes
    requires p < |m| && c < |m|
  {
    m[p := m[p].(dir := Entry(m[p].dir.numSharers + 1, m[p].dir.sharers + {c}, exclusive),
                 state := if writeback then M else m[p].state)]
     [c := m[c].(state := s, value := m[p].value)]
  }

  /** p's entry without the sharer c. */
  function TakeOut(a: Nodes, p: nat, c: nat): Nodes
    requires p < |a| && a[p].dir.numSharers > 0
  {
    a[p := a[p].(dir := a[p].dir.(sharers := a[p].dir.sharers - {c}, numSharers := a[p].dir.numSharers - 1))]
  }

  /** The outcome of a grant. */
  ghost predicate GrantDone(t: Tree, a: Nodes, b: Nodes, latest: nat, p: nat, c: nat)
    requires Fits(t, a) && t.Has(p) && t.Has(c)
  {
    && Coherent(t, b, latest) && QueuedExcept(t, b, c) && Granted(b[c])
    && (forall n :: t.Has(n) ==> b[n].pending == a[n].pending && b[n].busy == a[n].busy)
    && (forall memory: nat :: MemoryOK(a, memory, latest) ==> MemoryOK(b, memory, latest))
  }

  /** A waiting GET and what it finds: no exclusivity at c, and nothing below c if c has nothing. */
  lemma WaitingGet(t: Tree, a: Nodes, latest: nat, p: nat, c: nat, access: AccessType)
    requires MayGrant(t, a, latest, p, c, access)
    ensures !Exclusive(a[c].state) && (access == GETS ==> a[c].state == I && c !in a[p].dir.sharers)
    ensures c in a[p].dir.sharers ==> !a[p].dir.IsExclusive()
    ensures !a[c].dir.IsExclusive() && a[c].present
    ensures !a[p].dir.IsExclusive() ==> a[p].value == latest
  {
    assert BusyOK(t, a, c) && WaitOK(a[c], false) && LinkOK(t, a, c) && NodeOK(t, a, latest, c)
           && NodeOK(t, a, latest, p);
    if a[c].dir.IsExclusive() {
      var g :| g in a[c].dir.sharers && LinkOK(t, a, g);
    }
  }

  /** A waiting GETS finds an entry without c that can be downgraded. */
  lemma BeforeGets(t: Tree, a: Nodes, latest: nat, p: nat, c: nat)
    requires MayGrant(t, a, latest, p, c, GETS)
    ensures Sweepable(t, a, latest, p) && c !in a[p].dir.sharers
  {
    WaitingGet(t, a, latest, p, c, GETS);
    SubtreesOfCoherent(t, a, latest, p);
  }

  /** Taking the upgrading child out of p's entry leaves an entry that can be swept. */
  lemma BeforeGetx(t: Tree, a: Nodes, latest: nat, p: nat, c: nat)
    requires MayGrant(t, a, latest, p, c, GETX)
    ensures if c in a[p].dir.sharers then
              && !a[p].dir.IsExclusive() && a[p].dir.numSharers > 0
              && Sweepable(t, TakeOut(a, p, c), latest, p)
            else Sweepable(t, a, latest, p)
  {
    WaitingGet(t, a, latest, p, c, GETX);
    SubtreesOfCoherent(t, a, latest, p);
    assert NodeOK(t, a, latest, p);
    if c in a[p].dir.sharers {
      var a' := TakeOut(a, p, c);
      forall k | k in a'[p].dir.sharers
        ensures SharerOK(t, a', latest, p, k)
      {
        assert LinkOK(t, a, k) && SharerOK(t, a, latest, p, k);
        forall n | t.Has(n) && t.Under(n, k) ensures a'[n] == a[n] {
          t.UnderIsAbove(n, k);
        }
        SubtreeFrame(t, a, a', latest, k);
      }
    }
  }

  /** A node untouched by a grant: neither p nor c nor swept. */
  lemma GrantLeavesAlone(t: Tree, a: Nodes, b: Nodes, latest: nat, p: nat, c: nat, done: set<nat>, n: nat)
    requires Coherent(t, a, latest) && Fits(t, b) && t.Has(p) && 0 < c < |a| && t.parent[c] == p
    requires forall k :: t.Has(k) && k != p && k != c && !Below(t, done, k, p) ==> b[k] == a[k]
    requires t.Has(n) && n != p && n != c && !Below(t, done, n, p)
    requires b[p].state != I && (b[p].state == M || (b[p].state == a[p].state && b[p].value == a[p].value))
    requires done <= a[p].dir.sharers && !Exclusive(a[c].state) && b[c].state != I && b[c].dir == a[c].dir
    requires !a[c].dir.IsExclusive()
    requires n in b[p].dir.sharers <==> n in a[p].dir.sharers
    requires n in a[p].dir.sharers ==> !a[p].dir.IsExclusive() && !b[p].dir.IsExclusive()
    ensures NodeOK(t, b, latest, n)
    ensures n > 0 ==> LinkOK(t, b, n)
  {
    assert NodeOK(t, a, latest, n);
    forall g | g in a[n].dir.sharers
      ensures b[g].state == M || (b[g].state == a[g].state && b[g].value == a[g].value)
    {
      assert !Below(t, done, g, p) || g == c;
    }
    NodeFrame(t, a, b, latest, n);
    if n > 0 {
      assert LinkOK(t, a, n);
      if Below(t, done, t.parent[n], p) { BelowNeighbours(t, done, t.parent[n], p, n); }
    }
  }

  /** GETS on an entry nobody shares, at a cache that has exclusivity: E. */
  lemma GrantInE(t: Tree, a: Nodes, b: Nodes, latest: nat, p: nat, c: nat)
    requires MayGrant(t, a, latest, p, c, GETS) && a[p].dir.IsEmpty() && Exclusive(a[p].state)
    requires b == Admit(a, p, c, true, E, false)
    ensures GrantDone(t, a, b, latest, p, c)
  {
    WaitingGet(t, a, latest, p, c, GETS);
    assert NodeOK(t, a, latest, p) && NodeOK(t, a, latest, c);
    assert a[p].dir.sharers == {};
    forall n | t.Has(n)
      ensures NodeOK(t, b, latest, n) && (n > 0 ==> LinkOK(t, b, n))
    {
      if n == p {
        if n > 0 { assert LinkOK(t, a, n); }
      } else if n == c {
      } else {
        GrantLeavesAlone(t, a, b, latest, p, c, {}, n);
      }
    }
    QueueKept(t, a, b, c);
  }

  /** A grant preceded by a sweep over the sharers in `done`: m is the hierarchy
      after the sweep; then p's entry becomes d, a returned dirty copy makes p M,
      and c gets the line in state s. */
  ghost predicate Regrant(t: Tree, a: Nodes, m: Nodes, b: Nodes, latest: nat, p: nat, c: nat, kind: InvType,
                          done: set<nat>, d: Entry, s: MESIState, w: bool)
  {
    && Coherent(t, a, latest) && t.Has(p) && 0 < c < |a| && t.parent[c] == p && a[p].state != I
    && done <= a[p].dir.sharers && c !in done
    && Sweeping(t, a, m, latest, p, kind, done, w)
    && b == Admit(m, p, c, d.exclusive, s, w) && b[p].dir == d
    && !Exclusive(a[c].state) && !a[c].dir.IsExclusive() && a[c].present
    // p's own copy
    && m[p].value == latest && (w ==> Exclusive(a[p].state))
    // the new entry against the old one
    && d.Counted() && c in d.sharers && (Exclusive(s) <==> d.IsExclusive()) && s != I
    && (Exclusive(s) ==> Exclusive(a[p].state))
    && (forall k :: k != c ==> (k in d.sharers <==> k in a[p].dir.sharers && (kind == INVX || k !in done)))
    && (forall k :: k in done ==> k < |a| && (kind == INVX ==> Exclusive(a[k].state) && !d.IsExclusive()))
    && (forall k :: k in a[p].dir.sharers && k !in done ==> k == c || (!a[p].dir.IsExclusive() && !d.IsExclusive()))
  }

  lemma {:induction false} RegrantOthers(t: Tree, a: Nodes, m: Nodes, b: Nodes, latest: nat, p: nat, c: nat,
                                         kind: InvType,
                      done: set<nat>, d: Entry, s: MESIState, w: bool, n: nat)
    requires Regrant(t, a, m, b, latest, p, c, kind, done, d, s, w)
    requires t.Has(n) && n != p && n != c
    ensures NodeOK(t, b, latest, n) && (n > 0 ==> LinkOK(t, b, n))
  {
    if Below(t, done, n, p) {
      RegrantSwept(t, a, m, b, latest, p, c, kind, done, d, s, w, n);
    } else {
      BelowOneMore(t, done, c, c, p);
      assert n !in done;
      GrantLeavesAlone(t, a, b, latest, p, c, done, n);
    }
  }

  /** A node that the sweep has passed. */
  lemma RegrantSwept(t: Tree, a: Nodes, m: Nodes, b: Nodes, latest: nat, p: nat, c: nat, kind: InvType,
                     done: set<nat>, d: Entry, s: MESIState, w: bool, n: nat)
    requires Regrant(t, a, m, b, latest, p, c, kind, done, d, s, w)
    requires Below(t, done, n, p)
    ensures n != c && NodeOK(t, b, latest, n) && LinkOK(t, b, n)
  {
    BelowOneMore(t, done, c, c, p);
    assert NodeOK(t, m, latest, n);
    forall g | g in m[n].dir.sharers ensures b[g] == m[g] {
      BelowNeighbours(t, done, n, p, g);
      t.UnderIsAbove(n, p);
    }
    if t.parent[n] == p {
      assert t.Toward(n, p) == n;
    } else {
      BelowNeighbours(t, done, n, p, 0);
      assert t.parent[n] != c;
    }
  }

  lemma RegrantPair(t: Tree, a: Nodes, m: Nodes, b: Nodes, latest: nat, p: nat, c: nat, kind: InvType,
                    done: set<nat>, d: Entry, s: MESIState, w: bool)
    requires Regrant(t, a, m, b, latest, p, c, kind, done, d, s, w)
    ensures NodeOK(t, b, latest, p) && (p > 0 ==> LinkOK(t, b, p))
    ensures NodeOK(t, b, latest, c) && LinkOK(t, b, c)
    ensures b[c] == a[c].(state := s, value := latest)
  {
    BelowOneMore(t, done, c, c, p);
    assert NodeOK(t, a, latest, p) && NodeOK(t, a, latest, c);
    RegrantAbove(t, a, m, b, latest, p, c, kind, done, d, s, w);
  }

  /** p against its own parent. */
  lemma RegrantAbove(t: Tree, a: Nodes, m: Nodes, b: Nodes, latest: nat, p: nat, c: nat, kind: InvType,
                     done: set<nat>, d: Entry, s: MESIState, w: bool)
    requires Regrant(t, a, m, b, latest, p, c, kind, done, d, s, w)
    ensures p > 0 ==> LinkOK(t, b, p)
  {
    if p > 0 {
      assert LinkOK(t, a, p);
      if Below(t, done, t.parent[p], p) { t.UnderIsAbove(t.parent[p], p); }
    }
  }

  lemma RegrantDone(t: Tree, a: Nodes, m: Nodes, b: Nodes, latest: nat, p: nat, c: nat, kind: InvType,
                    done: set<nat>, d: Entry, s: MESIState, w: bool)
    requires Regrant(t, a, m, b, latest, p, c, kind, done, d, s, w)
    requires QueuedExcept(t, a, -1) && a[p].pending.None? && a[c].pending.Waiting?
    requires if a[c].pending.access == GETS then s == S else a[c].pending.access == GETX && s == M
    ensures GrantDone(t, a, b, latest, p, c)
  {
    RegrantPair(t, a, m, b, latest, p, c, kind, done, d, s, w);
    forall n | t.Has(n)
      ensures NodeOK(t, b, latest, n) && (n > 0 ==> LinkOK(t, b, n))
    {
      if n != p && n != c { RegrantOthers(t, a, m, b, latest, p, c, kind, done, d, s, w, n); }
    }
    assert !Below(t, done, 0, p);
    RegrantQueue(t, a, m, b, latest, p, c, kind, done, d, s, w);
  }

  lemma RegrantQueue(t: Tree, a: Nodes, m: Nodes, b: Nodes, latest: nat, p: nat, c: nat, kind: InvType,
                     done: set<nat>, d: Entry, s: MESIState, w: bool)
    requires Regrant(t, a, m, b, latest, p, c, kind, done, d, s, w)
    requires QueuedExcept(t, a, -1) && a[p].pending.None?
    ensures QueuedExcept(t, b, c)
    ensures forall n :: t.Has(n) ==> b[n].pending == a[n].pending && b[n].busy == a[n].busy
  {
    RegrantPair(t, a, m, b, latest, p, c, kind, done, d, s, w);
    assert !Below(t, done, 0, p);
    forall n | t.Has(n) && n != p && n != c
      ensures b[n] == a[n] || Swept(a[n], b[n], kind)
    {
    }
    QueueKept(t, a, b, c);
  }

  /** GETS otherwise: the exclusive sharer, if any, is downgraded and c joins in S. */
  lemma GrantInS(t: Tree, a: Nodes, m: Nodes, b: Nodes, latest: nat, p: nat, c: nat, w: bool)
    requires MayGrant(t, a, latest, p, c, GETS)
    requires SentInvalidates(t, a, m, latest, p, INVX, w)
    requires b == Admit(m, p, c, false, S, w)
    ensures GrantDone(t, a, b, latest, p, c)
  {
    WaitingGet(t, a, latest, p, c, GETS);
    assert m[p].value == latest && (w ==> Exclusive(a[p].state)) by {
      SubtreesOfCoherent(t, a, latest, p);
      CleanSweepFindsCurrent(t, a, m, latest, p, INVX, w);
    }
    assert NodeOK(t, a, latest, p);
    if a[p].dir.IsExclusive() {
      forall k | k in a[p].dir.sharers ensures Exclusive(a[k].state) { assert LinkOK(t, a, k); }
      RegrantDone(t, a, m, b, latest, p, c, INVX, a[p].dir.sharers, b[p].dir, S, w);
    } else {
      SweepStarts(t, a, latest, p, INVX);
      RegrantDone(t, a, m, b, latest, p, c, INVX, {}, b[p].dir, S, w);
    }
  }

  /** GETX: every other copy is dismissed and c gets the line in M.  a is the
      hierarchy before, a' the same with c already taken out of p's entry. */
  lemma GrantInM(t: Tree, a: Nodes, a': Nodes, m: Nodes, b: Nodes, latest: nat, p: nat, c: nat, w: bool)
    requires MayGrant(t, a, latest, p, c, GETX)
    requires a[p].dir.Counted() && a' == if c in a[p].dir.sharers then TakeOut(a, p, c) else a
    requires SentInvalidates(t, a', m, latest, p, INV, w)
    requires b == Admit(m, p, c, true, M, w)
    ensures GrantDone(t, a, b, latest, p, c)
  {
    WaitingGet(t, a, latest, p, c, GETX);
    var done := a'[p].dir.sharers;
    RegrantDone(t, a, m, b, latest, p, c, INV, done, b[p].dir, M, w);
  }

  // ---------------------------------------------------------------------------
  // The other steps
  // ---------------------------------------------------------------------------

  /** Coherence speaks of states, entries, data and presence only. */
  lemma CoherentFrame(t: Tree, a: Nodes, b: Nodes, latest: nat)
    requires Coherent(t, a, latest) && Fits(t, b)
    requires forall n :: t.Has(n) && a[n].present && a[n].state != I ==> b[n].present
    requires forall n :: t.Has(n) ==> b[n].state == a[n].state && b[n].dir == a[n].dir && b[n].value == a[n].value
    ensures Coherent(t, b, latest)
    ensures forall memory: nat :: MemoryOK(a, memory, latest) ==> MemoryOK(b, memory, latest)
  {
    forall n | t.Has(n)
      ensures NodeOK(t, b, latest, n) && (n > 0 ==> LinkOK(t, b, n))
    {
      assert NodeOK(t, a, latest, n);
      if n > 0 { assert LinkOK(t, a, n); }
    }
  }

  /** A granted cache lets go of its request; an evicted line leaves the array. */
  lemma Release(t: Tree, a: Nodes, b: Nodes, latest: nat, c: nat)
    requires Coherent(t, a, latest) && QueuedExcept(t, a, c) && t.Has(c) && Granted(a[c])
    requires c > 0 ==> a[t.parent[c]].busy == Idle
    requires b == a[c := a[c].(pending := None, busy := Idle, present := a[c].present && !a[c].busy.Evicting?)]
    ensures Coherent(t, b, latest) && QueuedExcept(t, b, -1)
    ensures forall memory: nat :: MemoryOK(a, memory, latest) ==> MemoryOK(b, memory, latest)
  {
    CoherentFrame(t, a, b, latest);
    assert BusyOK(t, a, c);
    forall n | t.Has(n)
      ensures BusyOK(t, b, n) && WaitOK(b[n], n == 0)
    {
      assert BusyOK(t, a, n);
      if n != c { assert WaitOK(a[n], n == 0); }
    }
  }

  /** A cache takes up a request it cannot serve alone and sends its own request up. */
  lemma SendUp(t: Tree, a: Nodes, b: Nodes, latest: nat, p: nat, access: AccessType, busy: Busy, noExcl: bool)
    requires Coherent(t, a, latest) && QueuedExcept(t, a, -1) && t.Has(p) && a[p].busy == Idle
    requires b == a[p := a[p].(present := true, pending := Waiting(access, a[p].state, noExcl), busy := busy)]
    requires Issuable(access, a[p].state) && BusyOK(t, b, p)
    ensures Coherent(t, b, latest) && QueuedExcept(t, b, -1)
    ensures forall memory: nat :: MemoryOK(a, memory, latest) ==> MemoryOK(b, memory, latest)
  {
    CoherentFrame(t, a, b, latest);
    assert BusyOK(t, a, p);
    forall n | t.Has(n)
      ensures BusyOK(t, b, n) && WaitOK(b[n], n == 0)
    {
      assert BusyOK(t, a, n) && WaitOK(a[n], n == 0);
    }
  }

  /** The silent E to M transition. */
  lemma SilentUpgrade(t: Tree, a: Nodes, b: Nodes, latest: nat, p: nat)
    requires Coherent(t, a, latest) && QueuedExcept(t, a, -1) && t.Has(p) && a[p].pending.None?
    requires Exclusive(a[p].state) && b == a[p := a[p].(state := M)]
    ensures Coherent(t, b, latest) && QueuedExcept(t, b, -1)
    ensures forall memory: nat :: MemoryOK(a, memory, latest) ==> MemoryOK(b, memory, latest)
  {
    forall n | t.Has(n)
      ensures NodeOK(t, b, latest, n) && (n > 0 ==> LinkOK(t, b, n))
    {
      NodeFrame(t, a, b, latest, n);
      if n > 0 { assert LinkOK(t, a, n); }
    }
    QueueKept(t, a, b, -1);
  }

  /** A core's store: nobody else holds a copy it could miss. */
  lemma StoreKeeps(t: Tree, a: Nodes, b: Nodes, memory: nat, latest: nat, c: nat)
    requires t.Listed() && Inv(t, a, memory, latest) && t.Has(c) && t.children[c] == [] && a[c].state == M
    requires b == a[c := a[c].(value := latest + 1)]
    ensures Inv(t, b, memory, latest + 1)
  {
    forall n | t.Has(n)
      ensures NodeOK(t, b, latest + 1, n) && (n > 0 ==> LinkOK(t, b, n))
    {
      assert NodeOK(t, a, latest, n);
      if n > 0 { assert LinkOK(t, a, n); }
      if n != c && a[n].state != I {
        StoreSeesExclusive(t, a, latest, c, n);
        forall g | g in a[n].dir.sharers ensures a[g].value <= latest {
          assert NodeOK(t, a, latest, g);
        }
      }
    }
    assert NodeOK(t, a, latest, 0);
    RootAbove(t, c);
    AncestorsOfExclusive(t, a, latest, c, 0);
    QueueKept(t, a, b, -1);
  }

  lemma StoreSeesExclusive(t: Tree, a: Nodes, latest: nat, c: nat, n: nat)
    requires t.Listed() && Coherent(t, a, latest) && t.Has(c) && t.children[c] == [] && a[c].state == M
    requires t.Has(n) && n != c && a[n].state != I
    ensures a[n].dir.IsExclusive()
  {
    SingleWriter(t, a, latest, c, n);
    if t.Under(c, n) {
      AncestorsOfExclusive(t, a, latest, c, n);
    } else {
      assert t.ListedBelow(c);
      var x := t.Toward(n, c);
    }
  }

  /** p and c after a PUT: c is out, and a PUTX leaves its data in M at p. */
  function Withdraw(a: Nodes, p: nat, c: nat, put: AccessType): Nodes
    requires p < |a| && c < |a| && a[p].dir.numSharers > 0
  {
    a[p := a[p].(state := if put == PUTX then M else a[p].state,
                 value := if put == PUTX then a[c].value else a[p].value,
                 dir := a[p].dir.(sharers := a[p].dir.sharers - {c}, numSharers := a[p].dir.numSharers - 1))]
     [c := a[c].(state := I)]
  }

  /** A PUT the race check lets through ends at the parent: the sharer leaves,
      and dirty data makes the parent's copy dirty. */
  lemma PutDone(t: Tree, a: Nodes, b: Nodes, latest: nat, p: nat, c: nat, put: AccessType)
    requires Coherent(t, a, latest) && QueuedExcept(t, a, -1) && t.Has(p) && a[p].pending.None?
    requires 0 < c < |a| && t.parent[c] == p
    requires a[c].pending.Waiting? && (a[c].pending.access == PUTS || a[c].pending.access == PUTX)
    requires CheckForMESIRace(a[c].pending.access, a[c].state, a[c].pending.initial) == Proceed(put)
    requires a[p].dir.numSharers > 0
    requires b == Withdraw(a, p, c, put)
    ensures GrantDone(t, a, b, latest, p, c)
  {
    PutFinds(t, a, latest, p, c, put);
    assert NodeOK(t, a, latest, p) && NodeOK(t, a, latest, c) && LinkOK(t, a, c);
    forall n | t.Has(n)
      ensures NodeOK(t, b, latest, n) && (n > 0 ==> LinkOK(t, b, n))
    {
      PutLeaves(t, a, b, latest, p, c, put, n);
    }
    QueueKept(t, a, b, c);
  }

  lemma PutLeaves(t: Tree, a: Nodes, b: Nodes, latest: nat, p: nat, c: nat, put: AccessType, n: nat)
    requires Coherent(t, a, latest) && t.Has(p) && 0 < c < |a| && t.parent[c] == p && t.Has(n)
    requires c in a[p].dir.sharers && a[p].dir.numSharers > 0 && a[p].state != I && b == Withdraw(a, p, c, put)
    requires put == PUTX ==> a[c].state == M && a[p].dir.IsExclusive() && Exclusive(a[p].state)
    requires a[c].dir.sharers == {} && a[c].value == latest && (a[p].dir.IsExclusive() ==> a[p].dir.sharers == {c})
    requires put == PUTX || (a[c].state != M && a[p].value == latest)
    ensures NodeOK(t, b, latest, n) && (n > 0 ==> LinkOK(t, b, n))
  {
    assert NodeOK(t, a, latest, n);
    if n > 0 { assert LinkOK(t, a, n); }
    if n != p && n != c { NodeFrame(t, a, b, latest, n); }
  }

  /** What a PUT finds at the parent: a sharer; for PUTX the exclusive one, in M. */
  lemma PutFinds(t: Tree, a: Nodes, latest: nat, p: nat, c: nat, put: AccessType)
    requires Coherent(t, a, latest) && QueuedExcept(t, a, -1) && t.Has(p)
    requires 0 < c < |a| && t.parent[c] == p
    requires a[c].pending.Waiting? && (a[c].pending.access == PUTS || a[c].pending.access == PUTX)
    requires CheckForMESIRace(a[c].pending.access, a[c].state, a[c].pending.initial) == Proceed(put)
    ensures put == PUTS || put == PUTX
    ensures c in a[p].dir.sharers && a[p].dir.numSharers > 0 && a[p].state != I && a[p].present
    ensures put == PUTX ==> a[c].state == M && a[p].dir.IsExclusive() && Exclusive(a[p].state)
    ensures put == PUTS ==> a[c].state == S || a[c].state == E
    ensures a[c].dir.sharers == {} && a[c].value == latest
    ensures a[p].value == latest || (a[c].state == M && a[p].dir.IsExclusive())
    ensures a[p].dir.IsExclusive() ==> a[p].dir.sharers == {c}
  {
    assert BusyOK(t, a, c) && WaitOK(a[c], false) && LinkOK(t, a, c) && NodeOK(t, a, latest, c)
           && NodeOK(t, a, latest, p);
    assert WaitOK(a[p], p == 0);
    if a[p].dir.IsExclusive() { Singleton(a[p].dir.sharers, c); }
  }

  /** Memory answers the last-level cache. */
  lemma MemoryAnswers(t: Tree, a: Nodes, b: Nodes, memory: nat, latest: nat)
    requires Inv(t, a, memory, latest) && a[0].pending.Waiting?
    requires var access := a[0].pending.access;
             b == a[0 := if access == GETS then a[0].(state := if a[0].pending.noExcl then S else E, value := memory)
                         else if access == GETX then a[0].(state := M, value := memory)
                         else a[0].(state := I)]
    ensures Coherent(t, b, latest) && QueuedExcept(t, b, 0) && Granted(b[0])
    ensures MemoryOK(b, if a[0].pending.access == PUTX then a[0].value else memory, latest)
    ensures a[0].pending.access != PUTX ==> memory == latest
  {
    assert NodeOK(t, a, latest, 0) && BusyOK(t, a, 0) && WaitOK(a[0], true);
    forall c | c in a[0].dir.sharers ensures LinkOK(t, a, c) {
    }
    var root := a[0];
    assert root.value != latest && root.state != I ==> Exclusive(root.state);
    forall n | t.Has(n)
      ensures NodeOK(t, b, latest, n) && (n > 0 ==> LinkOK(t, b, n))
    {
      assert NodeOK(t, a, latest, n);
      if n > 0 { assert LinkOK(t, a, n); NodeFrame(t, a, b, latest, n); }
    }
    QueueKept(t, a, b, 0);
  }

  /** An eviction sweeps everything below n; what comes back dirty makes n dirty. */
  lemma EvictSweep(t: Tree, a: Nodes, m: Nodes, b: Nodes, memory: nat, latest: nat, n: nat, w: bool)
    requires Inv(t, a, memory, latest) && t.Has(n) && a[n].pending.None?
    requires SentInvalidates(t, a, m, latest, n, INV, w)
    requires b == m[n := m[n].(state := if w then M else m[n].state)]
    ensures Inv(t, b, memory, latest) && b[n].pending.None? && b[n].present == a[n].present
    ensures b[n].dir.IsEmpty() && (w ==> Exclusive(a[n].state))
  {
    SubtreesOfCoherent(t, a, latest, n);
    if a[n].state != I { CleanSweepFindsCurrent(t, a, m, latest, n, INV, w); }
    assert NodeOK(t, a, latest, n) && WaitOK(a[n], n == 0);
    assert !Below(t, a[n].dir.sharers, 0, n);
    forall k | t.Has(k)
      ensures NodeOK(t, b, latest, k) && (k > 0 ==> LinkOK(t, b, k))
    {
      EvictLeavesOK(t, a, m, b, latest, n, w, k);
    }
    forall k | t.Has(k) && k != n
      ensures b[k] == a[k] || Swept(a[k], b[k], INV)
    {
    }
    QueueKept(t, a, b, -1);
  }

  lemma {:induction false} EvictLeavesOK(t: Tree, a: Nodes, m: Nodes, b: Nodes, latest: nat, n: nat, w: bool, k: nat)
    requires Coherent(t, a, latest) && t.Has(n) && t.Has(k)
    requires SentInvalidates(t, a, m, latest, n, INV, w)
    requires b == m[n := m[n].(state := if w then M else m[n].state)]
    requires w ==> Exclusive(a[n].state)
    requires a[n].state != I ==> m[n].value == latest && (!w ==> a[n].value == latest)
    ensures NodeOK(t, b, latest, k) && (k > 0 ==> LinkOK(t, b, k))
  {
    var sharers := a[n].dir.sharers;
    assert NodeOK(t, a, latest, k);
    if k > 0 { assert LinkOK(t, a, k); }
    if k == n {
      if k > 0 && Below(t, sharers, t.parent[k], n) { t.UnderIsAbove(t.parent[k], n); }
    } else if Below(t, sharers, k, n) {
      assert NodeOK(t, m, latest, k);
      if t.parent[k] != n { BelowNeighbours(t, sharers, k, n, 0); }
    } else {
      forall g | g in a[k].dir.sharers
        ensures b[g].state == M || (b[g].state == a[g].state && b[g].value == a[g].value)
      {
        assert !Below(t, sharers, g, n);
      }
      NodeFrame(t, a, b, latest, k);
      if k > 0 && t.parent[k] == n { assert t.Under(n, n) && t.Under(k, n) && t.Toward(k, n) == k; }
      if k > 0 && Below(t, sharers, t.parent[k], n) { BelowNeighbours(t, sharers, t.parent[k], n, k); }
    }
  }

  /** After an eviction's sweep nothing is left below n, and n is dirty exactly
      if anything from n down was. */
  lemma EvictEmpties(t: Tree, a: Nodes, m: Nodes, b: Nodes, latest: nat, n: nat, w: bool)
    requires Coherent(t, a, latest) && t.Has(n)
    requires SentInvalidates(t, a, m, latest, n, INV, w)
    requires b == m[n := m[n].(state := if w then M else m[n].state)]
    ensures forall k :: t.Has(k) && k != n && t.Under(k, n) ==> b[k].state == I
    ensures b[n].state == if DirtyUnder(t, a, n) then M else a[n].state
  {
    SubtreesOfCoherent(t, a, latest, n);
    DirtyUnderSharers(t, a, m, latest, n, INV, w);
    forall k | t.Has(k) && k != n && t.Under(k, n) ensures b[k].state == I {
      BelowEntry(t, a, latest, n, k);
    }
  }
}
