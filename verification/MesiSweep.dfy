/** Sweeps of invalidations through a subtree, and the simple form they match. */
module MesiSweep {
  import opened MesiProtocol
  import opened MesiHierarchy

  // ---------------------------------------------------------------------------
  // A sweep of invalidations through a subtree
  // ---------------------------------------------------------------------------

  /** Everything the invariant says inside the subtree of c, leaving out how c
      itself relates to its parent. */
  ghost predicate SubtreeOK(t: Tree, nodes: Nodes, latest: nat, c: nat) {
    && Fits(t, nodes) && t.Has(c)
    && forall n :: t.Has(n) && t.Under(n, c) ==> NodeOK(t, nodes, latest, n) && (n != c ==> LinkOK(t, nodes, n))
  }

  /** The simple form a sweep must match: INV empties every cache it passes,
      INVX takes exclusivity away from every cache it passes. */
  ghost predicate Swept(before: Node, after: Node, kind: InvType) {
    && after.present == before.present && after.pending == before.pending && after.busy == before.busy
    && match kind
       case INV =>
         after.state == I && after.dir.numSharers == 0 && after.dir.sharers == {}
       case INVX =>
         && after.state == Downgraded(before.state)
         && after.dir.numSharers == before.dir.numSharers && after.dir.sharers == before.dir.sharers
         && !after.dir.IsExclusive()
  }

  ghost predicate DirtyUnder(t: Tree, nodes: Nodes, c: nat)
    requires Fits(t, nodes)
  {
    exists n :: t.Has(n) && t.Under(n, c) && nodes[n].state == M
  }

  /** n lies below one of the given children of p. */
  ghost predicate Below(t: Tree, children: set<nat>, n: int, p: nat)
    requires t.WellFormed()
  {
    t.Has(n) && n != p && t.Under(n, p) && t.Toward(n, p) in children
  }

  lemma BelowOneMore(t: Tree, done: set<nat>, c: nat, n: nat, p: nat)
    requires t.WellFormed() && t.Has(p) && t.Has(n) && 0 < c < |t.parent| && t.parent[c] == p && c !in done
    ensures Below(t, done + {c}, n, p) <==> Below(t, done, n, p) || t.Under(n, c)
    ensures t.Under(n, c) ==> !Below(t, done, n, p) && n != p
  {
    if t.Under(n, c) { t.UnderChild(n, c, p); }
  }

  /** The neighbours of a node below p stay below p on the same side. */
  lemma BelowNeighbours(t: Tree, done: set<nat>, n: nat, p: nat, g: nat)
    requires t.WellFormed() && t.Has(p) && Below(t, done, n, p)
    ensures t.parent[n] != p ==> Below(t, done, t.parent[n], p)
    ensures 0 < g < |t.parent| && t.parent[g] == n ==> Below(t, done, g, p)
  {
    t.UnderIsAbove(n, p);
  }

  /** A subtree depends on its own nodes only. */
  lemma SubtreeFrame(t: Tree, a: Nodes, b: Nodes, latest: nat, c: nat)
    requires SubtreeOK(t, a, latest, c) && Fits(t, b)
    requires forall n :: t.Has(n) && t.Under(n, c) ==> b[n] == a[n]
    ensures SubtreeOK(t, b, latest, c)
  {
    forall n | t.Has(n) && t.Under(n, c)
      ensures NodeOK(t, b, latest, n)
      ensures n != c ==> LinkOK(t, b, n)
    {
      assert NodeOK(t, a, latest, n);
      if n != c { assert LinkOK(t, a, n); }
      forall g | g in a[n].dir.sharers ensures b[g] == a[g] {
        assert t.Under(g, c);
      }
    }
  }

  /** The subtree of a child is part of the subtree. */
  lemma SubtreeOfChild(t: Tree, nodes: Nodes, latest: nat, p: nat, c: nat)
    requires SubtreeOK(t, nodes, latest, p)
    requires 0 < c < |nodes| && t.parent[c] == p
    ensures SubtreeOK(t, nodes, latest, c) && LinkOK(t, nodes, c)
  {
    forall n | t.Has(n) && t.Under(n, c)
      ensures t.Under(n, p) && n != p
    {
      t.UnderChild(n, c, p);
    }
    assert t.Under(c, c);
  }

  /** Below a cache without the line nobody has it; below a cache without
      exclusivity nobody has exclusivity. */
  lemma {:induction false} RightsInSubtree(t: Tree, nodes: Nodes, latest: nat, c: nat, n: nat)
    requires SubtreeOK(t, nodes, latest, c) && t.Has(n) && t.Under(n, c)
    ensures nodes[c].state == I ==> nodes[n].state == I && nodes[n].dir.sharers == {}
    ensures !Exclusive(nodes[c].state) ==> !Exclusive(nodes[n].state) && !nodes[n].dir.IsExclusive()
    decreases n
  {
    if n != c {
      RightsInSubtree(t, nodes, latest, c, t.parent[n]);
      assert LinkOK(t, nodes, n);
    }
    assert NodeOK(t, nodes, latest, n);
    t.UnderIsAbove(n, c);
    forall g | g in nodes[n].dir.sharers
      ensures LinkOK(t, nodes, g)
    {
      assert t.Under(g, c);
    }
  }

  /** A sweep started by p, after the children in `done`: their subtrees are
      swept, and nothing else has moved but p's data when a dirty copy came back. */
  ghost predicate Sweeping(t: Tree, a: Nodes, b: Nodes, latest: nat, p: nat, kind: InvType, done: set<nat>,
                           writeback: bool)
    requires Fits(t, a) && t.Has(p)
  {
    && Fits(t, b)
    && (forall n :: t.Has(n) && n != p && !Below(t, done, n, p) ==> b[n] == a[n])
    && (forall n :: Below(t, done, n, p) ==>
          && Swept(a[n], b[n], kind) && NodeOK(t, b, latest, n)
          && (t.parent[n] != p ==> LinkOK(t, b, n)))
    && b[p] == a[p].(value := b[p].value, dir := b[p].dir)
    && (writeback <==> exists c :: c in done && DirtyUnder(t, a, c))
    && (writeback ==> b[p].value == latest && a[p].dir.IsExclusive())
    && (!writeback ==> b[p].value == a[p].value)
    && (!writeback ==> forall c :: c in done ==> c < |a| && a[c].value == latest && a[c].state != M)
  }

  /** What sendInvalidates on p leaves: a downgrade stops at an entry that is not
      exclusive; otherwise the subtrees of all sharers are swept. */
  ghost predicate SentInvalidates(t: Tree, a: Nodes, b: Nodes, latest: nat, p: nat, kind: InvType, writeback: bool)
    requires Fits(t, a) && t.Has(p)
  {
    match kind
    case INV =>
      && Sweeping(t, a, b, latest, p, INV, a[p].dir.sharers, writeback)
      && b[p].dir == a[p].dir.(numSharers := 0, sharers := {})
    case INVX =>
      if a[p].dir.IsExclusive() then
        && Sweeping(t, a, b, latest, p, INVX, a[p].dir.sharers, writeback)
        && b[p].dir == a[p].dir.(exclusive := false)
      else
        b == a && !writeback
  }

  /** What invalidating c leaves. */
  ghost predicate Invalidated(t: Tree, a: Nodes, b: Nodes, latest: nat, c: nat, kind: InvType, writeback: bool)
    requires Fits(t, a) && t.Has(c)
  {
    && SubtreeOK(t, b, latest, c)
    && (forall n :: t.Has(n) && !t.Under(n, c) ==> b[n] == a[n])
    && (forall n :: t.Has(n) && t.Under(n, c) ==> Swept(a[n], b[n], kind))
    && b[c].value == latest
    && (writeback <==> DirtyUnder(t, a, c))
    && (writeback ==> Exclusive(a[c].state))
    && (!writeback ==> a[c].value == latest && a[c].state != M)
  }

  lemma DirtyUnderFrame(t: Tree, a: Nodes, b: Nodes, c: nat)
    requires Fits(t, a) && Fits(t, b)
    requires forall n :: t.Has(n) && t.Under(n, c) ==> b[n] == a[n]
    ensures DirtyUnder(t, a, c) <==> DirtyUnder(t, b, c)
  {
  }

  /** One more child swept: l and m are the hierarchy around its invalidation, b
      once p has taken note. */
  lemma SweepStep(t: Tree, a: Nodes, l: Nodes, m: Nodes, b: Nodes, latest: nat, p: nat, kind: InvType,
                  done: set<nat>, c: nat, before: bool, w: bool)
    requires Fits(t, a) && t.Has(p) && 0 < c < |a| && t.parent[c] == p && c !in done
    requires Sweeping(t, a, l, latest, p, kind, done, before)
    requires Exclusive(a[c].state) <==> a[p].dir.IsExclusive()
    requires forall n :: t.Has(n) && t.Under(n, c) ==> l[n] == a[n]
    requires Invalidated(t, l, m, latest, c, kind, w)
    requires Fits(t, b) && (forall n :: t.Has(n) && n != p ==> b[n] == m[n])
    requires b[p] == m[p].(value := if w then m[c].value else m[p].value, dir := b[p].dir)
    ensures Sweeping(t, a, b, latest, p, kind, done + {c}, before || w)
  {
    BelowOneMore(t, done, c, p, p);
    DirtyUnderFrame(t, a, l, c);
    forall n | t.Has(n) && n != p && !Below(t, done + {c}, n, p) ensures b[n] == a[n] {
      BelowOneMore(t, done, c, n, p);
    }
    forall n | Below(t, done + {c}, n, p)
      ensures Swept(a[n], b[n], kind) && NodeOK(t, b, latest, n)
      ensures t.parent[n] != p ==> LinkOK(t, b, n)
    {
      BelowOneMore(t, done, c, n, p);
      if t.Under(n, c) {
        SweptStaysOK(t, m, b, latest, c, n);
      } else {
        VisitedStaysOK(t, a, l, b, latest, p, kind, done, c, before, n);
      }
    }
  }

  lemma SweptStaysOK(t: Tree, m: Nodes, b: Nodes, latest: nat, c: nat, n: nat)
    requires SubtreeOK(t, m, latest, c) && t.Has(n) && t.Under(n, c) && Fits(t, b) && c > 0
    requires forall k :: t.Has(k) && k != t.parent[c] ==> b[k] == m[k]
    ensures NodeOK(t, b, latest, n) && b[n] == m[n]
    ensures n != c ==> LinkOK(t, b, n)
  {
    forall k | t.Has(k) && t.Under(k, c) ensures b[k] == m[k] {
      t.UnderIsAbove(k, c);
    }
    SubtreeFrame(t, m, b, latest, c);
  }

  lemma VisitedStaysOK(t: Tree, a: Nodes, l: Nodes, b: Nodes, latest: nat, p: nat, kind: InvType,
                       done: set<nat>, c: nat, before: bool, n: nat)
    requires Fits(t, a) && t.Has(p) && 0 < c < |a| && t.parent[c] == p && c !in done && Fits(t, b)
    requires Sweeping(t, a, l, latest, p, kind, done, before)
    requires forall k :: t.Has(k) && k != p && !t.Under(k, c) ==> b[k] == l[k]
    requires Below(t, done, n, p)
    ensures b[n] == l[n] && NodeOK(t, b, latest, n)
    ensures t.parent[n] != p ==> LinkOK(t, b, n)
  {
    BelowOneMore(t, done, c, n, p);
    assert NodeOK(t, l, latest, n);
    forall g | g in l[n].dir.sharers ensures b[g] == l[g] {
      BelowNeighbours(t, done, n, p, g);
      BelowOneMore(t, done, c, g, p);
    }
    if t.parent[n] != p {
      assert LinkOK(t, l, n);
      BelowNeighbours(t, done, n, p, 0);
      BelowOneMore(t, done, c, t.parent[n], p);
    }
  }

  lemma SweepStarts(t: Tree, a: Nodes, latest: nat, p: nat, kind: InvType)
    requires Fits(t, a) && t.Has(p)
    ensures Sweeping(t, a, a, latest, p, kind, {}, false)
    ensures a[p].dir.Counted() && a[p].dir.IsEmpty() ==> SentInvalidates(t, a, a, latest, p, kind, false)
  {
    assert a[p].dir.Counted() && a[p].dir.IsEmpty() ==> a[p].dir.sharers == {};
  }

  /** What p writes into its own entry does not touch what has been swept. */
  lemma SweepEntry(t: Tree, a: Nodes, b: Nodes, b': Nodes, latest: nat, p: nat, kind: InvType, done: set<nat>,
                   writeback: bool)
    requires Fits(t, a) && t.Has(p)
    requires Sweeping(t, a, b, latest, p, kind, done, writeback)
    requires |b'| == |b| && b' == b[p := b[p].(dir := b'[p].dir)]
    ensures Sweeping(t, a, b', latest, p, kind, done, writeback)
    ensures done == a[p].dir.sharers && (kind == INVX ==> a[p].dir.IsExclusive())
            && b'[p].dir == (if kind == INV then a[p].dir.(numSharers := 0, sharers := {})
                             else a[p].dir.(exclusive := false)) ==>
              SentInvalidates(t, a, b', latest, p, kind, writeback)
  {
    forall n | Below(t, done, n, p)
      ensures NodeOK(t, b', latest, n)
      ensures t.parent[n] != p ==> LinkOK(t, b', n)
    {
      t.UnderIsAbove(n, p);
      assert NodeOK(t, b, latest, n);
      if t.parent[n] != p { assert LinkOK(t, b, n); }
    }
  }

  lemma MinusOneMore(s: set<nat>, done: set<nat>, c: nat)
    requires c !in done
    ensures s - done - {c} == s - (done + {c})
    ensures |done + {c}| == |done| + 1
  {
  }

  /** Outside the subtrees of its sharers, a cache has nothing below it; and if
      its entry is not exclusive, nothing below it is. */
  lemma BelowEntry(t: Tree, a: Nodes, latest: nat, c: nat, n: nat)
    requires SubtreeOK(t, a, latest, c) && t.Has(n) && n != c && t.Under(n, c)
    ensures !Below(t, a[c].dir.sharers, n, c) ==> a[n].state == I && a[n].dir.sharers == {} && a[n].dir.numSharers == 0
    ensures !a[c].dir.IsExclusive() ==> !Exclusive(a[n].state) && !a[n].dir.IsExclusive()
  {
    var ch := t.Toward(n, c);
    t.UnderIsAbove(ch, c);
    assert t.Under(ch, c) && ch != c && LinkOK(t, a, ch) && NodeOK(t, a, latest, n);
    SubtreeOfChild(t, a, latest, c, ch);
    RightsInSubtree(t, a, latest, ch, n);
  }

  /** If no dirty copy comes back from the sharers, c was up to date. */
  lemma CleanSweepFindsCurrent(t: Tree, a: Nodes, m: Nodes, latest: nat, c: nat, kind: InvType, w: bool)
    requires SubtreeOK(t, a, latest, c) && a[c].state != I
    requires SentInvalidates(t, a, m, latest, c, kind, w)
    ensures m[c].value == latest && (!w ==> a[c].value == latest)
    ensures w ==> Exclusive(a[c].state)
  {
    assert t.Under(c, c) && NodeOK(t, a, latest, c);
    if a[c].dir.IsExclusive() {
      var g :| g in a[c].dir.sharers;
      assert t.Under(g, c) && g != c && LinkOK(t, a, g);
    }
  }

  lemma DirtyUnderSharers(t: Tree, a: Nodes, m: Nodes, latest: nat, c: nat, kind: InvType, w: bool)
    requires SubtreeOK(t, a, latest, c)
    requires SentInvalidates(t, a, m, latest, c, kind, w)
    ensures w || a[c].state == M <==> DirtyUnder(t, a, c)
  {
    assert NodeOK(t, a, latest, c) by { assert t.Under(c, c); }
    if w {
      var ch :| ch in a[c].dir.sharers && DirtyUnder(t, a, ch);
      var n :| t.Has(n) && t.Under(n, ch) && a[n].state == M;
      t.UnderChild(n, ch, c);
    } else if DirtyUnder(t, a, c) {
      var n :| t.Has(n) && t.Under(n, c) && a[n].state == M;
      if n != c {
        BelowEntry(t, a, latest, c, n);
        assert DirtyUnder(t, a, t.Toward(n, c));
      }
    } else if a[c].state == M {
      assert t.Under(c, c);
    }
  }

  /** A cache whose entry is empty has nothing dirty below it. */
  lemma DirtyAtEmpty(t: Tree, a: Nodes, latest: nat, p: nat)
    requires SubtreeOK(t, a, latest, p) && a[p].dir.IsEmpty()
    ensures DirtyUnder(t, a, p) <==> a[p].state == M
  {
    assert t.Under(p, p) && NodeOK(t, a, latest, p);
    SweepStarts(t, a, latest, p, INV);
    DirtyUnderSharers(t, a, a, latest, p, INV, false);
  }

  lemma SweepLeavesNodeOK(t: Tree, a: Nodes, m: Nodes, b: Nodes, latest: nat, c: nat, kind: InvType, w: bool, n: nat)
    requires SubtreeOK(t, a, latest, c) && a[c].state != I && (kind == INVX ==> Exclusive(a[c].state))
    requires SentInvalidates(t, a, m, latest, c, kind, w)
    requires b == m[c := m[c].(state := if kind == INV then I else S)]
    requires t.Has(n) && n != c && t.Under(n, c)
    ensures Swept(a[n], b[n], kind) && NodeOK(t, b, latest, n) && LinkOK(t, b, n)
  {
    BelowEntry(t, a, latest, c, n);
    assert NodeOK(t, a, latest, n) && LinkOK(t, a, n);
    t.UnderIsAbove(n, c);
    if kind == INVX && !a[c].dir.IsExclusive() {
      assert b[n] == a[n];
    } else if Below(t, a[c].dir.sharers, n, c) {
      assert NodeOK(t, m, latest, n);
    } else {
      assert b[n] == a[n];
      if t.parent[n] != c { BelowEntry(t, a, latest, c, t.parent[n]); }
    }
  }

  /** A sweep of all sharers plus c's own bottom controller is the invalidation of c. */
  lemma SweepIsInvalidation(t: Tree, a: Nodes, m: Nodes, b: Nodes, latest: nat, c: nat, kind: InvType, w: bool)
    requires SubtreeOK(t, a, latest, c) && a[c].state != I && (kind == INVX ==> Exclusive(a[c].state))
    requires SentInvalidates(t, a, m, latest, c, kind, w)
    requires b == m[c := m[c].(state := if kind == INV then I else S)]
    ensures Invalidated(t, a, b, latest, c, kind, w || a[c].state == M)
  {
    CleanSweepFindsCurrent(t, a, m, latest, c, kind, w);
    DirtyUnderSharers(t, a, m, latest, c, kind, w);
    assert NodeOK(t, a, latest, c) by { assert t.Under(c, c); }
    forall n | t.Has(n) && n != c && t.Under(n, c)
      ensures Swept(a[n], b[n], kind) && NodeOK(t, b, latest, n) && LinkOK(t, b, n)
    {
      SweepLeavesNodeOK(t, a, m, b, latest, c, kind, w, n);
    }
    assert NodeOK(t, b, latest, c);
  }

  /** `done` holds the sharers among the first i children of p. */
  ghost predicate FirstSharers(t: Tree, sharers: set<nat>, p: nat, i: nat, done: set<nat>)
    requires t.WellFormed() && t.Has(p) && i <= |t.children[p]|
  {
    forall c :: c in done <==> c in sharers && c in t.children[p][..i]
  }

  lemma FirstSharersStep(t: Tree, sharers: set<nat>, p: nat, i: nat, done: set<nat>)
    requires t.Listed() && t.Has(p) && i < |t.children[p]|
    requires FirstSharers(t, sharers, p, i, done)
    ensures t.children[p][i] !in done
    ensures FirstSharers(t, sharers, p, i + 1, if t.children[p][i] in sharers then done + {t.children[p][i]} else done)
    ensures p < t.children[p][i] < |t.parent| && t.parent[t.children[p][i]] == p
  {
    assert t.ListedBelow(p);
    assert t.children[p][i] in t.children[p];
    assert t.children[p][..i + 1] == t.children[p][..i] + [t.children[p][i]];
  }

  lemma FirstSharersAll(t: Tree, sharers: set<nat>, p: nat, done: set<nat>)
    requires t.Listed() && t.Has(p)
    requires forall c :: c in sharers ==> 0 < c < |t.parent| && t.parent[c] == p
    requires FirstSharers(t, sharers, p, |t.children[p]|, done)
    ensures done == sharers
  {
    assert t.ListedBelow(p);
    assert t.children[p][..|t.children[p]|] == t.children[p];
  }

  /** What sendInvalidates is called on: an entry whose sharers hold the line,
      exclusively just when the entry says so. */
  ghost predicate Sweepable(t: Tree, nodes: Nodes, latest: nat, p: nat) {
    && Fits(t, nodes) && t.Has(p) && EntryOK(t, nodes, p)
    && forall c :: c in nodes[p].dir.sharers ==> SharerOK(t, nodes, latest, p, c)
  }

  ghost predicate SharerOK(t: Tree, nodes: Nodes, latest: nat, p: nat, c: nat)
    requires Fits(t, nodes) && t.Has(p)
  {
    && 0 < c < |nodes| && t.parent[c] == p
    && nodes[c].state != I && (Exclusive(nodes[c].state) <==> nodes[p].dir.IsExclusive())
    && SubtreeOK(t, nodes, latest, c)
  }
}
