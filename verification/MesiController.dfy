/** The top and bottom controllers at work on the hierarchy. */
module MesiController {
  import opened MesiProtocol
  import opened MesiHierarchy
  import opened MesiSweep
  import opened MesiSteps

  class Hierarchy {
    const tree: Tree
    var nodes: Nodes
    var memory: nat
    var latest: nat

    ghost predicate Valid()
      reads this
    {
      tree.Listed() && Inv(tree, nodes, memory, latest)
    }

    /** MESITopCC::sendInvalidates. */
    method SendInvalidates(p: nat, kind: InvType) returns (writeback: bool)
      requires tree.Listed() && Sweepable(tree, nodes, latest, p)
      modifies this`nodes
      decreases |tree.parent| - p, 2
      ensures SentInvalidates(tree, old(nodes), nodes, latest, p, kind, writeback)
    {
      writeback := false;
      if kind == INVX && !nodes[p].dir.IsExclusive() {
        return;
      }
      SweepStarts(tree, nodes, latest, p, kind);
      if !nodes[p].dir.IsEmpty() {
        var sentInvs;
        writeback, sentInvs := VisitSharers(p, kind);
        assert sentInvs == nodes[p].dir.numSharers;
        ghost var l := nodes;
        if kind == INV {
          nodes := nodes[p := nodes[p].(dir := nodes[p].dir.(numSharers := 0))];
        } else {
          assert nodes[p].dir.exclusive && nodes[p].dir.numSharers == 1;
          nodes := nodes[p := nodes[p].(dir := nodes[p].dir.(exclusive := false))];
        }
        SweepEntry(tree, old(nodes), l, nodes, latest, p, kind, old(nodes[p].dir.sharers), writeback);
      }
    }

    /** The loop over the children in sendInvalidates. */
    method VisitSharers(p: nat, kind: InvType) returns (writeback: bool, sentInvs: nat)
      requires tree.Listed() && Sweepable(tree, nodes, latest, p) && (kind == INVX ==> nodes[p].dir.IsExclusive())
      modifies this`nodes
      decreases |tree.parent| - p, 1
      ensures Sweeping(tree, old(nodes), nodes, latest, p, kind, old(nodes[p].dir.sharers), writeback)
      ensures nodes[p].dir == old(nodes[p].dir).(sharers := if kind == INV then {} else old(nodes[p].dir.sharers))
      ensures sentInvs == |old(nodes[p].dir.sharers)|
    {
      writeback, sentInvs := false, 0;
      ghost var s0 := nodes;
      ghost var sharers := nodes[p].dir.sharers;
      SweepStarts(tree, s0, latest, p, kind);
      var i := 0;
      ghost var done: set<nat> := {};
      while i < |tree.children[p]|
        invariant 0 <= i <= |tree.children[p]|
        invariant FirstSharers(tree, sharers, p, i, done)
        invariant Sweeping(tree, s0, nodes, latest, p, kind, done, writeback)
        invariant nodes[p].dir == s0[p].dir.(sharers := if kind == INV then sharers - done else sharers)
        invariant sentInvs == |done|
      {
        writeback, sentInvs, done := VisitChild(p, i, kind, s0, sharers, done, writeback, sentInvs);
        i := i + 1;
      }
      FirstSharersAll(tree, sharers, p, done);
    }

    /** One round of that loop: child i is invalidated if it is a sharer. */
    method VisitChild(p: nat, i: nat, kind: InvType, ghost s0: Nodes, ghost sharers: set<nat>, ghost done: set<nat>,
                      writeback: bool, sentInvs: nat)
      returns (writeback': bool, sentInvs': nat, ghost done': set<nat>)
      requires tree.Listed() && Sweepable(tree, s0, latest, p) && sharers == s0[p].dir.sharers && i < |tree.children[p]|
      requires kind == INVX ==> s0[p].dir.IsExclusive()
      requires FirstSharers(tree, sharers, p, i, done) && Sweeping(tree, s0, nodes, latest, p, kind, done, writeback)
      requires nodes[p].dir == s0[p].dir.(sharers := if kind == INV then sharers - done else sharers)
               && sentInvs == |done|
      modifies this`nodes
      decreases |tree.parent| - p, 0
      ensures FirstSharers(tree, sharers, p, i + 1, done')
              && Sweeping(tree, s0, nodes, latest, p, kind, done', writeback')
      ensures nodes[p].dir == s0[p].dir.(sharers := if kind == INV then sharers - done' else sharers)
              && sentInvs' == |done'|
    {
      writeback', sentInvs', done' := writeback, sentInvs, done;
      var c := tree.children[p][i];
      FirstSharersStep(tree, sharers, p, i, done);
      if c in nodes[p].dir.sharers {
        var w := InvalidateSharer(p, c, kind, s0, done, writeback);
        MinusOneMore(sharers, done, c);
        writeback', sentInvs', done' := writeback || w, sentInvs + 1, done + {c};
      }
    }

    /** The body of the loop in sendInvalidates, for one sharer. */
    method InvalidateSharer(p: nat, c: nat, kind: InvType, ghost s0: Nodes, ghost done: set<nat>, ghost before: bool)
      returns (w: bool)
      requires tree.Listed() && Fits(tree, s0) && tree.Has(p)
      requires Sweeping(tree, s0, nodes, latest, p, kind, done, before)
      requires SharerOK(tree, s0, latest, p, c) && c !in done
      requires kind == INVX ==> s0[p].dir.IsExclusive()
      modifies this`nodes
      decreases |tree.parent| - c, 4
      ensures Sweeping(tree, s0, nodes, latest, p, kind, done + {c}, before || w)
      ensures nodes[p].dir == if kind == INV then old(nodes[p].dir).(sharers := old(nodes[p].dir.sharers) - {c})
                              else old(nodes[p].dir)
    {
      ghost var l := nodes;
      forall n | tree.Has(n) && tree.Under(n, c) ensures nodes[n] == s0[n] {
        BelowOneMore(tree, done, c, n, p);
      }
      BelowOneMore(tree, done, c, c, p);
      BelowOneMore(tree, done, c, p, p);
      SubtreeFrame(tree, s0, nodes, latest, c);
      w := Invalidate(c, kind);
      ghost var m := nodes;
      if w {
        nodes := nodes[p := nodes[p].(value := nodes[c].value)];
      }
      if kind == INV {
        nodes := nodes[p := nodes[p].(dir := nodes[p].dir.(sharers := nodes[p].dir.sharers - {c}))];
      }
      SweepStep(tree, s0, l, m, nodes, latest, p, kind, done, c, before, w);
    }

    /** Cache::invalidate, with MESICC::processInv or MESITerminalCC::processInv. */
    method Invalidate(c: nat, kind: InvType) returns (writeback: bool)
      requires tree.Listed() && SubtreeOK(tree, nodes, latest, c)
      requires nodes[c].state != I && (kind == INVX ==> Exclusive(nodes[c].state))
      modifies this`nodes
      decreases |tree.parent| - c, 3
      ensures old(nodes[c].present) && Invalidated(tree, old(nodes), nodes, latest, c, kind, writeback)
    {
      assert tree.Under(c, c) && NodeOK(tree, nodes, latest, c);
      // The line is found in the array
      assert nodes[c].present;
      forall g | g in nodes[c].dir.sharers
        ensures SharerOK(tree, nodes, latest, c, g)
      {
        assert tree.Under(c, c);
        SubtreeOfChild(tree, nodes, latest, c, g);
      }
      ghost var s0 := nodes;
      writeback := SendInvalidates(c, kind);
      ghost var m, w := nodes, writeback;
      if nodes[c].state == M {
        writeback := true;
      }
      nodes := nodes[c := nodes[c].(state := if kind == INV then I else S)];
      SweepIsInvalidation(tree, s0, m, nodes, latest, c, kind, w);
    }

    // -------------------------------------------------------------------------
    // Accesses
    // -------------------------------------------------------------------------

    /** MESITopCC::processAccess on a GET from child c, with processWritebackOnAccess. */
    method Grant(p: nat, c: nat)
      requires tree.Listed() && c < |nodes| && nodes[c].pending.Waiting?
      requires MayGrant(tree, nodes, latest, p, c, nodes[c].pending.access)
      modifies this`nodes
      ensures Fits(tree, old(nodes)) && GrantDone(tree, old(nodes), nodes, latest, p, c)
      // the induced write-back: p ends up in M just if anything was dirty at p or below
      ensures nodes[p].state == M <==> DirtyUnder(tree, old(nodes), p)
    {
      if nodes[c].pending.access == GETX {
        GrantGetx(p, c);
      } else if nodes[p].dir.IsEmpty() && Exclusive(nodes[p].state) && !nodes[c].pending.noExcl {
        nodes := Admit(nodes, p, c, true, E, false);
        GrantInE(tree, old(nodes), nodes, latest, p, c);
        SubtreesOfCoherent(tree, old(nodes), latest, p);
        DirtyAtEmpty(tree, old(nodes), latest, p);
      } else {
        GrantGets(p, c);
      }
    }

    method GrantGets(p: nat, c: nat)
      requires tree.Listed() && MayGrant(tree, nodes, latest, p, c, GETS)
      modifies this`nodes
      ensures Fits(tree, old(nodes)) && GrantDone(tree, old(nodes), nodes, latest, p, c)
      ensures nodes[p].state == M <==> DirtyUnder(tree, old(nodes), p)
    {
      ghost var a := nodes;
      BeforeGets(tree, nodes, latest, p, c);
      assert c !in nodes[p].dir.sharers;
      var w := SendInvalidates(p, INVX);
      ghost var m := nodes;
      assert !nodes[p].dir.IsExclusive();
      nodes := Admit(nodes, p, c, false, S, w);
      GrantInS(tree, a, m, nodes, latest, p, c, w);
      SubtreesOfCoherent(tree, a, latest, p);
      DirtyUnderSharers(tree, a, m, latest, p, INVX, w);
    }

    method GrantGetx(p: nat, c: nat)
      requires tree.Listed() && MayGrant(tree, nodes, latest, p, c, GETX)
      modifies this`nodes
      ensures Fits(tree, old(nodes)) && GrantDone(tree, old(nodes), nodes, latest, p, c)
      ensures nodes[p].state == M && DirtyUnder(tree, old(nodes), p)
    {
      ghost var a := nodes;
      assert tree.Under(p, p);
      BeforeGetx(tree, nodes, latest, p, c);
      if c in nodes[p].dir.sharers {
        assert !nodes[p].dir.IsExclusive();
        nodes := TakeOut(nodes, p, c);
      }
      ghost var a' := nodes;
      var w := SendInvalidates(p, INV);
      ghost var m := nodes;
      nodes := Admit(nodes, p, c, true, M, w);
      assert nodes[p].dir.numSharers == 1;
      GrantInM(tree, a, a', m, nodes, latest, p, c, w);
    }

    /** The way back down from a grant: a cache that waited on behalf of a child
        serves it; a core completes; an evicted line leaves the array.  A load
        that completes returns the value it sees. */
    method Finish(c: nat) returns (loaded: Loaded)
      requires tree.Listed() && Coherent(tree, nodes, latest) && MemoryOK(nodes, memory, latest)
      requires tree.Has(c) && QueuedExcept(tree, nodes, c) && Granted(nodes[c])
      requires c > 0 ==> nodes[tree.parent[c]].busy == Idle
      modifies this`nodes, this`latest
      decreases |tree.parent| - c
      ensures Valid() && Served(old(nodes[c].pending.access), loaded, old(latest), latest)
      ensures nodes[c].pending == None && (old(nodes[c].busy).Evicting? ==> !nodes[c].present)
      ensures forall n :: 0 <= n < c ==>
                nodes[n].pending == old(nodes)[n].pending && nodes[n].busy == old(nodes)[n].busy
    {
      loaded := Nothing;
      ghost var a := nodes;
      assert BusyOK(tree, nodes, c);
      var busy, access := nodes[c].busy, nodes[c].pending.access;
      nodes := nodes[c := nodes[c].(pending := None, busy := Idle, present := nodes[c].present && !busy.Evicting?)];
      Release(tree, a, nodes, latest, c);
      match busy {
        case Core(_) =>
          if access == GETX {
            Store(c);
          } else {
            TerminalCopyIsCurrent(tree, nodes, latest, c);
            loaded := Value(nodes[c].value);
          }
        case Serving(g, _) =>
          Grant(c, g);
          loaded := Finish(g);
        case _ =>
      }
    }

    method Store(c: nat)
      requires Valid() && tree.Has(c) && tree.children[c] == [] && nodes[c].state == M
      modifies this`nodes, this`latest
      ensures Valid() && latest == old(latest) + 1
      ensures nodes == old(nodes)[c := old(nodes)[c].(value := latest)]
    {
      ghost var a := nodes;
      nodes := nodes[c := nodes[c].(value := latest + 1)];
      StoreKeeps(tree, a, nodes, memory, latest, c);
      latest := latest + 1;
    }

    /** The parent of c (or memory) takes up c's waiting request:
        MESICC::startAccess and processAccess, Cache::access. */
    method Deliver(c: nat) returns (loaded: Loaded)
      requires Valid() && tree.Has(c) && nodes[c].pending.Waiting?
      requires c > 0 ==> nodes[tree.parent[c]].busy == Idle
      modifies this`nodes, this`memory, this`latest
      ensures Valid()
      // taken up and completed, down to the core that asked; or passed on upward
      ensures || (nodes[c].pending == None && Served(old(nodes[c].pending.access), loaded, old(latest), latest))
              || (&& c > 0 && loaded == Nothing && latest == old(latest)
                  && Forwarded(old(nodes), nodes, tree.parent[c], c))
      ensures old(nodes[c].busy).Evicting? ==> nodes[c].pending == None && !nodes[c].present
    {
      assert WaitOK(nodes[c], c == 0);
      if c == 0 {
        loaded := AnswerFromMemory();
        return;
      }
      var p := tree.parent[c];
      assert BusyOK(tree, nodes, p);
      match CheckForMESIRace(nodes[c].pending.access, nodes[c].state, nodes[c].pending.initial) {
        case Panic =>
          assert false;
          loaded := Nothing;
        case Skip =>
          loaded := Finish(c);
        case Proceed(access) =>
          if access == PUTS || access == PUTX {
            loaded := AcceptPut(p, c, access);
          } else if access == GETX && Exclusive(nodes[p].state) {
            nodes := nodes[p := nodes[p].(state := M)];
            SilentUpgrade(tree, old(nodes), nodes, latest, p);
            Grant(p, c);
            loaded := Finish(c);
          } else if access == GETS && nodes[p].state != I {
            Grant(p, c);
            loaded := Finish(c);
          } else {
            assert Issuable(access, nodes[p].state);
            nodes := nodes[p := nodes[p].(present := true, pending :=
                Waiting(access, nodes[p].state, nodes[c].pending.noExcl),
                                          busy := Serving(c, access))];
            SendUp(tree, old(nodes), nodes, latest, p, access, Serving(c, access), nodes[c].pending.noExcl);
            loaded := Nothing;
          }
      }
    }

    /** A PUT never goes further than the parent. */
    method AcceptPut(p: nat, c: nat, put: AccessType) returns (loaded: Loaded)
      requires Valid() && tree.Has(c) && c > 0 && tree.parent[c] == p && nodes[p].busy == Idle
      requires nodes[c].pending.Waiting? && (nodes[c].pending.access == PUTS || nodes[c].pending.access == PUTX)
      requires CheckForMESIRace(nodes[c].pending.access, nodes[c].state, nodes[c].pending.initial) == Proceed(put)
      modifies this`nodes, this`latest
      ensures Valid() && Served(PUTS, loaded, old(latest), latest)
      ensures nodes[c].pending == None && !nodes[c].present
    {
      ghost var a := nodes;
      assert BusyOK(tree, nodes, p) && BusyOK(tree, nodes, c);
      PutFinds(tree, nodes, latest, p, c, put);
      assert nodes[p].present;
      assert put == PUTX ==> Exclusive(nodes[p].state) && nodes[p].dir.IsExclusive();
      nodes := Withdraw(nodes, p, c, put);
      PutDone(tree, a, nodes, latest, p, c, put);
      loaded := Finish(c);
    }

    /** MemoryController::access, as far as the last-level cache can see. */
    method AnswerFromMemory() returns (loaded: Loaded)
      requires Valid() && nodes[0].pending.Waiting?
      modifies this`nodes, this`memory, this`latest
      ensures Valid() && Served(old(nodes[0].pending.access), loaded, old(latest), latest)
      ensures nodes[0].pending == None && (old(nodes[0].busy).Evicting? ==> !nodes[0].present)
    {
      ghost var a := nodes;
      MemoryAnswers(tree, nodes, nodes[0 := Answered(nodes[0], memory)], memory, latest);
      if nodes[0].pending.access == PUTX {
        memory := nodes[0].value;
      }
      nodes := nodes[0 := Answered(nodes[0], memory)];
      loaded := Finish(0);
    }

    /** A core's load or store reaching its terminal cache. */
    method CoreAccess(c: nat, access: AccessType, noExcl: bool) returns (loaded: Loaded)
      requires Valid() && tree.Has(c) && tree.children[c] == [] && nodes[c].busy == Idle
      requires access == GETS || access == GETX
      modifies this`nodes, this`latest
      ensures Valid()
      // a hit completes on the spot; a miss waits for the parent
      ensures if nodes[c].pending == None then Served(access, loaded, old(latest), latest)
              else
                && loaded == Nothing && latest == old(latest)
                && nodes == old(nodes)[c :=
                     old(nodes)[c].(present := true, pending := Waiting(access, old(nodes)[c].state, noExcl),
                                                           busy := Core(access))]
      ensures nodes[c].pending == None <==>
              old(nodes[c].state) != I && (access == GETX ==> Exclusive(old(nodes[c].state)))
    {
      loaded := Nothing;
      assert BusyOK(tree, nodes, c) && WaitOK(nodes[c], c == 0);
      if access == GETS && nodes[c].state != I {
        TerminalCopyIsCurrent(tree, nodes, latest, c);
        loaded := Value(nodes[c].value);
      } else if access == GETX && Exclusive(nodes[c].state) {
        nodes := nodes[c := nodes[c].(state := M)];
        SilentUpgrade(tree, old(nodes), nodes, latest, c);
        Store(c);
      } else {
        nodes := nodes[c := nodes[c].(present := true, pending := Waiting(access, nodes[c].state, noExcl), busy :=
            Core(access))];
        SendUp(tree, old(nodes), nodes, latest, c, access, Core(access), noExcl);
      }
    }

    /** A cache evicts the line: MESICC::processEviction or MESITerminalCC::processEviction. */
    method Evict(n: nat)
      requires Valid() && tree.Has(n) && nodes[n].busy == Idle && nodes[n].present
      modifies this`nodes
      ensures Valid()
      // nothing stays below; what was dirty anywhere below goes up as a PUTX
      ensures forall k :: tree.Has(k) && k != n && tree.Under(k, n) ==> nodes[k].state == I
      ensures if DirtyUnder(tree, old(nodes), n) then nodes[n].pending == Waiting(PUTX, M, false)
              else if old(nodes[n].state) == I then nodes[n].pending == None && !nodes[n].present
              else nodes[n].pending == Waiting(PUTS, old(nodes[n].state), false)
    {
      ghost var a := nodes;
      assert BusyOK(tree, nodes, n);
      SubtreesOfCoherent(tree, nodes, latest, n);
      var w := SendInvalidates(n, INV);
      ghost var m := nodes;
      nodes := nodes[n := nodes[n].(state := if w then M else nodes[n].state)];
      EvictSweep(tree, a, m, nodes, memory, latest, n, w);
      EvictEmpties(tree, a, m, nodes, latest, n, w);
      Leave(n);
    }

    /** The bottom half of an eviction: a PUT goes up unless the line is invalid. */
    method Leave(n: nat)
      requires Valid() && tree.Has(n) && nodes[n].pending.None? && nodes[n].present && nodes[n].dir.IsEmpty()
      modifies this`nodes
      ensures Valid() && |nodes| == |old(nodes)|
      ensures forall k :: tree.Has(k) ==> nodes[k].state == old(nodes)[k].state
      ensures if old(nodes[n].state) == I then nodes[n].pending == None && !nodes[n].present
              else
                var put := if old(nodes[n].state) == M then PUTX else PUTS;
                nodes[n].pending == Waiting(put, old(nodes[n].state), false)
    {
      ghost var a := nodes;
      assert BusyOK(tree, nodes, n);
      if nodes[n].state == I {
        nodes := nodes[n := nodes[n].(present := false)];
        CoherentFrame(tree, a, nodes, latest);
        forall k | tree.Has(k)
          ensures BusyOK(tree, nodes, k) && WaitOK(nodes[k], k == 0)
        {
          assert BusyOK(tree, a, k) && WaitOK(a[k], k == 0);
        }
      } else {
        var put := if nodes[n].state == M then PUTX else PUTS;
        nodes := nodes[n := nodes[n].(present := true, pending := Waiting(put, nodes[n].state, false), busy :=
            Evicting)];
        SendUp(tree, a, nodes, latest, n, put, Evicting, false);
      }
    }

    constructor (t: Tree)
      requires t.Listed()
      ensures Valid() && tree == t && latest == memory == 0 && |nodes| == |t.parent|
      ensures forall n :: t.Has(n) ==> nodes[n] == Empty
    {
      tree := t;
      nodes := seq(|t.parent|, _ => Empty);
      memory, latest := 0, 0;
      new;
      assert forall n :: t.Has(n) ==>
               NodeOK(tree, nodes, latest, n) && BusyOK(tree, nodes, n) && WaitOK(nodes[n], n == 0);
      assert forall n :: 0 < n < |nodes| ==> LinkOK(tree, nodes, n);
    }
  }

  const Empty := Node(I, Entry(0, {}, false), false, 0, None, Idle)

  /** The last-level cache's view once memory has answered. */
  function Answered(root: Node, memory: nat): Node
    requires root.pending.Waiting?
  {
    match root.pending.access
    case GETS => root.(state := if root.pending.noExcl then S else E, value := memory)
    case GETX => root.(state := M, value := memory)
    case _ => root.(state := I)
  }

  datatype Loaded = Nothing | Value(value: nat)

  /** What the core sees of a completed request: a load returns the last value
      stored, a store becomes the last value stored, a PUT changes neither. */
  ghost predicate Served(access: AccessType, loaded: Loaded, before: nat, after: nat) {
    match access
    case GETS => loaded == Value(before) && after == before
    case GETX => loaded == Nothing && after == before + 1
    case _ => loaded == Nothing && after == before
  }

  /** p could not serve c by itself and now waits in its place. */
  ghost predicate Forwarded(a: Nodes, b: Nodes, p: nat, c: nat)
    requires p < |a| && c < |a|
  {
    && a[c].pending.Waiting?
    && b == a[p := a[p].(present := true, pending := Waiting(a[c].pending.access, a[p].state, a[c].pending.noExcl),
                         busy := Serving(c, a[c].pending.access))]
  }

  // ---------------------------------------------------------------------------
  // Whole runs
  // ---------------------------------------------------------------------------

  datatype Step =
    | Load(core: nat, noExcl: bool)
    | Write(core: nat)
    | TakeUp(child: nat)
    | Replace(cache: nat)

  /** Any tree, any schedule of core accesses, deliveries and evictions (steps
      that are not possible when their turn comes are passed over): the invariant
      holds at the end, and every completed load returned the value of the last
      store completed before it. */
  method Run(t: Tree, schedule: seq<Step>) returns (nodes: Nodes, memory: nat, stores: nat, loads: seq<(nat, nat)>)
    requires t.Listed()
    ensures Inv(t, nodes, memory, stores)
    ensures forall i :: 0 <= i < |loads| ==> loads[i].0 == loads[i].1
  {
    var h := new Hierarchy(t);
    loads := [];
    for k := 0 to |schedule|
      invariant h.Valid() && h.tree == t
      invariant forall i :: 0 <= i < |loads| ==> loads[i].0 == loads[i].1
    {
      var loaded := Nothing;
      match schedule[k] {
        case Load(c, noExcl) =>
          if t.Has(c) && t.children[c] == [] && h.nodes[c].busy == Idle {
            loaded := h.CoreAccess(c, GETS, noExcl);
          }
        case Write(c) =>
          if t.Has(c) && t.children[c] == [] && h.nodes[c].busy == Idle {
            loaded := h.CoreAccess(c, GETX, false);
          }
        case TakeUp(c) =>
          if t.Has(c) && h.nodes[c].pending.Waiting? && (c > 0 ==> h.nodes[t.parent[c]].busy == Idle) {
            loaded := h.Deliver(c);
          }
        case Replace(n) =>
          if t.Has(n) && h.nodes[n].busy == Idle && h.nodes[n].present {
            h.Evict(n);
          }
      }
      if loaded.Value? {
        loads := loads + [(loaded.value, h.latest)];
      }
    }
    nodes, memory, stores := h.nodes, h.memory, h.latest;
  }
}
