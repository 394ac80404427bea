/** The instruction window of the out-of-order core: two arrays of H cycles that
    rotate, and an ordered map for bookings further ahead.  Together they stand
    for one map from cycles to the ports booked in them. */
module Windows {

  /** The ports occupied in a cycle, and how many uops were scheduled into it. */
  datatype WinCycle = WinCycle(occUnits: set<nat>, count: nat)

  const Free := WinCycle({}, 0)

  type Slots = seq<WinCycle>

  /** The map for cycles beyond both arrays, in key order. */
  type Unbounded = seq<(nat, WinCycle)>

  // ---------------------------------------------------------------------------
  // The unbounded part
  // ---------------------------------------------------------------------------

  ghost predicate Precedes(ub: Unbounded, i: int, j: int) {
    0 <= i < j < |ub| ==> ub[i].0 < ub[j].0
  }

  ghost predicate Sorted(ub: Unbounded) {
    forall i, j {:trigger Precedes(ub, i, j)} :: Precedes(ub, i, j)
  }

  lemma Ascending(ub: Unbounded)
    requires Sorted(ub)
    ensures forall i, j :: 0 <= i < j < |ub| ==> ub[i].0 < ub[j].0
  {
    forall i, j | 0 <= i < j < |ub| ensures ub[i].0 < ub[j].0 { assert Precedes(ub, i, j); }
  }

  lemma SortedPart(ub: Unbounded, from: nat, to: nat)
    requires Sorted(ub) && from <= to <= |ub|
    ensures Sorted(ub[from..to])
  {
    var part := ub[from..to];
    forall i: int, j: int ensures Precedes(part, i, j) {
      var i', j' := from + i, from + j;
      assert Precedes(ub, i', j');
    }
  }

  lemma SortedRest(ub: Unbounded, from: nat)
    requires Sorted(ub) && from <= |ub|
    ensures Sorted(ub[from..])
  {
    SortedPart(ub, from, |ub|);
    assert ub[from..|ub|] == ub[from..];
  }

  lemma SortedUpdated(ub: Unbounded, k: nat, e: (nat, WinCycle))
    requires Sorted(ub) && k < |ub| && ub[k].0 == e.0
    ensures Sorted(ub[k := e])
  {
    var ub' := ub[k := e];
    forall i: int, j: int ensures Precedes(ub', i, j) { assert Precedes(ub, i, j); }
  }

  lemma SortedInserted(ub: Unbounded, k: nat, e: (nat, WinCycle))
    requires Sorted(ub) && k <= |ub|
    requires (forall j :: 0 <= j < k ==> ub[j].0 < e.0) && (forall j :: k <= j < |ub| ==> ub[j].0 > e.0)
    ensures Sorted(ub[..k] + [e] + ub[k..])
  {
    var ub' := ub[..k] + [e] + ub[k..];
    forall i: int, j: int ensures Precedes(ub', i, j) {
      var i', j' := if i < k then i else i - 1, if j < k then j else j - 1;
      assert Precedes(ub, i', j');
    }
  }

  ghost function Find(ub: Unbounded, c: nat): WinCycle {
    if ub == [] then Free else if ub[0].0 == c then ub[0].1 else Find(ub[1..], c)
  }

  lemma {:induction false} FindAt(ub: Unbounded, i: nat)
    requires Sorted(ub) && i < |ub|
    ensures Find(ub, ub[i].0) == ub[i].1
  {
    if i > 0 {
      SortedRest(ub, 1);
      FindAt(ub[1..], i - 1);
      assert Precedes(ub, 0, i);
    }
  }

  lemma {:induction false} FindNone(ub: Unbounded, c: nat)
    requires forall i :: 0 <= i < |ub| ==> ub[i].0 != c
    ensures Find(ub, c) == Free
  {
    if ub != [] { FindNone(ub[1..], c); }
  }

  /** Two maps agree at c if they have the same entry, or none. */
  lemma FindSame(a: Unbounded, b: Unbounded, c: nat)
    requires Sorted(a) && Sorted(b)
    requires forall i :: 0 <= i < |a| && a[i].0 == c ==> a[i] in b
    requires forall j :: 0 <= j < |b| && b[j].0 == c ==> b[j] in a
    ensures Find(a, c) == Find(b, c)
  {
    if i :| 0 <= i < |a| && a[i].0 == c {
      var j :| 0 <= j < |b| && b[j] == a[i];
      FindAt(a, i);
      FindAt(b, j);
    } else {
      FindNone(a, c);
      FindNone(b, c);
    }
  }

  lemma {:induction false} FindPrefix(ub: Unbounded, k: nat, c: nat)
    requires k <= |ub| && forall i :: k <= i < |ub| ==> ub[i].0 != c
    ensures Find(ub[..k], c) == Find(ub, c)
  {
    if k == 0 {
      FindNone(ub, c);
    } else {
      assert ub[..k][1..] == ub[1..][..k - 1];
      FindPrefix(ub[1..], k - 1, c);
    }
  }

  lemma {:induction false} FindSuffix(ub: Unbounded, k: nat, c: nat)
    requires k <= |ub| && forall i :: 0 <= i < k ==> ub[i].0 != c
    ensures Find(ub[k..], c) == Find(ub, c)
  {
    if k > 0 {
      assert ub[k..] == ub[1..][k - 1..];
      FindSuffix(ub[1..], k - 1, c);
    }
  }

  /** The first d entries lie before the bound. */
  ghost predicate Split(ub: Unbounded, d: nat, bound: nat) {
    d <= |ub| && Sorted(ub) && forall i :: 0 <= i < d ==> ub[i].0 < bound
  }

  // ---------------------------------------------------------------------------
  // Counting uops
  // ---------------------------------------------------------------------------

  ghost function Total(s: Slots): nat {
    if s == [] then 0 else s[0].count + Total(s[1..])
  }

  ghost function Values(ub: Unbounded): Slots {
    seq(|ub|, i requires 0 <= i < |ub| => ub[i].1)
  }

  lemma {:induction false} TotalConcat(a: Slots, b: Slots)
    ensures Total(a + b) == Total(a) + Total(b)
  {
    if a == [] {
      assert a + b == b;
    } else {
      TotalConcat(a[1..], b);
      assert (a + b)[1..] == a[1..] + b;
    }
  }

  lemma TotalUpdate(s: Slots, i: nat, w: WinCycle)
    requires i < |s|
    ensures Total(s[i := w]) == Total(s) - s[i].count + w.count
  {
    assert s == s[..i] + ([s[i]] + s[i + 1..]);
    assert s[i := w] == s[..i] + ([w] + s[i + 1..]);
    TotalConcat(s[..i], [s[i]] + s[i + 1..]);
    TotalConcat(s[..i], [w] + s[i + 1..]);
    assert ([s[i]] + s[i + 1..])[1..] == s[i + 1..] == ([w] + s[i + 1..])[1..];
  }

  lemma TotalInsert(ub: Unbounded, i: nat, e: (nat, WinCycle))
    requires i <= |ub|
    ensures Total(Values(ub[..i] + [e] + ub[i..])) == Total(Values(ub)) + e.1.count
  {
    var v, x := Values(ub), [e.1];
    assert Values(ub[..i] + [e] + ub[i..]) == v[..i] + (x + v[i..]);
    assert v == v[..i] + v[i..];
    TotalConcat(v[..i], v[i..]);
    TotalConcat(v[..i], x + v[i..]);
    TotalConcat(x, v[i..]);
    assert x[1..] == [];
  }

  /** If any uop is counted, some slot counts one. */
  lemma {:induction false} TotalWitness(s: Slots) returns (i: nat)
    requires Total(s) > 0
    ensures i < |s| && s[i].count > 0
  {
    if s[0].count > 0 {
      i := 0;
    } else {
      i := TotalWitness(s[1..]);
      i := i + 1;
    }
  }

  lemma {:induction false} TotalFree(s: Slots)
    requires forall i :: 0 <= i < |s| ==> s[i] == Free
    ensures Total(s) == 0
  {
    if s != [] { TotalFree(s[1..]); }
  }

  // ---------------------------------------------------------------------------
  // One map
  // ---------------------------------------------------------------------------

  /** The bookings of cycle c; `base` is the cycle of curWin[0]. */
  ghost function At(curWin: Slots, nextWin: Slots, ub: Unbounded, base: nat, c: nat): WinCycle {
    if c < base then Free
    else if c - base < |curWin| then curWin[c - base]
    else if c - base - |curWin| < |nextWin| then nextWin[c - base - |curWin|]
    else Find(ub, c)
  }

  /** The three parts fit together, and occupancy counts the uops in them. */
  ghost predicate RepOK(h: nat, curWin: Slots, nextWin: Slots, ub: Unbounded, curPos: nat, base: nat, occupancy: nat) {
    && |curWin| == |nextWin| == h && curPos < h
    && (forall i :: 0 <= i < curPos ==> curWin[i] == Free)
    && Sorted(ub)
    && (forall i :: 0 <= i < |ub| ==> ub[i].0 >= base + 2 * h && ub[i].1 != Free)
    && occupancy == Total(curWin) + Total(nextWin) + Total(Values(ub))
  }

  /** Some future cycle holds a counted uop, if any is counted. */
  lemma FutureUop(h: nat, curWin: Slots, nextWin: Slots, ub: Unbounded, curPos: nat, base: nat, occupancy: nat)
      returns (c: nat)
    requires RepOK(h, curWin, nextWin, ub, curPos, base, occupancy) && occupancy > 0
    ensures c >= base + curPos && At(curWin, nextWin, ub, base, c).count > 0
  {
    if Total(curWin) > 0 {
      var i := TotalWitness(curWin);
      c := base + i;
    } else if Total(nextWin) > 0 {
      var i := TotalWitness(nextWin);
      c := base + h + i;
    } else {
      var i := TotalWitness(Values(ub));
      c := ub[i].0;
      FindAt(ub, i);
    }
  }

  /** Advancing within the array forgets the current cycle and nothing else. */
  lemma AdvanceInside(h: nat, curWin: Slots, nextWin: Slots, ub: Unbounded, curPos: nat, base: nat, occupancy: nat)
    requires RepOK(h, curWin, nextWin, ub, curPos, base, occupancy)
    ensures curWin[curPos].count <= occupancy
    ensures curPos + 1 < h ==>
              RepOK(h, curWin[curPos := Free], nextWin, ub, curPos + 1, base, occupancy - curWin[curPos].count)
    ensures forall c: nat :: c > base + curPos ==>
              At(curWin[curPos := Free], nextWin, ub, base, c) == At(curWin, nextWin, ub, base, c)
  {
    TotalUpdate(curWin, curPos, Free);
  }

  /** A rebase after k moves from the unbounded part: the fresh array holds what
      its first k entries book. */
  ghost predicate Rebasing(h: nat, filled: Slots, ub: Unbounded, base: nat, k: nat) {
    && |filled| == h && k <= |ub|
    && (forall p :: 0 <= p < h ==> filled[p] == Find(ub[..k], base + h + p))
    && Total(filled) == Total(Values(ub[..k]))
  }

  lemma RebaseStep(h: nat, filled: Slots, ub: Unbounded, base: nat, k: nat)
    requires Rebasing(h, filled, ub, base, k) && Sorted(ub) && k < |ub|
    requires base + h <= ub[k].0 < base + 2 * h
    ensures Rebasing(h, filled[ub[k].0 - base - h := ub[k].1], ub, base, k + 1)
  {
    var p, s := ub[k].0 - base - h, ub[..k + 1];
    Ascending(ub);
    FindNone(ub[..k], ub[k].0);
    assert filled[p] == Free;
    TotalUpdate(filled, p, ub[k].1);
    assert Values(s) == Values(ub[..k]) + [ub[k].1];
    TotalConcat(Values(ub[..k]), [ub[k].1]);
    assert [ub[k].1][1..] == [];
    assert s[..k] == ub[..k];
    SortedPart(ub, 0, k + 1);
    assert ub[0..k + 1] == s;
    FindAt(s, k);
    forall q | 0 <= q < h && q != p ensures filled[q] == Find(s, base + h + q) {
      FindPrefix(s, k, base + h + q);
    }
  }

  /** After a rebase the arrays and the map stand for the same bookings. */
  lemma RebaseKeeps(h: nat, prev: Slots, nextWin: Slots, filled: Slots, ub: Unbounded, base: nat, k: nat,
                    occupancy: nat)
    requires |prev| == |nextWin| == h > 0 && h <= base && Sorted(ub)
    requires Rebasing(h, filled, ub, base, k)
    requires forall i :: 0 <= i < |ub| ==> (ub[i].0 < base + 2 * h <==> i < k) && ub[i].1 != Free
    requires occupancy == Total(nextWin) + Total(Values(ub))
    ensures RepOK(h, nextWin, filled, ub[k..], 0, base, occupancy)
    ensures forall c: nat :: c >= base ==> At(nextWin, filled, ub[k..], base, c) == At(prev, nextWin, ub, base - h, c)
  {
    assert Values(ub) == Values(ub[..k]) + Values(ub[k..]);
    TotalConcat(Values(ub[..k]), Values(ub[k..]));
    SortedRest(ub, k);
    forall c: nat | c >= base
      ensures At(nextWin, filled, ub[k..], base, c) == At(prev, nextWin, ub, base - h, c)
    {
      if c >= base + 2 * h {
        FindSuffix(ub, k, c);
      } else {
        FindPrefix(ub, k, c);
        if c >= base + h {
          assert filled[c - base - h] == Find(ub[..k], base + h + (c - base - h));
        }
      }
    }
  }

  // ---------------------------------------------------------------------------
  // Booking
  // ---------------------------------------------------------------------------

  predicate Available(w: WinCycle, portMask: set<nat>) {
    portMask - w.occUnits != {}
  }

  /** The booking made in a cycle: a uop takes the lowest available port and is
      counted; a shadow request occupies its ports and is not. */
  ghost predicate Booked(before: WinCycle, after: WinCycle, portMask: set<nat>, counted: bool, port: nat) {
    if counted then
      && port in portMask && port !in before.occUnits
      && (forall p :: p in portMask && p !in before.occUnits ==> port <= p)
      && after == WinCycle(before.occUnits + {port}, before.count + 1)
    else
      after == WinCycle(before.occUnits + portMask, before.count)
  }

  lemma BookCur(h: nat, curWin: Slots, nextWin: Slots, ub: Unbounded, curPos: nat, base: nat, occupancy: nat, p: nat,
                w: WinCycle)
    requires RepOK(h, curWin, nextWin, ub, curPos, base, occupancy)
    requires curPos <= p < h && w.count >= curWin[p].count
    ensures RepOK(h, curWin[p := w], nextWin, ub, curPos, base, occupancy + w.count - curWin[p].count)
    ensures forall c: nat :: At(curWin[p := w], nextWin, ub, base, c) == if c == base + p then w
            else At(curWin, nextWin, ub, base, c)
  {
    TotalUpdate(curWin, p, w);
    forall c: nat
      ensures At(curWin[p := w], nextWin, ub, base, c) == if c == base + p then w else At(curWin, nextWin, ub, base, c)
    {
      assert c == base + p ==> c - base == p;
    }
  }

  lemma BookNext(h: nat, curWin: Slots, nextWin: Slots, ub: Unbounded, curPos: nat, base: nat, occupancy: nat, p: nat,
                 w: WinCycle)
    requires RepOK(h, curWin, nextWin, ub, curPos, base, occupancy)
    requires p < h && w.count >= nextWin[p].count
    ensures RepOK(h, curWin, nextWin[p := w], ub, curPos, base, occupancy + w.count - nextWin[p].count)
    ensures forall c: nat :: At(curWin, nextWin[p := w], ub, base, c) == if c == base + h + p then w
            else At(curWin, nextWin, ub, base, c)
  {
    TotalUpdate(nextWin, p, w);
    forall c: nat
      ensures At(curWin, nextWin[p := w], ub, base, c) == if c == base + h + p then w
              else At(curWin, nextWin, ub, base, c)
    {
      assert c == base + h + p ==> c - base - h == p;
    }
  }

  lemma BookOld(h: nat, curWin: Slots, nextWin: Slots, ub: Unbounded, curPos: nat, base: nat, occupancy: nat, i: nat,
                w: WinCycle)
    requires RepOK(h, curWin, nextWin, ub, curPos, base, occupancy)
    requires i < |ub| && w.count >= ub[i].1.count && w != Free
    ensures var ub' := ub[i := (ub[i].0, w)];
            && RepOK(h, curWin, nextWin, ub', curPos, base, occupancy + w.count - ub[i].1.count)
            && forall c: nat :: At(curWin, nextWin, ub', base, c) == if c == ub[i].0 then w
                 else At(curWin, nextWin, ub, base, c)
  {
    var ub' := ub[i := (ub[i].0, w)];
    SortedUpdated(ub, i, (ub[i].0, w));
    assert Values(ub') == Values(ub)[i := w];
    TotalUpdate(Values(ub), i, w);
    forall c: nat ensures Find(ub', c) == if c == ub[i].0 then w else Find(ub, c) {
      if c == ub[i].0 { FindAt(ub', i); } else { ChangedElsewhere(ub, ub', i, c); }
    }
  }

  lemma ChangedElsewhere(ub: Unbounded, ub': Unbounded, i: nat, c: nat)
    requires Sorted(ub) && Sorted(ub') && i < |ub| == |ub'| && ub' == ub[i := ub'[i]]
    requires ub[i].0 != c && ub'[i].0 != c
    ensures Find(ub', c) == Find(ub, c)
  {
    forall k | 0 <= k < |ub| && ub[k].0 == c ensures ub[k] in ub' {
      assert ub'[k] == ub[k];
    }
    forall k | 0 <= k < |ub'| && ub'[k].0 == c ensures ub'[k] in ub {
      assert ub'[k] == ub[k];
    }
    FindSame(ub, ub', c);
  }

  lemma {:induction false} FindInserted(ub: Unbounded, i: nat, e: (nat, WinCycle), c: nat)
    requires i <= |ub| && forall j :: 0 <= j < |ub| ==> ub[j].0 != e.0
    ensures Find(ub[..i] + [e] + ub[i..], c) == if c == e.0 then e.1 else Find(ub, c)
  {
    var all := ub[..i] + [e] + ub[i..];
    if i == 0 {
      assert all[1..] == ub;
    } else {
      assert all[1..] == ub[1..][..i - 1] + [e] + ub[1..][i - 1..];
      FindInserted(ub[1..], i - 1, e, c);
    }
  }

  lemma BookNew(h: nat, curWin: Slots, nextWin: Slots, ub: Unbounded, curPos: nat, base: nat, occupancy: nat, i: nat,
                k: nat, w: WinCycle)
    requires RepOK(h, curWin, nextWin, ub, curPos, base, occupancy)
    requires i <= |ub| && k >= base + 2 * h && w != Free
    requires (forall j :: 0 <= j < i ==> ub[j].0 < k) && (forall j :: i <= j < |ub| ==> ub[j].0 > k)
    ensures At(curWin, nextWin, ub, base, k) == Free
    ensures var ub' := ub[..i] + [(k, w)] + ub[i..];
            && RepOK(h, curWin, nextWin, ub', curPos, base, occupancy + w.count)
            && forall c: nat :: At(curWin, nextWin, ub', base, c) == if c == k then w
                 else At(curWin, nextWin, ub, base, c)
  {
    var ub' := ub[..i] + [(k, w)] + ub[i..];
    SortedInserted(ub, i, (k, w));
    FindNone(ub, k);
    TotalInsert(ub, i, (k, w));
    forall c: nat ensures Find(ub', c) == if c == k then w else Find(ub, c) {
      FindInserted(ub, i, (k, w), c);
    }
  }

  function Max(a: nat, b: nat): nat {
    if a > b then a else b
  }

  /** Port masks are bytes. */
  ghost predicate Ports(mask: set<nat>) {
    forall p :: p in mask ==> p < 8
  }

  /** trySchedule: fails, changing nothing, if no port of the mask is available. */
  method TrySchedule(w: WinCycle, portMask: set<nat>, counted: bool) returns (ok: bool, after: WinCycle, port: nat)
    requires Ports(portMask)
    ensures ok <==> Available(w, portMask)
    ensures ok ==> Booked(w, after, portMask, counted, port)
    ensures !ok ==> after == w
  {
    port := 0;
    ok := portMask - w.occUnits != {};
    if counted {
      if ok {
        while port !in portMask || port in w.occUnits
          invariant exists p :: p in portMask && p !in w.occUnits && port <= p
          invariant forall p :: p in portMask && p !in w.occUnits ==> port <= p
          decreases 8 - port
        {
          port := port + 1;
        }
        after := WinCycle(w.occUnits + {port}, w.count + 1);
      } else {
        after := w;
      }
    } else {
      after := WinCycle(w.occUnits + portMask, w.count);
      if !ok {
        assert forall p :: p in portMask - w.occUnits <==> p in portMask && p !in w.occUnits;
        assert w.occUnits + portMask == w.occUnits;
      }
    }
  }

  /** The loop that moves bookings within reach out of the unbounded part.  It fails on
      a booking for a cycle that the second array does not cover. */
  method MoveIn(h: nat, nextWin: Slots, ub: Unbounded, ghost d: nat, curCycle: nat)
      returns (ok: bool, filled: Slots, it: nat)
    requires |nextWin| == h && forall i :: 0 <= i < h ==> nextWin[i] == Free
    requires Split(ub, d, curCycle + h) && forall i :: d <= i < |ub| ==> ub[i].0 >= curCycle + h
    ensures ok <==> d == 0
    ensures ok ==> Rebasing(h, filled, ub, curCycle, it)
    ensures ok ==> forall i :: 0 <= i < |ub| ==> (ub[i].0 < curCycle + 2 * h <==> i < it)
  {
    TotalFree(nextWin);
    Ascending(ub);
    assert Values(ub[..0]) == [];
    var nextWinHorizon := curCycle + 2 * h;
    ok, filled, it := true, nextWin, 0;
    while it < |ub| && ub[it].0 < nextWinHorizon
      invariant 0 <= it <= |ub| && forall i :: 0 <= i < it ==> ub[i].0 < nextWinHorizon
      invariant Rebasing(h, filled, ub, curCycle, it) && (it > 0 ==> d == 0)
      decreases |ub| - it
    {
      var nextWinPos := ub[it].0 - h - curCycle;
      if !(0 <= nextWinPos < h) {
        ok := false;
        return;
      }
      RebaseStep(h, filled, ub, curCycle, it);
      filled := filled[nextWinPos := ub[it].1];
      it := it + 1;
    }
  }

  /** The search through one of the arrays. */
  method Scan(win: Slots, from: nat, portMask: set<nat>, counted: bool) returns (pos: nat, after: WinCycle, port: nat)
    requires Ports(portMask)
    ensures pos >= from && (from >= |win| ==> pos == from) && (from < |win| ==> pos <= |win|)
    ensures forall i :: from <= i < pos && i < |win| ==> !Available(win[i], portMask)
    ensures pos < |win| ==> Available(win[pos], portMask) && Booked(win[pos], after, portMask, counted, port)
  {
    pos, after, port := from, Free, 0;
    while pos < |win|
      invariant pos >= from && (from >= |win| ==> pos == from) && (from < |win| ==> pos <= |win|)
      invariant forall i :: from <= i < pos && i < |win| ==> !Available(win[i], portMask)
    {
      var ok;
      ok, after, port := TrySchedule(win[pos], portMask, counted);
      if ok { return; }
      pos := pos + 1;
    }
  }

  /** The search through the unbounded part from `cycle` on: it ends at the entry
      `it` for the cycle found, or at the place where one is to be inserted. */
  method ScanUnbounded(ub: Unbounded, from: nat, portMask: set<nat>, counted: bool)
      returns (cycle: nat, it: nat, after: WinCycle, port: nat)
    requires Sorted(ub) && Ports(portMask) && portMask != {}
    ensures cycle >= from && it <= |ub|
    ensures forall c: nat :: from <= c < cycle ==> !Available(Find(ub, c), portMask)
    ensures forall j :: 0 <= j < |ub| ==> (j < it <==> ub[j].0 < cycle)
    ensures Available(Find(ub, cycle), portMask) && Booked(Find(ub, cycle), after, portMask, counted, port)
  {
    Ascending(ub);
    it := 0;
    while it < |ub| && ub[it].0 < from
      invariant it <= |ub| && forall j :: 0 <= j < it ==> ub[j].0 < from
    {
      it := it + 1;
    }
    cycle := from;
    while it < |ub| && ub[it].0 == cycle
      invariant cycle >= from && it <= |ub|
      invariant forall c: nat :: from <= c < cycle ==> !Available(Find(ub, c), portMask)
      invariant forall j :: 0 <= j < |ub| ==> (j < it <==> ub[j].0 < cycle)
      decreases |ub| - it
    {
      FindAt(ub, it);
      var ok;
      ok, after, port := TrySchedule(ub[it].1, portMask, counted);
      if ok { return; }
      it := it + 1;
      cycle := cycle + 1;
    }
    FindNone(ub, cycle);
    var success;
    success, after, port := TrySchedule(Free, portMask, counted);
    assert success;
  }

  /** What a scan of one of the arrays has passed over, in terms of cycles. */
  lemma ScannedCur(curWin: Slots, nextWin: Slots, ub: Unbounded, base: nat, portMask: set<nat>, from: nat, pos: nat)
    requires forall i :: from <= i < pos && i < |curWin| ==> !Available(curWin[i], portMask)
    ensures forall c: nat :: base + from <= c < base + pos && c < base + |curWin| ==>
              !Available(At(curWin, nextWin, ub, base, c), portMask)
  {
    forall c: nat | base + from <= c < base + pos && c < base + |curWin|
      ensures !Available(At(curWin, nextWin, ub, base, c), portMask)
    {
      assert !Available(curWin[c - base], portMask);
    }
  }

  lemma ScannedNext(curWin: Slots, nextWin: Slots, ub: Unbounded, base: nat, portMask: set<nat>, from: nat, pos: nat)
    requires forall i :: from <= i < pos && i < |nextWin| ==> !Available(nextWin[i], portMask)
    ensures forall c: nat :: base + |curWin| + from <= c < base + |curWin| + pos && c < base + |curWin| + |nextWin| ==>
              !Available(At(curWin, nextWin, ub, base, c), portMask)
  {
    forall c: nat | base + |curWin| + from <= c < base + |curWin| + pos && c < base + |curWin| + |nextWin|
      ensures !Available(At(curWin, nextWin, ub, base, c), portMask)
    {
      assert !Available(nextWin[c - base - |curWin|], portMask);
    }
  }

  /** The search, as seen from the entries that are not before the bound. */
  method ScanRest(ub: Unbounded, ghost d: nat, ghost bound: nat, from: nat, portMask: set<nat>, counted: bool)
      returns (cycle: nat, it: nat, after: WinCycle, port: nat)
    requires Split(ub, d, bound) && from >= bound && Ports(portMask) && portMask != {}
    ensures cycle >= from && d <= it <= |ub|
    ensures forall c: nat :: from <= c < cycle ==> !Available(Find(ub[d..], c), portMask)
    ensures forall j :: 0 <= j < |ub| ==> (j < it <==> ub[j].0 < cycle)
    ensures Available(Find(ub[d..], cycle), portMask) && Booked(Find(ub[d..], cycle), after, portMask, counted, port)
  {
    cycle, it, after, port := ScanUnbounded(ub, from, portMask, counted);
    if d > 0 { assert ub[d - 1].0 < cycle; }
    forall c: nat | from <= c <= cycle ensures Find(ub[d..], c) == Find(ub, c) { FindSuffix(ub, d, c); }
  }

  lemma RestUpdated(ub: Unbounded, d: nat, bound: nat, it: nat, e: (nat, WinCycle))
    requires Split(ub, d, bound) && d <= it < |ub| && ub[it].0 == e.0
    ensures Split(ub[it := e], d, bound) && ub[it := e][d..] == ub[d..][it - d := e]
  {
    SortedUpdated(ub, it, e);
  }

  lemma RestInserted(ub: Unbounded, d: nat, bound: nat, it: nat, e: (nat, WinCycle))
    requires Split(ub, d, bound) && d <= it <= |ub|
    requires (forall j :: 0 <= j < it ==> ub[j].0 < e.0) && (forall j :: it <= j < |ub| ==> ub[j].0 > e.0)
    ensures var ub' := ub[..it] + [e] + ub[it..];
            Split(ub', d, bound) && ub'[d..] == ub[d..][..it - d] + [e] + ub[d..][it - d..]
  {
    SortedInserted(ub, it, e);
  }

  /** The unbounded part with the entry of a cycle changed, or made at place it. */
  function Entered(ub: Unbounded, it: nat, cycle: nat, w: WinCycle): Unbounded
    requires it <= |ub|
  {
    if it < |ub| && ub[it].0 == cycle then ub[it := (cycle, w)] else ub[..it] + [(cycle, w)] + ub[it..]
  }

  lemma BookBeyond(h: nat, curWin: Slots, nextWin: Slots, ub: Unbounded, d: nat, curPos: nat, base: nat,
                   occupancy: nat, it: nat, cycle: nat, w: WinCycle)
    requires Split(ub, d, base + 2 * h) && RepOK(h, curWin, nextWin, ub[d..], curPos, base, occupancy)
    requires cycle >= base + 2 * h && d <= it <= |ub| && w != Free && w.count >= Find(ub[d..], cycle).count
    requires forall j :: 0 <= j < |ub| ==> (j < it <==> ub[j].0 < cycle)
    ensures var ub' := Entered(ub, it, cycle, w);
            && Split(ub', d, base + 2 * h)
            && RepOK(h, curWin, nextWin, ub'[d..], curPos, base, occupancy + w.count - Find(ub[d..], cycle).count)
            && forall c: nat :: At(curWin, nextWin, ub'[d..], base, c) == if c == cycle then w
                 else At(curWin, nextWin, ub[d..], base, c)
  {
    EnteredRest(ub, d, base + 2 * h, it, cycle, w);
    BookRest(h, curWin, nextWin, ub[d..], curPos, base, occupancy, it - d, cycle, w);
  }

  lemma EnteredRest(ub: Unbounded, d: nat, bound: nat, it: nat, cycle: nat, w: WinCycle)
    requires Split(ub, d, bound) && cycle >= bound && d <= it <= |ub|
    requires forall j :: 0 <= j < |ub| ==> (j < it <==> ub[j].0 < cycle)
    ensures Split(Entered(ub, it, cycle, w), d, bound)
            && Entered(ub, it, cycle, w)[d..] == Entered(ub[d..], it - d, cycle, w)
    ensures forall j :: 0 <= j < |ub[d..]| ==> (j < it - d <==> ub[d..][j].0 < cycle)
  {
    Ascending(ub);
    if it < |ub| && ub[it].0 == cycle {
      RestUpdated(ub, d, bound, it, (cycle, w));
    } else {
      RestInserted(ub, d, bound, it, (cycle, w));
    }
  }

  lemma BookRest(h: nat, curWin: Slots, nextWin: Slots, ub: Unbounded, curPos: nat, base: nat, occupancy: nat,
                 it: nat, cycle: nat, w: WinCycle)
    requires RepOK(h, curWin, nextWin, ub, curPos, base, occupancy)
    requires cycle >= base + 2 * h && it <= |ub| && w != Free && w.count >= Find(ub, cycle).count
    requires forall j :: 0 <= j < |ub| ==> (j < it <==> ub[j].0 < cycle)
    ensures var ub' := Entered(ub, it, cycle, w);
            && RepOK(h, curWin, nextWin, ub', curPos, base, occupancy + w.count - Find(ub, cycle).count)
            && forall c: nat :: At(curWin, nextWin, ub', base, c) == if c == cycle then w
                 else At(curWin, nextWin, ub, base, c)
  {
    if it < |ub| && ub[it].0 == cycle {
      FindAt(ub, it);
      BookOld(h, curWin, nextWin, ub, curPos, base, occupancy, it, w);
    } else {
      Ascending(ub);
      FindNone(ub, cycle);
      BookNew(h, curWin, nextWin, ub, curPos, base, occupancy, it, cycle, w);
    }
  }

  /** The last part of the search, beyond both arrays. */
  method PlaceBeyond(h: nat, ghost curWin: Slots, ghost nextWin: Slots, ub: Unbounded, ghost d: nat,
                     ghost curPos: nat, base: nat, ghost occupancy: nat,
                     from: nat, portMask: set<nat>, counted: bool)
      returns (ub': Unbounded, cycle: nat, port: nat)
    requires Split(ub, d, base + 2 * h) && RepOK(h, curWin, nextWin, ub[d..], curPos, base, occupancy)
             && Ports(portMask) && portMask != {}
    requires from >= base + 2 * h
    ensures Split(ub', d, base + 2 * h)
            && RepOK(h, curWin, nextWin, ub'[d..], curPos, base, occupancy + if counted then 1 else 0) && cycle >= from
    ensures forall c: nat :: from <= c < cycle ==> !Available(At(curWin, nextWin, ub[d..], base, c), portMask)
    ensures Available(At(curWin, nextWin, ub[d..], base, cycle), portMask)
    ensures Booked(At(curWin, nextWin, ub[d..], base, cycle), At(curWin, nextWin, ub'[d..], base, cycle), portMask,
            counted, port)
    ensures forall c: nat :: c != cycle ==>
              At(curWin, nextWin, ub'[d..], base, c) == At(curWin, nextWin, ub[d..], base, c)
  {
    var it, after;
    cycle, it, after, port := ScanRest(ub, d, base + 2 * h, from, portMask, counted);
    BookBeyond(h, curWin, nextWin, ub, d, curPos, base, occupancy, it, cycle, after);
    ub' := Entered(ub, it, cycle, after);
  }

  /** The search from position `from` of the second array on. */
  method PlaceNext(h: nat, ghost curWin: Slots, nextWin: Slots, ub: Unbounded, ghost d: nat, ghost curPos: nat,
                   base: nat, ghost occupancy: nat,
                   from: nat, portMask: set<nat>, counted: bool)
      returns (nextWin': Slots, ub': Unbounded, cycle: nat, port: nat)
    requires Split(ub, d, base + 2 * h) && RepOK(h, curWin, nextWin, ub[d..], curPos, base, occupancy)
             && Ports(portMask) && portMask != {}
    ensures Split(ub', d, base + 2 * h)
            && RepOK(h, curWin, nextWin', ub'[d..], curPos, base, occupancy + if counted then 1 else 0)
            && cycle >= base + h + from
    ensures forall c: nat :: base + h + from <= c < cycle ==>
              !Available(At(curWin, nextWin, ub[d..], base, c), portMask)
    ensures Available(At(curWin, nextWin, ub[d..], base, cycle), portMask)
    ensures Booked(At(curWin, nextWin, ub[d..], base, cycle), At(curWin, nextWin', ub'[d..], base, cycle), portMask,
            counted, port)
    ensures forall c: nat :: c != cycle ==>
              At(curWin, nextWin', ub'[d..], base, c) == At(curWin, nextWin, ub[d..], base, c)
  {
    var pos, after, p := Scan(nextWin, from, portMask, counted);
    ScannedNext(curWin, nextWin, ub[d..], base, portMask, from, pos);
    if pos < h {
      BookNext(h, curWin, nextWin, ub[d..], curPos, base, occupancy, pos, after);
      nextWin', ub', cycle, port := nextWin[pos := after], ub, base + h + pos, p;
    } else {
      nextWin' := nextWin;
      ub', cycle, port := PlaceBeyond(h, curWin, nextWin, ub, d, curPos, base, occupancy, base + h + pos, portMask,
          counted);
    }
  }

  /** The whole search, `delay` cycles from now on: books the first cycle in which
      a port of the mask is available, and touches no other cycle. */
  method Place(h: nat, curWin: Slots, nextWin: Slots, ub: Unbounded, ghost d: nat, curPos: nat, base: nat,
               ghost occupancy: nat,
               delay: nat, portMask: set<nat>, counted: bool)
      returns (curWin': Slots, nextWin': Slots, ub': Unbounded, cycle: nat, port: nat)
    requires Split(ub, d, base + 2 * h) && RepOK(h, curWin, nextWin, ub[d..], curPos, base, occupancy)
             && Ports(portMask) && portMask != {}
    ensures Split(ub', d, base + 2 * h)
            && RepOK(h, curWin', nextWin', ub'[d..], curPos, base, occupancy + if counted then 1 else 0)
    ensures cycle >= base + curPos + delay
    ensures forall c: nat :: base + curPos + delay <= c < cycle ==>
              !Available(At(curWin, nextWin, ub[d..], base, c), portMask)
    ensures Available(At(curWin, nextWin, ub[d..], base, cycle), portMask)
    ensures Booked(At(curWin, nextWin, ub[d..], base, cycle), At(curWin', nextWin', ub'[d..], base, cycle), portMask,
            counted, port)
    ensures forall c: nat :: c != cycle ==>
              At(curWin', nextWin', ub'[d..], base, c) == At(curWin, nextWin, ub[d..], base, c)
  {
    var pos, after, p := Scan(curWin, curPos + delay, portMask, counted);
    ScannedCur(curWin, nextWin, ub[d..], base, portMask, curPos + delay, pos);
    if pos < h {
      BookCur(h, curWin, nextWin, ub[d..], curPos, base, occupancy, pos, after);
      curWin', nextWin', ub', cycle, port := curWin[pos := after], nextWin, ub, base + pos, p;
    } else {
      curWin' := curWin;
      nextWin', ub', cycle, port :=
          PlaceNext(h, curWin, nextWin, ub, d, curPos, base, occupancy, pos - h, portMask, counted);
    }
  }

  type Book = imap<nat, WinCycle>

  ghost predicate StandsAt(book: Book, curWin: Slots, nextWin: Slots, ub: Unbounded, base: nat, c: nat) {
    c in book && book[c] == At(curWin, nextWin, ub, base, c)
  }

  /** The structure stands for the book, as far as cycles from `now` on go. */
  ghost predicate Stands(book: Book, curWin: Slots, nextWin: Slots, ub: Unbounded, base: nat, now: nat) {
    forall c: nat {:trigger StandsAt(book, curWin, nextWin, ub, base, c)} :: c >= now ==>
        StandsAt(book, curWin, nextWin, ub, base, c)
  }

  /** It goes on standing for the book if no later cycle changes. */
  lemma StandsLater(book: Book, curWin: Slots, nextWin: Slots, ub: Unbounded, base: nat, now: nat,
                    curWin': Slots, nextWin': Slots, ub': Unbounded, base': nat, now': nat)
    requires Stands(book, curWin, nextWin, ub, base, now) && now <= now'
    requires forall c: nat :: c >= now' ==> At(curWin', nextWin', ub', base', c) == At(curWin, nextWin, ub, base, c)
    ensures Stands(book, curWin', nextWin', ub', base', now')
  {
    forall c: nat | c >= now' ensures StandsAt(book, curWin', nextWin', ub', base', c) {
      assert StandsAt(book, curWin, nextWin, ub, base, c);
    }
  }

  /** The uops booked from cycle `from` until `to`. */
  ghost function Uops(book: Book, from: nat, to: nat): nat {
    if to <= from then 0 else Uops(book, from, to - 1) + if to - 1 in book then book[to - 1].count else 0
  }

  lemma {:induction false} UopsAtLeast(book: Book, from: nat, to: nat, c: nat)
    requires from <= c < to && c in book
    ensures Uops(book, from, to) >= book[c].count
  {
    if c < to - 1 { UopsAtLeast(book, from, to - 1, c); }
  }

  /** The first cycle from `from` on in which a port of the mask is available. */
  ghost predicate FirstFit(book: Book, from: nat, portMask: set<nat>, cycle: nat) {
    && cycle >= from && cycle in book && Available(book[cycle], portMask)
    && forall c: nat :: from <= c < cycle ==> c in book && !Available(book[c], portMask)
  }

  /** Place, in terms of the book. */
  method PlaceInBook(ghost book: Book, h: nat, curWin: Slots, nextWin: Slots, ub: Unbounded, ghost d: nat,
                     curPos: nat, base: nat, ghost occupancy: nat,
                     delay: nat, portMask: set<nat>, counted: bool)
      returns (curWin': Slots, nextWin': Slots, ub': Unbounded, cycle: nat, port: nat, ghost after: WinCycle)
    requires Split(ub, d, base + 2 * h) && RepOK(h, curWin, nextWin, ub[d..], curPos, base, occupancy)
             && Ports(portMask) && portMask != {}
    requires Stands(book, curWin, nextWin, ub[d..], base, base + curPos)
    ensures Split(ub', d, base + 2 * h)
            && RepOK(h, curWin', nextWin', ub'[d..], curPos, base, occupancy + if counted then 1 else 0)
    ensures FirstFit(book, base + curPos + delay, portMask, cycle)
            && Booked(book[cycle], after, portMask, counted, port)
    ensures Stands(book[cycle := after], curWin', nextWin', ub'[d..], base, base + curPos)
  {
    curWin', nextWin', ub', cycle, port :=
        Place(h, curWin, nextWin, ub, d, curPos, base, occupancy, delay, portMask, counted);
    after := At(curWin', nextWin', ub'[d..], base, cycle);
    ghost var book', from, rest, rest' := book[cycle := after], base + curPos, ub[d..], ub'[d..];
    forall c: nat | from <= c ensures StandsAt(book', curWin', nextWin', rest', base, c) {
      assert StandsAt(book, curWin, nextWin, rest, base, c);
    }
    forall c: nat | from + delay <= c <= cycle ensures c in book && book[c] == At(curWin, nextWin, rest, base, c) {
      assert StandsAt(book, curWin, nextWin, rest, base, c);
    }
  }

  /** The port is occupied in every cycle from `from` through `to`. */
  ghost predicate Occupied(book: Book, port: nat, from: nat, to: nat) {
    forall c: nat :: from <= c <= to ==> c in book && port in book[c].occUnits
  }

  /** Extra slots: the port was free in each of their cycles and is taken there,
      nothing else changes, and from `cycle` through the last of them the port is
      occupied throughout. */
  ghost predicate ExtraSlots(before: Book, after: Book, port: nat, cycle: nat, slots: seq<nat>) {
    && before.Keys == after.Keys
    && (forall i :: 0 <= i < |slots| ==> SlotTaken(before, after, port, cycle, slots[i]))
    && (forall c :: c in before && c !in slots ==> after[c] == before[c])
    && Occupied(after, port, cycle, if slots == [] then cycle else slots[|slots| - 1])
  }

  ghost predicate SlotTaken(before: Book, after: Book, port: nat, cycle: nat, c: nat) {
    && c > cycle && c in before && c in after && port !in before[c].occUnits
    && after[c] == WinCycle(before[c].occUnits + {port}, before[c].count)
  }

  lemma OneMoreSlot(before: Book, mid: Book, after: Book, port: nat, cycle: nat, slots: seq<nat>, c: nat)
    requires ExtraSlots(before, mid, port, cycle, slots)
    requires FirstFit(mid, 1 + if slots == [] then cycle else slots[|slots| - 1], {port}, c)
    requires c in after && after == mid[c := after[c]] && Booked(mid[c], after[c], {port}, false, port)
    ensures ExtraSlots(before, after, port, cycle, slots + [c])
  {
    var last, slots' := if slots == [] then cycle else slots[|slots| - 1], slots + [c];
    assert last >= cycle;
    assert {port} - mid[c].occUnits == if port in mid[c].occUnits then {} else {port};
    forall i | 0 <= i < |slots| ensures slots[i] != c && SlotTaken(before, after, port, cycle, slots[i]) {
      assert SlotTaken(before, mid, port, cycle, slots[i]);
    }
    assert mid[c] == before[c] && SlotTaken(before, after, port, cycle, c);
    forall d: nat | cycle <= d <= c ensures d in after && port in after[d].occUnits {
      if last < d < c {
        assert port in {port} && !Available(mid[d], {port});
        assert port in {port} - mid[d].occUnits || port in mid[d].occUnits;
      }
    }
  }

  /** The ports are taken in every cycle from `from` until `to`, and nothing else changes. */
  ghost predicate Poisoned(before: Book, after: Book, portMask: set<nat>, from: nat, to: nat) {
    && before.Keys == after.Keys
    && forall c :: c in before ==>
         after[c] == if from <= c < to then WinCycle(before[c].occUnits + portMask, before[c].count) else before[c]
  }

  lemma PoisonStep(before: Book, mid: Book, after: Book, portMask: set<nat>, from: nat, to: nat, p: nat, q: nat,
                   target: nat)
    requires Poisoned(before, mid, portMask, from, to) && from <= p <= to <= p + 1 && p < target
    requires FirstFit(mid, p, portMask, q)
    requires q in after && after == mid[q := after[q]] && Booked(mid[q], after[q], portMask, false, 0)
    ensures q >= to && Poisoned(before, after, portMask, from, q + 1)
    ensures target <= q ==> FirstFit(before, target, portMask, q)
  {
    forall c: nat | p <= c < q ensures c in mid && mid[c].occUnits + portMask == mid[c].occUnits {
      NotAvailable(mid[c], portMask);
    }
    forall c | c in before && to <= c < q ensures after[c] == WinCycle(before[c].occUnits + portMask, before[c].count) {
      assert p <= c < q && mid[c] == before[c];
    }
  }

  lemma NotAvailable(w: WinCycle, portMask: set<nat>)
    requires !Available(w, portMask)
    ensures w.occUnits + portMask == w.occUnits
  {
    forall p | p in portMask ensures p in w.occUnits {
      assert p !in portMask - w.occUnits;
    }
  }

  // ---------------------------------------------------------------------------
  // Jumping over idle time
  // ---------------------------------------------------------------------------

  /** Nothing at all is booked from `from` until `to`. */
  ghost predicate Clear(book: Book, from: nat, to: nat) {
    forall c: nat {:trigger FreeAt(book, c)} :: from <= c < to ==> FreeAt(book, c)
  }

  ghost predicate FreeAt(book: Book, c: nat) {
    c in book && book[c] == Free
  }

  /** What a caller can see in the structure before a jump. */
  predicate JumpOK(curWin: Slots, nextWin: Slots, ub: Unbounded, curPos: nat, horizon: nat) {
    && (forall i :: curPos <= i < |curWin| ==> curWin[i] == Free)
    && (forall i :: 0 <= i < |nextWin| ==> nextWin[i] == Free)
    && (forall i :: 0 <= i < |ub| ==> ub[i].0 >= horizon)
  }

  /** The arrays and the map are free up to the horizon just if the book is. */
  lemma JumpOKIsClear(book: Book, h: nat, curWin: Slots, nextWin: Slots, ub: Unbounded, curPos: nat, base: nat,
                      occupancy: nat, horizon: nat)
    requires RepOK(h, curWin, nextWin, ub, curPos, base, occupancy)
    requires Stands(book, curWin, nextWin, ub, base, base + curPos) && horizon >= base + 2 * h
    ensures JumpOK(curWin, nextWin, ub, curPos, horizon) <==> Clear(book, base + curPos, horizon)
  {
    if JumpOK(curWin, nextWin, ub, curPos, horizon) {
      forall c: nat | base + curPos <= c < horizon ensures FreeAt(book, c) {
        assert StandsAt(book, curWin, nextWin, ub, base, c);
        if c >= base + 2 * h { FindNone(ub, c); }
      }
    }
    if Clear(book, base + curPos, horizon) {
      forall i | curPos <= i < h ensures curWin[i] == Free {
        var c := base + i;
        assert StandsAt(book, curWin, nextWin, ub, base, c) && FreeAt(book, c);
      }
      forall i | 0 <= i < h ensures nextWin[i] == Free {
        var c := base + h + i;
        assert StandsAt(book, curWin, nextWin, ub, base, c) && FreeAt(book, c);
      }
      forall i | 0 <= i < |ub| ensures ub[i].0 >= horizon {
        FindAt(ub, i);
        assert StandsAt(book, curWin, nextWin, ub, base, ub[i].0) && (ub[i].0 < horizon ==> FreeAt(book, ub[i].0));
      }
    }
  }

  /** Moving the clock by delta without touching the structure keeps it standing
      for the same book just if nothing is booked up to the new horizon. */
  lemma JumpSound(book: Book, h: nat, curWin: Slots, nextWin: Slots, ub: Unbounded, curPos: nat, base: nat,
                  occupancy: nat, delta: nat)
    requires RepOK(h, curWin, nextWin, ub, curPos, base, occupancy) && delta > 0
    requires Stands(book, curWin, nextWin, ub, base, base + curPos)
    ensures RepOK(h, curWin, nextWin, ub, curPos, base + delta, occupancy)
            && Stands(book, curWin, nextWin, ub, base + delta, base + delta + curPos)
       <==> Clear(book, base + curPos, base + delta + 2 * h)
  {
    var horizon := base + delta + 2 * h;
    JumpOKIsClear(book, h, curWin, nextWin, ub, curPos, base, occupancy, horizon);
    if Clear(book, base + curPos, horizon) {
      var base' := base + delta;
      forall c: nat | c >= base' + curPos ensures StandsAt(book, curWin, nextWin, ub, base', c) {
        assert StandsAt(book, curWin, nextWin, ub, base, c);
        if c < horizon {
          assert FreeAt(book, c) && FreeAt(book, c - delta);
          assert StandsAt(book, curWin, nextWin, ub, base, c - delta);
        }
      }
    } else if RepOK(h, curWin, nextWin, ub, curPos, base + delta, occupancy)
              && Stands(book, curWin, nextWin, ub, base + delta, base + delta + curPos) {
      var c: nat :| base + curPos <= c < horizon && !FreeAt(book, c);
      JumpClears(book, h, curWin, nextWin, ub, curPos, base, occupancy, delta, c);
    }
  }

  lemma {:induction false} JumpClears(book: Book, h: nat, curWin: Slots, nextWin: Slots, ub: Unbounded, curPos: nat,
                                      base: nat, occupancy: nat, delta: nat, c: nat)
    requires RepOK(h, curWin, nextWin, ub, curPos, base, occupancy) && delta > 0
    requires RepOK(h, curWin, nextWin, ub, curPos, base + delta, occupancy)
    requires Stands(book, curWin, nextWin, ub, base, base + curPos)
    requires Stands(book, curWin, nextWin, ub, base + delta, base + delta + curPos)
    requires base + curPos <= c < base + delta + 2 * h
    ensures FreeAt(book, c)
    decreases base + delta + 2 * h - c
  {
    assert StandsAt(book, curWin, nextWin, ub, base, c);
    if c >= base + 2 * h {
      FindNone(ub, c);
    } else {
      assert StandsAt(book, curWin, nextWin, ub, base + delta, c + delta);
      JumpClears(book, h, curWin, nextWin, ub, curPos, base, occupancy, delta, c + delta);
      assert At(curWin, nextWin, ub, base, c) == At(curWin, nextWin, ub, base + delta, c + delta);
    }
  }

  /** How many entries lie before the bound. */
  function Before(ub: Unbounded, bound: nat): (k: nat)
    ensures k <= |ub|
  {
    if ub == [] || ub[|ub| - 1].0 < bound then |ub| else Before(ub[..|ub| - 1], bound)
  }

  lemma {:induction false} BeforeIs(ub: Unbounded, bound: nat)
    requires Sorted(ub)
    ensures forall i :: 0 <= i < |ub| ==> (i < Before(ub, bound) <==> ub[i].0 < bound)
  {
    Ascending(ub);
    if ub != [] && ub[|ub| - 1].0 >= bound {
      var front := ub[..|ub| - 1];
      SortedPart(ub, 0, |ub| - 1);
      assert ub[0..|ub| - 1] == front;
      BeforeIs(front, bound);
      assert forall i :: 0 <= i < |front| ==> ub[i] == front[i];
    }
  }

  /** A jump with no uop in the window: the arrays are read for later cycles, and the
      entries of the map that are then too early are left behind. */
  lemma Leap(h: nat, curWin: Slots, nextWin: Slots, ub: Unbounded, d: nat, e: nat, curPos: nat, base: nat, base': nat)
    requires Split(ub, d, base + 2 * h) && RepOK(h, curWin, nextWin, ub[d..], curPos, base, 0) && base <= base'
    requires e == Before(ub, base' + 2 * h)
    ensures d <= e <= |ub| && Split(ub, e, base' + 2 * h) && RepOK(h, curWin, nextWin, ub[e..], curPos, base', 0)
  {
    LeftBehind(ub, d, e, base + 2 * h, base' + 2 * h);
    TotalRest(ub, d, e);
    NoneFree(ub, d, e);
  }

  lemma NoneFree(ub: Unbounded, d: nat, e: nat)
    requires d <= e <= |ub| && forall i :: 0 <= i < |ub[d..]| ==> ub[d..][i].1 != Free
    ensures forall i :: 0 <= i < |ub[e..]| ==> ub[e..][i].1 != Free
  {
    forall i | 0 <= i < |ub[e..]| ensures ub[e..][i].1 != Free { assert ub[d..][i + e - d] == ub[e..][i]; }
  }

  lemma LeftBehind(ub: Unbounded, d: nat, e: nat, bound: nat, bound': nat)
    requires Split(ub, d, bound) && bound <= bound' && e == Before(ub, bound')
    ensures d <= e <= |ub| && Split(ub, e, bound') && Sorted(ub[e..]) && forall i :: 0 <= i < |ub[e..]| ==>
              ub[e..][i].0 >= bound'
  {
    BeforeIs(ub, bound');
    if d > 0 { assert ub[d - 1].0 < bound'; }
    SortedRest(ub, e);
  }

  lemma TotalRest(ub: Unbounded, d: nat, e: nat)
    requires d <= e <= |ub|
    ensures Total(Values(ub[e..])) <= Total(Values(ub[d..]))
  {
    var passed := ub[d..][..e - d];
    assert Values(ub[d..]) == Values(passed) + Values(ub[e..]);
    TotalConcat(Values(passed), Values(ub[e..]));
  }

  ghost predicate SameAt(before: Book, after: Book, c: nat) {
    c in before && c in after && after[c] == before[c]
  }

  ghost predicate SameFrom(before: Book, after: Book, now: nat) {
    forall c: nat {:trigger SameAt(before, after, c)} :: c >= now ==> SameAt(before, after, c)
  }

  /** No booking changes in a jump, and none is left behind, just if nothing is booked up
      to the new horizon. */
  lemma LeapSound(book: Book, book': Book, h: nat, curWin: Slots, nextWin: Slots, ub: Unbounded, d: nat, e: nat,
                  curPos: nat, base: nat, base': nat)
    requires base < base' && d <= e <= |ub| && RepOK(h, curWin, nextWin, ub[d..], curPos, base, 0)
    requires RepOK(h, curWin, nextWin, ub[e..], curPos, base', 0) && Split(ub, e, base' + 2 * h)
    requires Stands(book, curWin, nextWin, ub[d..], base, base + curPos)
    requires Stands(book', curWin, nextWin, ub[e..], base', base' + curPos)
    ensures JumpOK(curWin, nextWin, ub[d..], curPos, base' + 2 * h) <==> Clear(book, base + curPos, base' + 2 * h)
    ensures JumpOK(curWin, nextWin, ub[d..], curPos, base' + 2 * h) <==> e == d && SameFrom(book, book', base' + curPos)
  {
    JumpOKIsClear(book, h, curWin, nextWin, ub[d..], curPos, base, 0, base' + 2 * h);
    JumpSound(book, h, curWin, nextWin, ub[d..], curPos, base, 0, base' - base);
    var rest, now := ub[e..], base' + curPos;
    assert e > d ==> ub[d..][0] == ub[d];
    if JumpOK(curWin, nextWin, ub[d..], curPos, base' + 2 * h) {
      forall c: nat | c >= now ensures SameAt(book, book', c) {
        assert StandsAt(book, curWin, nextWin, rest, base', c) && StandsAt(book', curWin, nextWin, rest, base', c);
      }
    } else if e == d && SameFrom(book, book', now) {
      forall c: nat | c >= now ensures StandsAt(book, curWin, nextWin, rest, base', c) {
        assert SameAt(book, book', c) && StandsAt(book', curWin, nextWin, rest, base', c);
      }
    }
  }

  lemma {:induction false} TotalAtLeast(s: Slots, i: nat)
    requires i < |s|
    ensures s[i].count <= Total(s)
  {
    if i > 0 { TotalAtLeast(s[1..], i - 1); }
  }

  lemma {:induction false} FindAtMost(ub: Unbounded, c: nat)
    ensures Find(ub, c).count <= Total(Values(ub))
  {
    if ub != [] {
      assert Values(ub)[1..] == Values(ub[1..]);
      FindAtMost(ub[1..], c);
    }
  }

  /** Nothing is counted in any cycle if nothing is counted at all. */
  lemma NoneCounted(curWin: Slots, nextWin: Slots, ub: Unbounded, base: nat, c: nat)
    requires Total(curWin) == Total(nextWin) == Total(Values(ub)) == 0
    ensures At(curWin, nextWin, ub, base, c).count == 0
  {
    FindAtMost(ub, c);
    if base <= c < base + |curWin| { TotalAtLeast(curWin, c - base); }
    if base + |curWin| <= c < base + |curWin| + |nextWin| { TotalAtLeast(nextWin, c - base - |curWin|); }
  }

  /** The bookings after a jump: those of earlier cycles stay, and later ones are of no uop. */
  ghost predicate Leapt(before: Book, after: Book, now: nat) {
    forall c: nat {:trigger LeaptAt(before, after, now, c)} :: LeaptAt(before, after, now, c)
  }

  ghost predicate LeaptAt(before: Book, after: Book, now: nat, c: nat) {
    if c < now then c in before ==> c in after && after[c] == before[c] else c in after && after[c].count == 0
  }

  /** What the structure stands for after a jump; earlier cycles are as they were. */
  lemma Reread(book: Book, curWin: Slots, nextWin: Slots, ub: Unbounded, base: nat, now: nat) returns (book': Book)
    requires Total(curWin) == Total(nextWin) == Total(Values(ub)) == 0
    ensures Stands(book', curWin, nextWin, ub, base, now) && Leapt(book, book', now)
  {
    book' := imap c: nat | c in book || c >= now :: if c >= now then At(curWin, nextWin, ub, base, c) else book[c];
    forall c: nat | c >= now ensures StandsAt(book', curWin, nextWin, ub, base, c) { }
    forall c: nat ensures LeaptAt(book, book', now, c) {
      NoneCounted(curWin, nextWin, ub, base, c);
    }
  }

  /** The entries left behind are those before the horizon. */
  lemma StaleIsBefore(h: nat, curWin: Slots, nextWin: Slots, ub: Unbounded, d: nat, curPos: nat, base: nat,
                      occupancy: nat)
    requires Split(ub, d, base + 2 * h) && RepOK(h, curWin, nextWin, ub[d..], curPos, base, occupancy)
    ensures d == Before(ub, base + 2 * h)
  {
    var k := Before(ub, base + 2 * h);
    BeforeIs(ub, base + 2 * h);
    assert d < |ub| ==> ub[d..][0] == ub[d];
    assert k < |ub| ==> ub[k].0 >= base + 2 * h;
  }

  /** Whether a jump is sound can be seen in the structure. */
  method SeesClear(h: nat, curWin: Slots, nextWin: Slots, ub: Unbounded, ghost d: nat, curPos: nat, base: nat,
                   base': nat) returns (sound: bool)
    requires Split(ub, d, base + 2 * h) && RepOK(h, curWin, nextWin, ub[d..], curPos, base, 0)
    ensures sound <==> JumpOK(curWin, nextWin, ub[d..], curPos, base' + 2 * h)
  {
    StaleIsBefore(h, curWin, nextWin, ub, d, curPos, base, 0);
    sound := JumpOK(curWin, nextWin, ub[Before(ub, base + 2 * h)..], curPos, base' + 2 * h);
  }

  /** The book and the entries left behind, after a jump of the base. */
  lemma LeapBook(book: Book, h: nat, curWin: Slots, nextWin: Slots, ub: Unbounded, d: nat, curPos: nat, base: nat,
                 base': nat)
      returns (book': Book, e: nat)
    requires base < base' && Split(ub, d, base + 2 * h) && RepOK(h, curWin, nextWin, ub[d..], curPos, base, 0)
    requires Stands(book, curWin, nextWin, ub[d..], base, base + curPos)
    ensures Split(ub, e, base' + 2 * h) && RepOK(h, curWin, nextWin, ub[e..], curPos, base', 0)
    ensures Stands(book', curWin, nextWin, ub[e..], base', base' + curPos) && Leapt(book, book', base' + curPos)
    ensures JumpOK(curWin, nextWin, ub[d..], curPos, base' + 2 * h) <==> e == d && SameFrom(book, book', base' + curPos)
    ensures JumpOK(curWin, nextWin, ub[d..], curPos, base' + 2 * h) <==> Clear(book, base + curPos, base' + 2 * h)
    ensures e > 0 <==> ub != [] && ub[0].0 < base' + 2 * h
  {
    e := Before(ub, base' + 2 * h);
    BeforeIs(ub, base' + 2 * h);
    Leap(h, curWin, nextWin, ub, d, e, curPos, base, base');
    book' := Reread(book, curWin, nextWin, ub[e..], base', base' + curPos);
    LeapSound(book, book', h, curWin, nextWin, ub, d, e, curPos, base, base');
  }

  class WindowStructure {
    const H: nat
    const WSZ: nat
    var curWin: Slots
    var nextWin: Slots
    var ubWin: Unbounded
    var occupancy: nat
    var curPos: nat
    // What has been booked in every cycle, past and future
    ghost var book: Book
    // How many entries of ubWin a jump has left behind
    ghost var stale: nat

    ghost predicate Valid(curCycle: nat)
      reads this
    {
      && WSZ > 0 && curPos <= curCycle && occupancy <= WSZ
      && Split(ubWin, stale, curCycle - curPos + 2 * H)
      && RepOK(H, curWin, nextWin, ubWin[stale..], curPos, curCycle - curPos, occupancy)
      && Stands(book, curWin, nextWin, ubWin[stale..], curCycle - curPos, curCycle)
    }

    constructor (h: nat, wsz: nat, ghost curCycle: nat)
      requires h > 0 && wsz > 0
      ensures Valid(curCycle) && H == h && WSZ == wsz && occupancy == 0 && curPos == 0 && stale == 0
      ensures forall c: nat :: c in book && book[c] == Free
    {
      H, WSZ := h, wsz;
      curWin := seq(h, _ => Free);
      nextWin := seq(h, _ => Free);
      ubWin, stale := [], 0;
      occupancy, curPos := 0, 0;
      book := imap c: nat {:trigger WinCycle({c}, 0)} :: Free;
      new;
      TotalFree(curWin);
      TotalFree(nextWin);
      TotalFree(Values(ubWin));
      assert ubWin[0..] == [];
      forall c: nat | c >= curCycle ensures StandsAt(book, curWin, nextWin, ubWin[0..], curCycle, c) {
      }
    }

    /** The clock moves one cycle, and no booking changes: also not when the arrays
        change roles and take over from the unbounded part.  That fails if and only if a
        jump has left an entry behind there. */
    method AdvancePos(curCycle: nat) returns (next: nat, ok: bool)
      requires Valid(curCycle)
      modifies this`curWin, this`nextWin, this`ubWin, this`occupancy, this`curPos
      ensures next == curCycle + 1 && (ok <==> old(curPos) + 1 < H || stale == 0)
      ensures curCycle in book && occupancy == old(occupancy) - book[curCycle].count
      ensures ok ==> Valid(next) && curPos == if old(curPos) + 1 < H then old(curPos) + 1 else 0
    {
      ghost var rest := ubWin[stale..];
      AdvanceInside(H, curWin, nextWin, rest, curPos, curCycle - curPos, occupancy);
      TotalUpdate(curWin, curPos, Free);
      assert StandsAt(book, curWin, nextWin, rest, curCycle - curPos, curCycle);
      StandsLater(book, curWin, nextWin, rest, curCycle - curPos, curCycle,
                  curWin[curPos := Free], nextWin, rest, curCycle - curPos, curCycle + 1);
      occupancy := occupancy - curWin[curPos].count;
      curWin := curWin[curPos := Free];
      curPos := curPos + 1;
      next, ok := curCycle + 1, true;
      if curPos == H {
        ok := Rebase(next);
      }
    }

    /** The arrays swap, and bookings within reach move out of the unbounded part. */
    method Rebase(curCycle: nat) returns (ok: bool)
      requires |curWin| == |nextWin| == H == curPos <= curCycle && H > 0 && WSZ > 0 && occupancy <= WSZ
      requires forall i :: 0 <= i < H ==> curWin[i] == Free
      requires Split(ubWin, stale, curCycle + H)
      requires forall i :: 0 <= i < |ubWin[stale..]| ==>
                 ubWin[stale..][i].0 >= curCycle + H && ubWin[stale..][i].1 != Free
      requires occupancy == Total(curWin) + Total(nextWin) + Total(Values(ubWin[stale..]))
      requires Stands(book, curWin, nextWin, ubWin[stale..], curCycle - H, curCycle)
      modifies this`curWin, this`nextWin, this`ubWin, this`curPos
      ensures ok <==> stale == 0
      ensures ok ==> Valid(curCycle) && curPos == 0
    {
      TotalFree(curWin);
      ghost var was := curWin;
      curWin, nextWin := nextWin, curWin;
      curPos := 0;
      forall i | stale <= i < |ubWin| ensures ubWin[i].0 >= curCycle + H {
        assert ubWin[stale..][i - stale] == ubWin[i];
      }
      var filled, it;
      ok, filled, it := MoveIn(H, nextWin, ubWin, stale, curCycle);
      if ok {
        assert ubWin[0..] == ubWin;
        RebaseKeeps(H, was, curWin, filled, ubWin, curCycle, it, occupancy);
        StandsLater(book, was, curWin, ubWin, curCycle - H, curCycle, curWin, filled, ubWin[it..], curCycle, curCycle);
        nextWin := filled;
        ubWin := ubWin[it..];
        assert ubWin[0..] == ubWin;
      }
    }

    /** While the window is full, time passes; this ends, because a full window
        holds a uop that will be passed. */
    method MakeRoom(curCycle: nat) returns (now: nat, ok: bool)
      requires Valid(curCycle)
      modifies this`curWin, this`nextWin, this`ubWin, this`occupancy, this`curPos
      ensures now >= curCycle && (!ok ==> stale > 0)
      ensures ok ==> Valid(now) && occupancy < WSZ && occupancy == old(occupancy) - Uops(book, curCycle, now)
      ensures ok ==> (now == curCycle <==> old(occupancy) < WSZ)
      ensures old(occupancy) < WSZ ==> ok && now == curCycle && curPos == old(curPos)
      ensures ok && now > curCycle ==> Uops(book, curCycle, now - 1) == 0
    {
      now, ok := curCycle, true;
      if occupancy == WSZ {
        ghost var c0 := FutureUop(H, curWin, nextWin, ubWin[stale..], curPos, curCycle - curPos, occupancy);
        assert StandsAt(book, curWin, nextWin, ubWin[stale..], curCycle - curPos, c0);
        now, ok := PassFull(curCycle, c0);
      }
    }

    /** Time passes until a full window is full no more; c0 is a cycle with a uop. */
    method PassFull(curCycle: nat, ghost c0: nat) returns (now: nat, ok: bool)
      requires Valid(curCycle) && occupancy == WSZ && c0 >= curCycle && c0 in book && book[c0].count > 0
      modifies this`curWin, this`nextWin, this`ubWin, this`occupancy, this`curPos
      ensures now > curCycle && (!ok ==> stale > 0)
      ensures ok ==> Valid(now) && occupancy < WSZ && occupancy == WSZ - Uops(book, curCycle, now)
      ensures ok ==> Uops(book, curCycle, now - 1) == 0
    {
      now, ok := curCycle, true;
      while ok && occupancy == WSZ
        invariant now >= curCycle && (!ok ==> stale > 0 && now > curCycle)
        invariant ok ==> Valid(now) && occupancy == WSZ - Uops(book, curCycle, now)
        invariant ok && occupancy == WSZ ==> c0 >= now
        invariant ok && now > curCycle ==> Uops(book, curCycle, now - 1) == 0
        invariant ok && occupancy < WSZ ==> now > curCycle
        decreases ok, c0 - now + 1
      {
        now, ok := AdvancePos(now);
        if c0 < now {
          UopsAtLeast(book, curCycle, now, c0);
        }
      }
    }

    /** Books the first cycle from schedCycle on in which a port of the mask is available. */
    method BookFirst(now: nat, schedCycle: nat, portMask: set<nat>, counted: bool) returns (cycle: nat, port: nat)
      requires Valid(now) && Ports(portMask) && portMask != {} && (counted ==> occupancy < WSZ)
      modifies this`curWin, this`nextWin, this`ubWin, this`occupancy, this`book
      ensures Valid(now) && occupancy == old(occupancy) + if counted then 1 else 0
      ensures FirstFit(old(book), Max(now, schedCycle), portMask, cycle)
      ensures cycle in book && book == old(book)[cycle := book[cycle]]
              && Booked(old(book)[cycle], book[cycle], portMask, counted, port)
    {
      var delay := if schedCycle > now then schedCycle - now else 0;
      var curWin', nextWin', ubWin';
      ghost var after;
      curWin', nextWin', ubWin', cycle, port, after :=
        PlaceInBook(book, H, curWin, nextWin, ubWin, stale, curPos, now - curPos, occupancy, delay, portMask, counted);
      curWin, nextWin, ubWin, book := curWin', nextWin', ubWin', book[cycle := after];
      occupancy := occupancy + if counted then 1 else 0;
    }

    /** scheduleInternal: room is made first if the uop counts. */
    method ScheduleInternal(curCycle: nat, schedCycle: nat, portMask: set<nat>, counted: bool)
        returns (now: nat, cycle: nat, port: nat, ok: bool)
      requires Valid(curCycle) && Ports(portMask) && portMask != {}
      modifies this`curWin, this`nextWin, this`ubWin, this`occupancy, this`curPos, this`book
      ensures curCycle <= now && (!ok ==> stale > 0 && counted && old(occupancy) == WSZ && book == old(book))
      ensures ok ==> Valid(now) && (now == curCycle <==> !counted || old(occupancy) < WSZ)
      ensures ok && now == curCycle ==> curPos == old(curPos)
      ensures ok && now > curCycle ==> Uops(old(book), curCycle, now - 1) == 0
      ensures ok ==> occupancy == old(occupancy) - Uops(old(book), curCycle, now) + if counted then 1 else 0
      ensures ok ==> FirstFit(old(book), Max(now, schedCycle), portMask, cycle)
      ensures ok ==> cycle in book && book == old(book)[cycle := book[cycle]]
      ensures ok ==> Booked(old(book)[cycle], book[cycle], portMask, counted, port)
    {
      now, ok, cycle, port := curCycle, true, 0, 0;
      if counted {
        now, ok := MakeRoom(curCycle);
      }
      if ok {
        cycle, port := BookFirst(now, schedCycle, portMask, counted);
      }
    }

    /** The loop that books extra slots on the port of a uop placed at `cycle`. */
    method BookExtra(now: nat, cycle: nat, port: nat, extraSlots: nat) returns (slots: seq<nat>)
      requires Valid(now) && cycle >= now && port < 8 && cycle in book && port in book[cycle].occUnits
      modifies this`curWin, this`nextWin, this`ubWin, this`occupancy, this`book
      ensures Valid(now) && occupancy == old(occupancy)
      ensures |slots| == extraSlots && ExtraSlots(old(book), book, port, cycle, slots)
    {
      slots := [];
      var extraSlotCycle := cycle + 1;
      for i := 0 to extraSlots
        invariant Valid(now) && occupancy == old(occupancy)
        invariant |slots| == i && ExtraSlots(old(book), book, port, cycle, slots)
        invariant extraSlotCycle == 1 + (if slots == [] then cycle else slots[|slots| - 1])
        invariant extraSlotCycle > now
      {
        ghost var mid := book;
        var p;
        extraSlotCycle, p := BookFirst(now, extraSlotCycle, {port}, false);
        OneMoreSlot(old(book), mid, book, port, cycle, slots, extraSlotCycle);
        slots := slots + [extraSlotCycle];
        extraSlotCycle := extraSlotCycle + 1;
      }
    }

    /** schedule: a uop on the lowest free port of the first cycle that has one,
        and extraSlots more cycles of that port. */
    method Schedule(curCycle: nat, schedCycle: nat, portMask: set<nat>, extraSlots: nat)
        returns (now: nat, cycle: nat, port: nat, slots: seq<nat>, ok: bool, ghost mid: Book)
      requires Valid(curCycle) && Ports(portMask) && portMask != {}
      modifies this`curWin, this`nextWin, this`ubWin, this`occupancy, this`curPos, this`book
      ensures curCycle <= now && (!ok ==> stale > 0 && old(occupancy) == WSZ && book == old(book))
      ensures ok ==> Valid(now) && (now == curCycle <==> old(occupancy) < WSZ)
      ensures ok && now > curCycle ==> Uops(old(book), curCycle, now - 1) == 0
      ensures ok && now == curCycle ==> curPos == old(curPos)
      ensures ok ==> occupancy == old(occupancy) - Uops(old(book), curCycle, now) + 1
      ensures ok ==> FirstFit(old(book), Max(now, schedCycle), portMask, cycle)
      ensures ok ==> cycle in mid && mid == old(book)[cycle := mid[cycle]]
      ensures ok ==> Booked(old(book)[cycle], mid[cycle], portMask, true, port)
      ensures ok ==> |slots| == extraSlots && ExtraSlots(mid, book, port, cycle, slots)
    {
      now, cycle, port, ok := ScheduleInternal(curCycle, schedCycle, portMask, true);
      mid, slots := book, [];
      if ok {
        slots := BookExtra(now, cycle, port, extraSlots);
        assert occupancy <= WSZ;
      }
    }

    /** The first part of longAdvance: time passes until the window holds no uop or
        the target is reached. */
    method Drain(curCycle: nat, targetCycle: nat) returns (now: nat, ok: bool)
      requires Valid(curCycle) && curCycle <= targetCycle
      modifies this`curWin, this`nextWin, this`ubWin, this`occupancy, this`curPos
      ensures curCycle <= now <= targetCycle && (!ok ==> stale > 0)
      ensures ok ==> Valid(now) && (now < targetCycle ==> occupancy == 0)
      ensures ok ==> occupancy == old(occupancy) - Uops(book, curCycle, now)
      ensures ok && curCycle < now ==> Uops(book, curCycle, now - 1) < old(occupancy)
      ensures now + old(curPos) < curCycle + H ==> ok && curPos == old(curPos) + now - curCycle
    {
      now, ok := curCycle, true;
      while ok && occupancy > 0 && now < targetCycle
        invariant curCycle <= now <= targetCycle && (!ok ==> stale > 0)
        invariant ok ==> Valid(now) && occupancy == old(occupancy) - Uops(book, curCycle, now)
        invariant ok && curCycle < now ==> Uops(book, curCycle, now - 1) < old(occupancy)
        invariant now + old(curPos) < curCycle + H ==> ok && curPos == old(curPos) + now - curCycle
        decreases targetCycle - now
      {
        now, ok := AdvancePos(now);
      }
    }

    /** The second part of longAdvance, with no uop in the window: the clock jumps, and the
        structure stays as it is.  It then stands for other bookings, or leaves some
        behind, unless nothing is booked up to the new horizon. */
    method Jump(now: nat, targetCycle: nat) returns (sound: bool)
      requires Valid(now) && now < targetCycle && occupancy == 0
      modifies this`book, this`stale
      ensures Valid(targetCycle) && Leapt(old(book), book, targetCycle)
      ensures sound <==> Clear(old(book), now, targetCycle - curPos + 2 * H)
      ensures sound <==> stale == old(stale) && SameFrom(old(book), book, targetCycle)
      ensures stale > 0 <==> ubWin != [] && ubWin[0].0 < targetCycle - curPos + 2 * H
    {
      sound := SeesClear(H, curWin, nextWin, ubWin, stale, curPos, now - curPos, targetCycle - curPos);
      ghost var book', e :=
          LeapBook(book, H, curWin, nextWin, ubWin, stale, curPos, now - curPos, targetCycle - curPos);
      book, stale := book', e;
    }

    /** longAdvance: drains the window, then jumps if it is empty. */
    method LongAdvance(curCycle: nat, targetCycle: nat) returns (drained: nat, sound: bool, ok: bool)
      requires Valid(curCycle) && curCycle <= targetCycle
      modifies this
      ensures curCycle <= drained <= targetCycle && (!ok ==> stale == old(stale) > 0 && book == old(book))
      ensures ok ==> Valid(targetCycle) && occupancy == old(occupancy) - Uops(old(book), curCycle, drained)
      ensures ok && curCycle < drained ==> Uops(old(book), curCycle, drained - 1) < old(occupancy)
      ensures ok && drained == targetCycle ==> sound && book == old(book) && stale == old(stale)
      ensures ok && drained < targetCycle ==>
                && occupancy == 0 && Leapt(old(book), book, targetCycle)
                && (sound <==> Clear(old(book), drained, targetCycle - curPos + 2 * H))
                && (sound <==> stale == old(stale) && SameFrom(old(book), book, targetCycle))
      // What a caller sees in the structure tells whether the next rebase will fail
      ensures ok ==> (stale > 0 <==> ubWin != [] && ubWin[0].0 < targetCycle - curPos + 2 * H)
      ensures drained + old(curPos) < curCycle + H ==> ok && curPos == old(curPos) + drained - curCycle
      ensures ok ==> curPos <= drained && old(stale) <= |ubWin| && curPos < H == |curWin| == |nextWin| && Sorted(ubWin)
      ensures ok ==> Stands(old(book), curWin, nextWin, ubWin[old(stale)..], drained - curPos, drained)
    {
      drained, ok := Drain(curCycle, targetCycle);
      sound := true;
      if ok {
        if drained < targetCycle {
          sound := Jump(drained, targetCycle);
        } else if stale == 0 && ubWin != [] {
          assert ubWin[stale..][0] == ubWin[0];
        }
      }
    }

    /** poisonRange: takes the ports in every cycle until targetCycle, and in the
        first cycle from there on in which one of them is available. */
    method PoisonRange(curCycle: nat, targetCycle: nat, portMask: set<nat>) returns (last: nat)
      requires Valid(curCycle) && Ports(portMask) && portMask != {}
      modifies this`curWin, this`nextWin, this`ubWin, this`occupancy, this`book
      ensures Valid(curCycle) && occupancy == old(occupancy)
      ensures curCycle >= targetCycle ==> book == old(book)
      ensures curCycle < targetCycle ==>
                FirstFit(old(book), targetCycle, portMask, last)
                    && Poisoned(old(book), book, portMask, curCycle, last + 1)
    {
      last := curCycle;
      ghost var to := curCycle;
      while last < targetCycle
        invariant Valid(curCycle) && occupancy == old(occupancy)
        invariant curCycle <= last <= to <= last + 1 && (to == last ==> last == curCycle && book == old(book))
        invariant curCycle >= targetCycle ==> to == last
        invariant Poisoned(old(book), book, portMask, curCycle, to)
        invariant curCycle < targetCycle <= last ==> to == last + 1 && FirstFit(old(book), targetCycle, portMask, last)
        decreases targetCycle + 1 - to
      {
        ghost var mid := book;
        var from := last;
        var p;
        last, p := BookFirst(curCycle, from, portMask, false);
        PoisonStep(old(book), mid, book, portMask, curCycle, to, from, last, targetCycle);
        to := last + 1;
      }
    }
  }

  /** A uop and an extra slot, asked for at cycle 0 on port 0 of an empty book. */
  lemma UopAndSlot(empty: Book, mid: Book, after: Book, cycle: nat, port: nat, slots: seq<nat>)
    requires forall c: nat :: c in empty && empty[c] == Free
    requires FirstFit(empty, 0, {0}, cycle)
    requires cycle in mid && mid == empty[cycle := mid[cycle]] && Booked(empty[cycle], mid[cycle], {0}, true, port)
    requires |slots| == 1 && ExtraSlots(mid, after, port, cycle, slots)
    ensures 0 in after && after[0] == WinCycle({0}, 1)
    ensures 1 in after && after[1] == WinCycle({0}, 0) && forall c: nat :: c >= 2 ==> c in after && after[c] == Free
  {
    assert 0 in {0} - Free.occUnits;
    assert Available(empty[0], {0}) && cycle == 0;
    assert SlotTaken(mid, after, port, cycle, slots[0]);
    assert 1 in mid && 1 in slots;
    assert forall c: nat :: c >= 2 ==> c in mid && c !in slots;
  }

  /** A window with a uop at cycle 0 and one extra slot, at cycle 1. */
  method UopWithSlot() returns (w: WindowStructure)
    ensures fresh(w) && w.Valid(0) && w.H == 4 && w.curPos == 0 && w.occupancy == 1 && w.stale == 0
    ensures 0 in w.book && w.book[0].count == 1 && 1 in w.book && w.book[1] == WinCycle({0}, 0) && 10 in w.book
            && w.book[10] == Free
  {
    w := new WindowStructure(4, 2, 0);
    ghost var empty := w.book;
    var now, cycle, port, slots, ok, mid := w.Schedule(0, 0, {0}, 1);
    UopAndSlot(empty, mid, w.book, cycle, port, slots);
  }

  /** The jump is not always sound: a uop with one extra slot is issued at cycle 0,
      the window drains at cycle 1, and after the jump to cycle 10 the extra slot
      of cycle 1 occupies port 0 in cycle 10, in which nothing was booked. */
  method PhantomSlot() returns (sound: bool, drained: nat, atTarget: WinCycle, ghost booked: WinCycle)
    ensures !sound && drained == 1 && atTarget == WinCycle({0}, 0) && booked == Free
  {
    var w := UopWithSlot();
    assert Uops(w.book, 0, 1) == 1;
    ghost var book := w.book;
    var ok;
    drained, sound, ok := w.LongAdvance(0, 10);
    if drained >= 2 {
      UopsAtLeast(book, 0, drained - 1, 0);
    }
    assert StandsAt(book, w.curWin, w.nextWin, w.ubWin[0..], drained - w.curPos, 1);
    assert !FreeAt(book, 1);
    atTarget := w.curWin[w.curPos];
    booked := book[10];
  }

  /** Some entry of the unbounded part is for a cycle that is booked there. */
  lemma FirstKey(book: Book, curWin: Slots, nextWin: Slots, ub: Unbounded, base: nat, c: nat)
    requires StandsAt(book, curWin, nextWin, ub, base, c) && book[c] != Free && Sorted(ub)
             && c >= base + |curWin| + |nextWin|
    ensures ub != [] && ub[0].0 <= c
  {
    Ascending(ub);
    if i :| 0 <= i < |ub| && ub[i].0 == c {
    } else {
      FindNone(ub, c);
    }
  }

  /** A jump after which the rebase fails: a port is poisoned until cycle 20, which
      books cycles beyond both arrays; the window holds no uop, so that the clock jumps
      to cycle 100; four cycles later the rebase meets a booking that is long past. */
  method RebaseAborts() returns (key: nat, cycle: nat, ok: bool)
    ensures !ok && cycle == 104 && key <= 12
  {
    var w := new WindowStructure(4, 2, 0);
    var last := w.PoisonRange(0, 20, {0});
    ghost var book := w.book;
    assert book[12] == WinCycle({0}, 0);
    var drained, sound;
    drained, sound, ok := w.LongAdvance(0, 100);
    assert drained == 0;
    assert w.ubWin[0..] == w.ubWin;
    assert StandsAt(book, w.curWin, w.nextWin, w.ubWin, 0, 12);
    FirstKey(book, w.curWin, w.nextWin, w.ubWin, 0, 12);
    key, cycle := w.ubWin[0].0, 100;
    while cycle < 103
      invariant 100 <= cycle <= 103 && w.Valid(cycle) && w.H == 4 && w.curPos == cycle - 100 && w.stale > 0 && fresh(w)
    {
      cycle, ok := w.AdvancePos(cycle);
    }
    cycle, ok := w.AdvancePos(cycle);
  }

  // ---------------------------------------------------------------------------
  // Every run
  // ---------------------------------------------------------------------------

  datatype Op =
    | Uop(schedCycle: nat, portMask: set<nat>, extraSlots: nat)
    | Tick
    | Jump(target: nat)
    | Poison(target: nat, portMask: set<nat>)

  ghost predicate OpOK(op: Op) {
    op.Uop? || op.Poison? ==> Ports(op.portMask) && op.portMask != {}
  }

  /** A uop as it was issued. */
  datatype Issue = Issue(cycle: nat, port: nat)

  ghost function CountAt(log: seq<Issue>, c: nat): nat {
    if log == [] then 0 else CountAt(log[..|log| - 1], c) + if log[|log| - 1].cycle == c then 1 else 0
  }

  /** The uops issued to cycle t or later. */
  ghost function Pending(log: seq<Issue>, t: nat): nat {
    if log == [] then 0 else Pending(log[..|log| - 1], t) + if log[|log| - 1].cycle >= t then 1 else 0
  }

  lemma {:induction false} PendingStep(log: seq<Issue>, t: nat)
    ensures Pending(log, t) == Pending(log, t + 1) + CountAt(log, t)
  {
    if log != [] { PendingStep(log[..|log| - 1], t); }
  }

  ghost predicate CountedAt(book: Book, log: seq<Issue>, c: nat) {
    c in book && book[c].count == CountAt(log, c)
  }

  ghost predicate HasPort(book: Book, x: Issue) {
    x.cycle in book && x.port in book[x.cycle].occUnits
  }

  /** The book counts the uops of the log, and each has its port. */
  ghost predicate Explains(book: Book, log: seq<Issue>) {
    && (forall c: nat {:trigger CountedAt(book, log, c)} :: CountedAt(book, log, c))
    && (forall i {:trigger HasPort(book, log[i])} :: 0 <= i < |log| ==> HasPort(book, log[i]))
  }

  ghost predicate Differ(log: seq<Issue>, i: nat, j: nat)
    requires i < j < |log|
  {
    log[i] != log[j]
  }

  /** No two uops share a port in a cycle. */
  ghost predicate NoClash(log: seq<Issue>) {
    forall i, j {:trigger Differ(log, i, j)} :: 0 <= i < j < |log| ==> Differ(log, i, j)
  }

  lemma {:induction false} PendingPass(book: Book, log: seq<Issue>, from: nat, to: nat)
    requires Explains(book, log) && from <= to
    ensures Pending(log, to) == Pending(log, from) - Uops(book, from, to)
  {
    if from < to {
      PendingPass(book, log, from, to - 1);
      PendingStep(log, to - 1);
      assert CountedAt(book, log, to - 1);
    }
  }

  /** Taking ports without counting a uop. */
  lemma ExplainsMore(before: Book, after: Book, log: seq<Issue>)
    requires Explains(before, log)
    requires forall c: nat :: c in before ==>
               c in after && after[c].count == before[c].count && before[c].occUnits <= after[c].occUnits
    ensures Explains(after, log)
  {
    forall c: nat ensures CountedAt(after, log, c) { assert CountedAt(before, log, c); }
    forall i | 0 <= i < |log| ensures HasPort(after, log[i]) { assert HasPort(before, log[i]); }
  }

  lemma ExplainsUop(before: Book, after: Book, log: seq<Issue>, portMask: set<nat>, cycle: nat, port: nat)
    requires Explains(before, log) && NoClash(log) && cycle in before
    requires cycle in after && after == before[cycle := after[cycle]]
             && Booked(before[cycle], after[cycle], portMask, true, port)
    ensures Explains(after, log + [Issue(cycle, port)]) && NoClash(log + [Issue(cycle, port)])
  {
    var log' := log + [Issue(cycle, port)];
    assert log'[..|log|] == log;
    forall c: nat ensures CountedAt(after, log', c) { assert CountedAt(before, log, c); }
    forall i | 0 <= i < |log'| ensures HasPort(after, log'[i]) { if i < |log| { assert HasPort(before, log[i]); } }
    forall i, j | 0 <= i < j < |log'| ensures Differ(log', i, j) {
      if j < |log| { assert Differ(log, i, j); } else { assert HasPort(before, log[i]); }
    }
  }

  lemma ExtraSlotsKeep(mid: Book, after: Book, port: nat, cycle: nat, slots: seq<nat>, log: seq<Issue>)
    requires Explains(mid, log) && ExtraSlots(mid, after, port, cycle, slots)
    ensures Explains(after, log)
  {
    forall c: nat | c in mid ensures c in after && after[c].count == mid[c].count
        && mid[c].occUnits <= after[c].occUnits {
      if i :| 0 <= i < |slots| && slots[i] == c {
        assert SlotTaken(mid, after, port, cycle, slots[i]);
      } else {
        assert c !in slots;
      }
    }
    ExplainsMore(mid, after, log);
  }

  lemma {:induction false} NoneLater(log: seq<Issue>, t: nat, c: nat)
    requires Pending(log, t) == 0 && c >= t
    ensures CountAt(log, c) == 0 && forall i :: 0 <= i < |log| ==> log[i].cycle < t
  {
    if log != [] { NoneLater(log[..|log| - 1], t, c); }
  }

  /** A jump when no uop is left to come. */
  lemma ExplainsLeap(before: Book, after: Book, log: seq<Issue>, from: nat, to: nat)
    requires Explains(before, log) && Leapt(before, after, to) && from <= to && Pending(log, from) == 0
    ensures Explains(after, log)
  {
    forall c: nat ensures CountedAt(after, log, c) {
      assert CountedAt(before, log, c) && LeaptAt(before, after, to, c);
      if c >= from { NoneLater(log, from, c); }
    }
    forall i | 0 <= i < |log| ensures HasPort(after, log[i]) {
      NoneLater(log, from, from);
      assert HasPort(before, log[i]) && LeaptAt(before, after, to, log[i].cycle);
    }
  }

  /** How a run stands: what it has issued, and what the structure says of it. */
  ghost predicate RunOK(w: WindowStructure, log: seq<Issue>, now: nat)
    reads w
  {
    w.Valid(now) && Explains(w.book, log) && NoClash(log) && w.occupancy == Pending(log, now)
  }

  /** How an operation ended: the program refuses to jump into the past, and a rebase may
      meet a booking that a jump has left behind. */
  datatype Outcome = Done | Refused | Aborted

  method RunUop(w: WindowStructure, log: seq<Issue>, now: nat, op: Op) returns (log': seq<Issue>, now': nat, ok: bool)
    requires op.Uop? && OpOK(op) && RunOK(w, log, now)
    modifies w`curWin, w`nextWin, w`ubWin, w`occupancy, w`curPos, w`book
    ensures now' >= now && (!ok ==> w.stale > 0 && log' == log)
    ensures ok ==> RunOK(w, log', now') && |log'| == |log| + 1 && log'[..|log|] == log && ServedBy(op, log'[|log|])
  {
    ghost var before := w.book;
    var cycle, port, slots;
    ghost var mid;
    now', cycle, port, slots, ok, mid := w.Schedule(now, op.schedCycle, op.portMask, op.extraSlots);
    log' := log;
    if ok {
      log' := log + [Issue(cycle, port)];
      ExplainsUop(before, mid, log, op.portMask, cycle, port);
      ExtraSlotsKeep(mid, w.book, port, cycle, slots, log');
      PendingPass(before, log, now, now');
      assert log'[..|log|] == log;
    }
  }

  /** The jump of a run.  Whether a booking is left behind can be seen right after it. */
  method RunJump(w: WindowStructure, log: seq<Issue>, now: nat, target: nat) returns (ok: bool, behind: bool)
    requires RunOK(w, log, now) && target >= now
    modifies w
    ensures !ok ==> old(w.stale) > 0 && behind
    ensures ok ==> RunOK(w, log, target) && (behind <==> w.stale > 0)
    ensures ok ==> (behind <==> w.ubWin != [] && w.ubWin[0].0 < target - w.curPos + 2 * w.H)
  {
    ghost var before := w.book;
    var drained, sound;
    drained, sound, ok := w.LongAdvance(now, target);
    behind := !ok || (w.ubWin != [] && w.ubWin[0].0 < target - w.curPos + 2 * w.H);
    if ok {
      PendingPass(before, log, now, drained);
      if drained < target {
        ExplainsLeap(before, w.book, log, drained, target);
        PendingNone(before, log, drained, target);
      }
    }
  }

  /** One step of a run; behind says whether a jump has left a booking behind. */
  method Step(w: WindowStructure, log: seq<Issue>, now: nat, behind: bool, op: Op)
      returns (log': seq<Issue>, now': nat, behind': bool, outcome: Outcome)
    requires OpOK(op) && RunOK(w, log, now) && (behind <==> w.stale > 0)
    modifies w
    ensures outcome.Done? ==> RunOK(w, log', now') && now' >= now && (behind' <==> w.stale > 0)
    ensures outcome.Done? ==>
              && |log'| == |log| + (if op.Uop? then 1 else 0) && log'[..|log|] == log
              && (op.Uop? ==> ServedBy(op, log'[|log|]))
    ensures !outcome.Done? ==> log' == log && now' == now && behind' == behind
    ensures outcome.Refused? <==> op.Jump? && op.target < now
    ensures outcome.Aborted? ==> behind && !op.Poison?
    ensures op.Tick? ==> (outcome.Aborted? <==> behind && old(w.curPos) + 1 == w.H)
    ensures op.Jump? && outcome.Done? ==> now' == op.target
    ensures !op.Jump? ==> behind' == behind
  {
    log', now', behind', outcome := log, now, behind, Done;
    var ok := true;
    var next := now;
    match op {
      case Uop(_, _, _) =>
        log', next, ok := RunUop(w, log, now, op);
      case Tick =>
        next, ok := w.AdvancePos(now);
        if ok { PendingPass(w.book, log, now, next); }
      case Jump(target) =>
        if target < now {
          outcome := Refused;
          return;
        }
        var b;
        ok, b := RunJump(w, log, now, target);
        if ok { next, behind' := target, b; }
      case Poison(target, portMask) =>
        ghost var before := w.book;
        var last := w.PoisonRange(now, target, portMask);
        ExplainsMore(before, w.book, log);
    }
    if ok { now' := next; } else { outcome := Aborted; }
  }

  lemma PendingNone(book: Book, log: seq<Issue>, from: nat, to: nat)
    requires Explains(book, log) && from <= to && Pending(log, from) == 0
    ensures Pending(log, to) == 0
  {
    PendingPass(book, log, from, to);
  }

  /** A uop got a port of its mask, in a cycle not before the one it asked for. */
  ghost predicate ServedBy(op: Op, x: Issue)
    requires op.Uop?
  {
    x.port in op.portMask && x.cycle >= op.schedCycle
  }

  /** The log has one entry for each uop, in order, and that serves it. */
  ghost predicate Issued(ops: seq<Op>, log: seq<Issue>) {
    if ops == [] then log == []
    else
      var front, last := ops[..|ops| - 1], ops[|ops| - 1];
      if last.Uop? then log != [] && ServedBy(last, log[|log| - 1]) && Issued(front, log[..|log| - 1])
          else Issued(front, log)
  }

  lemma IssuedStep(ops: seq<Op>, done: nat, log: seq<Issue>, log': seq<Issue>)
    requires done < |ops| && Issued(ops[..done], log)
    requires |log'| == |log| + (if ops[done].Uop? then 1 else 0) && log'[..|log|] == log
             && (ops[done].Uop? ==> ServedBy(ops[done], log'[|log|]))
    ensures Issued(ops[..done + 1], log')
  {
    assert ops[..done + 1][..done] == ops[..done];
    if !ops[done].Uop? { assert log' == log; }
  }

  /** Any run of a fresh window: every uop asked for is issued once, on a port of its
      mask and not before its cycle, no two share a port in a cycle, and occupancy is
      the number of uops still to come.  The run ends early only at a jump into the past,
      or at a rebase after a jump that left a booking behind. */
  method Run(h: nat, wsz: nat, start: nat, ops: seq<Op>)
      returns (log: seq<Issue>, now: nat, occupancy: nat, done: nat, behind: bool, outcome: Outcome)
    requires h > 0 && wsz > 0 && forall i :: 0 <= i < |ops| ==> OpOK(ops[i])
    ensures done <= |ops| && Issued(ops[..done], log) && NoClash(log)
    ensures outcome.Done? <==> done == |ops|
    ensures outcome.Done? ==> occupancy == Pending(log, now) <= wsz
    ensures outcome.Refused? ==> ops[done].Jump? && ops[done].target < now
    ensures outcome.Aborted? ==> behind && exists i :: 0 <= i < done && ops[i].Jump?
  {
    var w := new WindowStructure(h, wsz, start);
    log, now, done, behind, outcome := [], start, 0, false, Done;
    while outcome.Done? && done < |ops|
      invariant done <= |ops| && Issued(ops[..done], log) && NoClash(log) && fresh(w) && w.WSZ == wsz
      invariant outcome.Done? ==> RunOK(w, log, now) && (behind <==> w.stale > 0)
      invariant outcome.Refused? ==> done < |ops| && ops[done].Jump? && ops[done].target < now
      invariant outcome.Aborted? ==> done < |ops| && behind
      invariant behind ==> exists i :: 0 <= i < done && ops[i].Jump?
      decreases |ops| - done, outcome.Done?
    {
      ghost var log0 := log;
      log, now, behind, outcome := Step(w, log, now, behind, ops[done]);
      if outcome.Done? {
        IssuedStep(ops, done, log0, log);
        done := done + 1;
      }
    }
    occupancy := w.occupancy;
  }
}
