/** The per-bank request queues of the DRAM controller: first-ready, first-come
    first-served, with a limit on how many row hits may jump the queue. */
module FrFcfs {
  import opened IntrusiveLists

  /** A queued request; hits is its place in a streak of accesses to one row. */
  datatype Item = Item(id: nat, row: nat, hits: nat)

  type Queue = seq<Item>

  // ---------------------------------------------------------------------------
  // Where a request is put
  // ---------------------------------------------------------------------------

  /** One past the last of the first n items that is of the row, or 0. */
  function AfterLastOf(q: Queue, row: nat, n: nat): (p: nat)
    requires n <= |q|
    ensures p <= n && (p > 0 ==> q[p - 1].row == row)
    ensures forall i :: p <= i < n ==> q[i].row != row
  {
    if n == 0 then 0 else if q[n - 1].row == row then n else AfterLastOf(q, row, n - 1)
  }

  /** One past the last item of the row, or 0. */
  function AfterLast(q: Queue, row: nat): (p: nat)
    ensures p <= |q| && (p > 0 ==> q[p - 1].row == row)
    ensures forall i :: p <= i < |q| ==> q[i].row != row
  {
    AfterLastOf(q, row, |q|)
  }

  lemma AfterLastIs(q: Queue, row: nat, p: nat)
    requires p <= |q| && (p > 0 ==> q[p - 1].row == row) && forall i :: p <= i < |q| ==> q[i].row != row
    ensures AfterLast(q, row) == p
  {
    var p' := AfterLast(q, row);
    assert p' > 0 ==> q[p' - 1].row == row;
  }

  /** The position of an arriving request, and its hits.  `free` are the hits it has
      if the queue is empty: one more than the bank's if its row is open and may
      be hit again, and 0 otherwise. */
  function PlaceOf(q: Queue, row: nat, limit: nat, free: nat): (nat, nat) {
    var p := AfterLast(q, row);
    if p > 0 && q[p - 1].hits < limit then (p, q[p - 1].hits + 1)
    else (|q|, if q == [] then free else 0)
  }

  function Arrived(q: Queue, id: nat, row: nat, limit: nat, free: nat): Queue {
    var (p, hits) := PlaceOf(q, row, limit, free);
    q[..p] + [Item(id, row, hits)] + q[p..]
  }

  lemma ArrivedCases(q: Queue, id: nat, row: nat, limit: nat, free: nat)
    ensures var p := AfterLast(q, row);
            Arrived(q, id, row, limit, free) ==
            if p > 0 && q[p - 1].hits < limit then q[..p] + [Item(id, row, q[p - 1].hits + 1)] + q[p..]
            else q + [Item(id, row, if q == [] then free else 0)]
  {
  }

  function FreeHits(open: bool, openRow: nat, curRowHits: nat, row: nat, limit: nat): (h: nat)
    ensures h <= limit
  {
    if open && row == openRow && curRowHits < limit then curRowHits + 1 else 0
  }

  // ---------------------------------------------------------------------------
  // The linked list
  // ---------------------------------------------------------------------------

  ghost function Contents(list: seq<Request>): Queue
    reads list
  {
    seq(|list|, i requires 0 <= i < |list| reads list => Item(list[i].id, list[i].row, list[i].rowHitSeq))
  }

  /** The search from the back for the last request to the same row. */
  method FindLast(q: InList, row: nat) returns (m: Request?, ghost p: nat)
    requires q.Valid()
    ensures p == AfterLast(Contents(q.list), row) && m == (if p == 0 then null else q.list[p - 1])
    ensures m != null ==> m.rowHitSeq == Contents(q.list)[p - 1].hits
  {
    m, p := q.tail, |q.list|;
    while m != null && m.row != row
      invariant p <= |q.list| && m == (if p == 0 then null else q.list[p - 1])
      invariant forall i :: p <= i < |q.list| ==> q.list[i].row != row
      decreases p
    {
      assert LinkOK(q.list, q, p - 1);
      m := m.prev;
      p := p - 1;
    }
    AfterLastIs(Contents(q.list), row, p);
  }

  /** DDRMemory::queue, as far as the bank's queue goes. */
  method Enqueue(q: InList, r: Request, rowHitLimit: nat, open: bool, openRow: nat, curRowHits: nat)
    requires q.Valid() && r.IsFree()
    modifies q, r, q.list
    ensures q.Valid() && forall i :: 0 <= i < |q.list| ==> q.list[i] in old(q.list) || q.list[i] == r
    ensures Contents(q.list) ==
              Arrived(old(Contents(q.list)), r.id, r.row, rowHitLimit,
                  FreeHits(open, openRow, curRowHits, r.row, rowHitLimit))
  {
    ghost var c := Contents(q.list);
    ghost var target := Arrived(c, r.id, r.row, rowHitLimit, FreeHits(open, openRow, curRowHits, r.row, rowHitLimit));
    ArrivedCases(c, r.id, r.row, rowHitLimit, FreeHits(open, openRow, curRowHits, r.row, rowHitLimit));
    var m;
    ghost var p;
    m, p := FindLast(q, r.row);
    if m != null && m.rowHitSeq < rowHitLimit {
      assert target == c[..p] + [Item(r.id, r.row, m.rowHitSeq + 1)] + c[p..];
      QueueAfter(q, m, r, p);
    } else if m == null && open && r.row == openRow && curRowHits < rowHitLimit && q.Empty() {
      assert c == [] && target == [Item(r.id, r.row, curRowHits + 1)];
      QueueFirst(q, r, curRowHits + 1);
    } else {
      assert target == c + [Item(r.id, r.row, 0)];
      QueueLast(q, r);
    }
  }

  /** Queues in an empty queue, as a hit of the open row. */
  method QueueFirst(q: InList, r: Request, hits: nat)
    requires q.Valid() && r.IsFree() && q.list == []
    modifies q, r
    ensures q.Valid() && q.list == [r] && Contents(q.list) == [Item(r.id, r.row, hits)]
  {
    r.rowHitSeq := hits;
    q.PushFront(r);
  }

  /** Queues after the last access to the same row. */
  method QueueAfter(q: InList, m: Request, r: Request, ghost p: nat)
    requires q.Valid() && r.IsFree() && 0 < p <= |q.list| && m == q.list[p - 1]
    modifies q, r, q.list
    ensures q.Valid() && forall i :: 0 <= i < |q.list| ==> q.list[i] in old(q.list) || q.list[i] == r
    ensures Contents(q.list) == old(Contents(q.list))[..p] + [Item(r.id, r.row, old(m.rowHitSeq) + 1)]
            + old(Contents(q.list))[p..]
  {
    q.FreeIsElsewhere(r);
    assert LinkOK(q.list, q, p - 1);
    r.rowHitSeq := m.rowHitSeq + 1;
    q.InsertAfter(m, r, p - 1);
  }

  /** Queues last. */
  method QueueLast(q: InList, r: Request)
    requires q.Valid() && r.IsFree()
    modifies q, r, q.list
    ensures q.Valid() && forall i :: 0 <= i < |q.list| ==> q.list[i] in old(q.list) || q.list[i] == r
    ensures Contents(q.list) == old(Contents(q.list)) + [Item(r.id, r.row, 0)]
  {
    q.FreeIsElsewhere(r);
    r.rowHitSeq := 0;
    q.PushBack(r);
  }

  /** A served request leaves from the front. */
  method Dequeue(q: InList) returns (r: Request?)
    requires q.Valid()
    modifies q, q.list
    ensures q.Valid() && (r == null <==> old(q.list) == []) && forall i :: 0 <= i < |q.list| ==>
              q.list[i] in old(q.list)
    ensures r != null ==> old(Contents(q.list)) == [Item(r.id, r.row, r.rowHitSeq)] + Contents(q.list) && r.IsFree()
  {
    assert q.list != [] ==> LinkOK(q.list, q, 0);
    r := q.PopFront();
  }

  // ---------------------------------------------------------------------------
  // What every queue keeps
  // ---------------------------------------------------------------------------

  /** A streak of row hits is contiguous and counted. */
  ghost predicate StreakOK(q: Queue, i: nat)
    requires i < |q|
  {
    q[i].hits == 0 || i == 0 || (q[i - 1].row == q[i].row && q[i - 1].hits + 1 == q[i].hits)
  }

  ghost predicate ItemFine(q: Queue, i: nat, limit: nat, next: nat)
    requires i < |q|
  {
    q[i].hits <= limit && q[i].id < next && StreakOK(q, i)
  }

  ghost predicate InOrder(q: Queue, i: nat, j: nat)
    requires i < j < |q|
  {
    q[i].row == q[j].row ==> q[i].id < q[j].id
  }

  /** Items of one row are in order of arrival, for ids that count arrivals. */
  ghost predicate RowFifo(q: Queue) {
    forall i, j {:trigger InOrder(q, i, j)} :: 0 <= i < j < |q| ==> InOrder(q, i, j)
  }

  ghost predicate QueueOK(q: Queue, limit: nat, next: nat) {
    && (forall i {:trigger ItemFine(q, i, limit, next)} :: 0 <= i < |q| ==> ItemFine(q, i, limit, next))
    && RowFifo(q)
  }

  lemma ArrivalKeeps(q: Queue, limit: nat, next: nat, row: nat, free: nat)
    requires QueueOK(q, limit, next) && free <= limit
    ensures QueueOK(Arrived(q, next, row, limit, free), limit, next + 1)
  {
    var (p, hits) := PlaceOf(q, row, limit, free);
    var q', next' := Inserted(q, p, Item(next, row, hits)), next + 1;
    forall i | 0 <= i < |q'| ensures ItemFine(q', i, limit, next') {
      if i < p { assert ItemFine(q, i, limit, next); }
      if i > p { assert ItemFine(q, i - 1, limit, next); }
    }
    forall i | 0 <= i < |q| ensures q[i].id < next && (i >= p ==> q[i].row != row) {
      assert ItemFine(q, i, limit, next);
    }
    InsertedFifo(q, p, Item(next, row, hits));
  }

  lemma InsertedFifo(all: Queue, p: nat, x: Item)
    requires RowFifo(all) && p <= |all|
    requires forall i :: 0 <= i < |all| ==> all[i].id < x.id && (i >= p ==> all[i].row != x.row)
    ensures RowFifo(Inserted(all, p, x))
  {
    var all' := Inserted(all, p, x);
    forall i, j | 0 <= i < j < |all'| ensures InOrder(all', i, j) {
      if i != p && j != p { assert InOrder(all, if i < p then i else i - 1, if j < p then j else j - 1); }
    }
  }

  lemma PopKeeps(q: Queue, limit: nat, next: nat)
    requires QueueOK(q, limit, next) && q != []
    ensures QueueOK(q[1..], limit, next)
  {
    var q' := q[1..];
    forall i | 0 <= i < |q'| ensures ItemFine(q', i, limit, next) { assert ItemFine(q, i + 1, limit, next); }
    forall i, j | 0 <= i < j < |q'| ensures InOrder(q', i, j) { assert InOrder(q, i + 1, j + 1); }
  }

  /** The hits before a streak's item are right in front of it, so no more than
      `limit` requests in a row are served for their row. */
  lemma {:induction false} StreakIsContiguous(q: Queue, limit: nat, next: nat, i: nat, d: nat)
    requires QueueOK(q, limit, next) && i < |q| && d <= i && d <= q[i].hits
    ensures q[i - d].row == q[i].row && q[i - d].hits == q[i].hits - d && q[i - d].id <= q[i].id
  {
    if d > 0 {
      StreakIsContiguous(q, limit, next, i, d - 1);
      assert ItemFine(q, i - (d - 1), limit, next);
      assert InOrder(q, i - d, i);
    }
  }

  // ---------------------------------------------------------------------------
  // How often a waiting request can be bypassed
  // ---------------------------------------------------------------------------

  ghost function SumTo(s: seq<nat>, k: nat): nat
    requires k <= |s|
  {
    if k == 0 then 0 else SumTo(s, k - 1) + s[k - 1]
  }

  lemma {:induction false} SumSame(s: seq<nat>, t: seq<nat>, k: nat)
    requires k <= |s| && k <= |t| && forall i :: 0 <= i < k ==> s[i] == t[i]
    ensures SumTo(s, k) == SumTo(t, k)
  {
    if k > 0 { SumSame(s, t, k - 1); }
  }

  /** Entry p - 1 hands what it has, less one, to a new entry after it. */
  lemma {:induction false} SumSpent(s: seq<nat>, t: seq<nat>, p: nat, k: nat)
    requires 0 < p <= k <= |s| && |t| == |s| + 1
    requires (forall i :: 0 <= i < p - 1 ==> t[i] == s[i]) && t[p - 1] + t[p] + 1 == s[p - 1]
    requires forall i :: p < i <= k ==> t[i] == s[i - 1]
    ensures SumTo(t, k + 1) == SumTo(s, k) - 1
  {
    if k == p {
      SumSame(t, s, p - 1);
    } else {
      SumSpent(s, t, p, k - 1);
    }
  }

  lemma {:induction false} SumDrop(s: seq<nat>, k: nat)
    requires 0 < k <= |s|
    ensures SumTo(s[1..], k - 1) == SumTo(s, k) - s[0]
  {
    if k > 1 { SumDrop(s, k - 1); }
  }

  lemma {:induction false} SumBound(s: seq<nat>, k: nat, m: nat)
    requires k <= |s| && forall i :: 0 <= i < k ==> s[i] <= m
    ensures SumTo(s, k) <= k * m
  {
    if k > 0 {
      SumBound(s, k - 1, m);
      assert k * m == (k - 1) * m + m;
    }
  }

  /** No later item is of the same row. */
  ghost predicate IsLast(q: Queue, i: nat)
    requires i < |q|
  {
    forall j :: i < j < |q| ==> q[j].row != q[i].row
  }

  /** The hits that a row may still take: those of its last item. */
  ghost function CreditOf(q: Queue, i: nat, limit: nat): nat
    requires i < |q|
  {
    if IsLast(q, i) && q[i].hits < limit then limit - q[i].hits else 0
  }

  ghost function Credits(q: Queue, limit: nat): seq<nat> {
    seq(|q|, i requires 0 <= i < |q| => CreditOf(q, i, limit))
  }

  /** The hits that may still be taken ahead of position k. */
  ghost function Credit(q: Queue, k: nat, limit: nat): nat
    requires k <= |q|
  {
    SumTo(Credits(q, limit), k)
  }

  ghost function Inserted(q: Queue, p: nat, x: Item): Queue
    requires p <= |q|
  {
    q[..p] + [x] + q[p..]
  }

  /** An item before an insertion is its row's last unless the new item is of its row. */
  lemma LastBefore(q: Queue, p: nat, x: Item, i: nat)
    requires i < p <= |q|
    ensures Inserted(q, p, x)[i] == q[i]
    ensures IsLast(Inserted(q, p, x), i) <==> IsLast(q, i) && q[i].row != x.row
  {
    var q' := Inserted(q, p, x);
    assert q'[p] == x;
    if IsLast(q', i) {
      forall j | i < j < |q| ensures q[j].row != q[i].row { assert q'[if j < p then j else j + 1] == q[j]; }
    }
  }

  /** An item after an insertion is its row's last just as before. */
  lemma LastAfter(q: Queue, p: nat, x: Item, i: nat)
    requires p <= i < |q|
    ensures Inserted(q, p, x)[i + 1] == q[i]
    ensures IsLast(Inserted(q, p, x), i + 1) <==> IsLast(q, i)
  {
    var q' := Inserted(q, p, x);
    if IsLast(q', i + 1) {
      forall j | i < j < |q| ensures q[j].row != q[i].row { assert q'[j + 1] == q[j]; }
    }
  }

  lemma CreditOfBefore(q: Queue, p: nat, x: Item, i: nat, limit: nat)
    requires AfterLast(q, x.row) <= p <= |q| && i < p
    requires AfterLast(q, x.row) == i + 1 ==> q[i].hits >= limit
    ensures CreditOf(Inserted(q, p, x), i, limit) == CreditOf(q, i, limit)
  {
    LastBefore(q, p, x, i);
    if IsLast(q, i) && q[i].row == x.row { AfterLastIs(q, x.row, i + 1); }
  }

  /** The row's last item hands its credit, less one, to the hit. */
  lemma CreditOfHit(q: Queue, p: nat, x: Item, limit: nat)
    requires p == AfterLast(q, x.row) > 0 && q[p - 1].hits < limit && x.hits == q[p - 1].hits + 1
    ensures CreditOf(Inserted(q, p, x), p - 1, limit) + CreditOf(Inserted(q, p, x), p, limit) + 1 ==
              CreditOf(q, p - 1, limit)
  {
    assert Inserted(q, p, x)[p] == x;
    LastBefore(q, p, x, p - 1);
    assert IsLast(Inserted(q, p, x), p);
    assert IsLast(q, p - 1);
  }

  /** An arrival that goes ahead of position k spends one of its credit. */
  lemma CreditHit(q: Queue, x: Item, k: nat, limit: nat)
    requires var p := AfterLast(q, x.row); 0 < p <= k < |q| && q[p - 1].hits < limit && x.hits == q[p - 1].hits + 1
    ensures Credit(Inserted(q, AfterLast(q, x.row), x), k + 1, limit) == Credit(q, k, limit) - 1
  {
    var p := AfterLast(q, x.row);
    var s, t := Credits(q, limit), Credits(Inserted(q, p, x), limit);
    forall i | 0 <= i < p - 1 ensures t[i] == s[i] { CreditOfBefore(q, p, x, i, limit); }
    CreditOfHit(q, p, x, limit);
    forall i | p < i <= k ensures t[i] == s[i - 1] { LastAfter(q, p, x, i - 1); }
    SumSpent(s, t, p, k);
  }

  /** One that is put behind position k leaves its credit. */
  lemma CreditBehind(q: Queue, p: nat, x: Item, k: nat, limit: nat)
    requires AfterLast(q, x.row) <= p <= |q| && k < p
    requires 0 < AfterLast(q, x.row) <= k ==> q[AfterLast(q, x.row) - 1].hits >= limit
    ensures Credit(Inserted(q, p, x), k, limit) == Credit(q, k, limit)
  {
    var s, t := Credits(q, limit), Credits(Inserted(q, p, x), limit);
    forall i | 0 <= i < k ensures t[i] == s[i] { CreditOfBefore(q, p, x, i, limit); }
    SumSame(t, s, k);
  }

  lemma CreditArrival(q: Queue, id: nat, row: nat, k: nat, limit: nat, free: nat)
    requires k < |q|
    ensures var (p, hits) := PlaceOf(q, row, limit, free);
            var q' := Arrived(q, id, row, limit, free);
            if p <= k then Credit(q', k + 1, limit) == Credit(q, k, limit) - 1 && q'[k + 1] == q[k]
            else Credit(q', k, limit) == Credit(q, k, limit) && q'[k] == q[k]
  {
    var (p, hits) := PlaceOf(q, row, limit, free);
    if p <= k {
      CreditHit(q, Item(id, row, hits), k, limit);
    } else {
      CreditBehind(q, p, Item(id, row, hits), k, limit);
    }
  }

  lemma LastAfterPop(q: Queue, i: nat)
    requires i + 1 < |q|
    ensures IsLast(q[1..], i) <==> IsLast(q, i + 1)
  {
    var q' := q[1..];
    if IsLast(q', i) {
      forall j | i + 1 < j < |q| ensures q[j].row != q[i + 1].row { assert q'[j - 1] == q[j]; }
    }
  }

  lemma CreditPop(q: Queue, k: nat, limit: nat)
    requires 0 < k <= |q|
    ensures Credit(q[1..], k - 1, limit) <= Credit(q, k, limit)
  {
    var s, t := Credits(q, limit), Credits(q[1..], limit);
    forall i | 0 <= i < k - 1 ensures t[i] == s[1..][i] { LastAfterPop(q, i); }
    SumDrop(s, k);
    SumSame(t, s[1..], k - 1);
  }

  // ---------------------------------------------------------------------------
  // Every run of a queue
  // ---------------------------------------------------------------------------

  /** What happens to a bank's queue; `free` as in PlaceOf. */
  datatype Event = Arrival(row: nat, free: nat) | Service

  /** How many later arrivals are put ahead of the item at position k before it is
      served, and how many others are served before it. */
  ghost function Bypasses(q: Queue, k: nat, limit: nat, next: nat, events: seq<Event>): (nat, nat)
    requires k < |q|
    decreases |events|
  {
    if events == [] then (0, 0)
    else match events[0]
      case Service =>
        if k == 0 then (0, 0)
        else var (b, s) := Bypasses(q[1..], k - 1, limit, next, events[1..]); (b, s + 1)
      case Arrival(row, free) =>
        var p := PlaceOf(q, row, limit, free).0;
        var q' := Arrived(q, next, row, limit, free);
        if p <= k then var (b, s) := Bypasses(q', k + 1, limit, next + 1, events[1..]); (b + 1, s)
        else Bypasses(q', k, limit, next + 1, events[1..])
  }

  /** Whatever arrives and however often the bank serves, at most k * limit later
      arrivals get ahead of the item at position k, and it is served after at
      most k * (limit + 1) others. */
  lemma {:induction false} BypassesBounded(q: Queue, k: nat, limit: nat, next: nat, events: seq<Event>)
    requires k < |q|
    ensures var (b, s) := Bypasses(q, k, limit, next, events);
            b <= Credit(q, k, limit) <= k * limit && s <= k + b <= k * (limit + 1)
    decreases |events|
  {
    SumBound(Credits(q, limit), k, limit);
    assert k * (limit + 1) == k * limit + k;
    if events != [] {
      match events[0] {
        case Service =>
          if k > 0 {
            CreditPop(q, k, limit);
            BypassesBounded(q[1..], k - 1, limit, next, events[1..]);
          }
        case Arrival(row, free) =>
          CreditArrival(q, next, row, k, limit, free);
          var q' := Arrived(q, next, row, limit, free);
          if PlaceOf(q, row, limit, free).0 <= k {
            BypassesBounded(q', k + 1, limit, next + 1, events[1..]);
          } else {
            BypassesBounded(q', k, limit, next + 1, events[1..]);
          }
      }
    }
  }

  /** How often an id occurs. */
  ghost function Times(q: Queue, id: nat): nat {
    if q == [] then 0 else Times(q[1..], id) + if q[0].id == id then 1 else 0
  }

  lemma {:induction false} TimesInserted(q: Queue, p: nat, x: Item, id: nat)
    requires p <= |q|
    ensures Times(Inserted(q, p, x), id) == Times(q, id) + if x.id == id then 1 else 0
  {
    if p == 0 {
      assert Inserted(q, p, x)[1..] == q;
    } else {
      TimesInserted(q[1..], p - 1, x, id);
      assert Inserted(q, p, x)[1..] == Inserted(q[1..], p - 1, x);
    }
  }

  /** Each of the ids below n occurs once, and no other. */
  ghost predicate EachOnce(q: Queue, n: nat) {
    forall id: nat {:trigger Times(q, id)} :: Times(q, id) == if id < n then 1 else 0
  }

  ghost predicate ServedFine(served: Queue, i: nat, limit: nat, next: nat)
    requires i < |served|
  {
    served[i].hits <= limit && served[i].id < next
  }

  /** What has been served, followed by what waits: every arrival is there once, and
      the accesses to a row are in order of arrival. */
  ghost predicate HistoryOK(served: Queue, q: Queue, limit: nat, next: nat) {
    && QueueOK(q, limit, next)
    && (forall i {:trigger ServedFine(served, i, limit, next)} :: 0 <= i < |served| ==>
         ServedFine(served, i, limit, next))
    && RowFifo(served + q) && EachOnce(served + q, next)
  }

  lemma HistoryArrival(served: Queue, q: Queue, limit: nat, next: nat, row: nat, free: nat)
    requires HistoryOK(served, q, limit, next) && free <= limit
    ensures HistoryOK(served, Arrived(q, next, row, limit, free), limit, next + 1)
  {
    ArrivalKeeps(q, limit, next, row, free);
    var (p, hits) := PlaceOf(q, row, limit, free);
    var x, all, next' := Item(next, row, hits), served + q, next + 1;
    var at := |served| + p;
    assert served + Arrived(q, next, row, limit, free) == Inserted(all, at, x);
    forall i | 0 <= i < |served| ensures ServedFine(served, i, limit, next') {
      assert ServedFine(served, i, limit, next);
    }
    forall i | 0 <= i < |all| ensures all[i].id < next && (i >= at ==> all[i].row != row) {
      if i < |served| {
        assert ServedFine(served, i, limit, next);
      } else {
        assert ItemFine(q, i - |served|, limit, next);
      }
    }
    InsertedFifo(all, at, x);
    forall id: nat ensures Times(Inserted(all, at, x), id) == if id < next' then 1 else 0 {
      TimesInserted(all, at, x, id);
    }
  }

  lemma HistoryServe(served: Queue, q: Queue, limit: nat, next: nat)
    requires HistoryOK(served, q, limit, next) && q != []
    ensures HistoryOK(served + [q[0]], q[1..], limit, next)
  {
    PopKeeps(q, limit, next);
    assert served + [q[0]] + q[1..] == served + q;
    assert ItemFine(q, 0, limit, next);
    var served' := served + [q[0]];
    forall i | 0 <= i < |served'| ensures ServedFine(served', i, limit, next) {
      if i < |served| { assert ServedFine(served, i, limit, next); }
    }
  }

  /** What the bank looks like to an arrival: whether a row is open, which one, and
      how often it was hit.  That is up to the scheduler. */
  datatype Op = Request(row: nat, open: bool, openRow: nat, curRowHits: nat) | ServeFirst

  method Arrive(q: InList, limit: nat, op: Op, ghost served: Queue, arrivals: nat)
    requires q.Valid() && HistoryOK(served, Contents(q.list), limit, arrivals) && op.Request?
    modifies q, q.list
    ensures q.Valid() && HistoryOK(served, Contents(q.list), limit, arrivals + 1)
    ensures forall i :: 0 <= i < |q.list| ==> q.list[i] in old(q.list) || fresh(q.list[i])
  {
    var r := new IntrusiveLists.Request(arrivals, op.row);
    HistoryArrival(served, Contents(q.list), limit, arrivals, op.row,
        FreeHits(op.open, op.openRow, op.curRowHits, op.row, limit));
    Enqueue(q, r, limit, op.open, op.openRow, op.curRowHits);
  }

  method Serve(q: InList, ghost limit: nat, served: Queue, ghost arrivals: nat) returns (served': Queue)
    requires q.Valid() && HistoryOK(served, Contents(q.list), limit, arrivals)
    modifies q, q.list
    ensures q.Valid() && HistoryOK(served', Contents(q.list), limit, arrivals)
    ensures forall i :: 0 <= i < |q.list| ==> q.list[i] in old(q.list)
    ensures served' == if old(q.list) == [] then served else served + [old(Contents(q.list))[0]]
  {
    served' := served;
    if !q.Empty() {
      HistoryServe(served, Contents(q.list), limit, arrivals);
      var r := Dequeue(q);
      served' := served + [Item(r.id, r.row, r.rowHitSeq)];
    }
  }

  /** The requests of a queue, from front to back. */
  method Listed(q: InList) returns (items: Queue)
    requires q.Valid()
    ensures items == Contents(q.list)
  {
    items := [];
    var r := q.head;
    while r != null
      invariant |items| <= |q.list| && items == Contents(q.list)[..|items|]
      invariant r == if |items| < |q.list| then q.list[|items|] else null
      decreases |q.list| - |items|
    {
      assert LinkOK(q.list, q, |items|);
      items := items + [Item(r.id, r.row, r.rowHitSeq)];
      r := r.next;
    }
  }

  /** Any run of a bank's queue. */
  method Run(limit: nat, ops: seq<Op>) returns (served: Queue, waiting: Queue, arrivals: nat)
    ensures HistoryOK(served, waiting, limit, arrivals)
  {
    var q := new InList();
    served, arrivals := [], 0;
    assert served + Contents(q.list) == [];
    for i := 0 to |ops|
      invariant fresh(q) && q.Valid() && forall i :: 0 <= i < |q.list| ==> fresh(q.list[i])
      invariant HistoryOK(served, Contents(q.list), limit, arrivals)
    {
      if ops[i].Request? {
        Arrive(q, limit, ops[i], served, arrivals);
        arrivals := arrivals + 1;
      } else {
        served := Serve(q, limit, served, arrivals);
      }
    }
    waiting := Listed(q);
  }
}
