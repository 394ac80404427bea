/** The request queues of the DRAM controller: an allocation-ordered queue of
    requests for each direction, and the same requests in per-bank lists. */
module DdrQueues {
  import opened FrFcfs

  /** A request; requests are known by their number. */
  datatype Req = Req(bank: nat, row: nat, size: nat, write: bool, arrival: nat)

  ghost predicate ItemOK(reqs: seq<Req>, ids: seq<nat>, b: nat, x: Item) {
    x.id in ids && x.id < |reqs| && reqs[x.id].bank == b && reqs[x.id].row == x.row
  }

  ghost predicate DistinctItems(list: Queue) {
    forall i, j :: 0 <= i < j < |list| ==> list[i].id != list[j].id
  }

  ghost predicate ListOK(reqs: seq<Req>, ids: seq<nat>, list: Queue, b: nat) {
    (forall i {:trigger ItemOK(reqs, ids, b, list[i])} :: 0 <= i < |list| ==> ItemOK(reqs, ids, b, list[i]))
        && DistinctItems(list)
  }

  ghost predicate Holds(list: Queue, id: nat) {
    exists i :: 0 <= i < |list| && list[i].id == id
  }

  ghost predicate Queued(reqs: seq<Req>, lists: seq<Queue>, id: nat) {
    id < |reqs| && reqs[id].bank < |lists| && Holds(lists[reqs[id].bank], id)
  }

  ghost predicate Distinct(ids: seq<nat>) {
    forall i, j :: 0 <= i < j < |ids| ==> ids[i] != ids[j]
  }

  /** The queue and the lists hold the same requests, each once and with its bank. */
  ghost predicate ListsOK(reqs: seq<Req>, ids: seq<nat>, lists: seq<Queue>) {
    && Distinct(ids)
    && (forall b {:trigger ListOK(reqs, ids, lists[b], b)} :: 0 <= b < |lists| ==> ListOK(reqs, ids, lists[b], b))
    && (forall k {:trigger Queued(reqs, lists, ids[k])} :: 0 <= k < |ids| ==> Queued(reqs, lists, ids[k]))
  }

  /** A request is first in its bank's list. */
  predicate IsFront(reqs: seq<Req>, lists: seq<Queue>, id: nat) {
    id < |reqs| && reqs[id].bank < |lists| && lists[reqs[id].bank] != [] && lists[reqs[id].bank][0].id == id
  }

  /** If anything is queued, the first of some bank's list is. */
  lemma SomeFront(reqs: seq<Req>, ids: seq<nat>, lists: seq<Queue>) returns (k: nat)
    requires ListsOK(reqs, ids, lists) && ids != []
    ensures k < |ids| && IsFront(reqs, lists, ids[k])
  {
    assert Queued(reqs, lists, ids[0]);
    var b := reqs[ids[0]].bank;
    assert ListOK(reqs, ids, lists[b], b) && ItemOK(reqs, ids, b, lists[b][0]);
    k :| 0 <= k < |ids| && ids[k] == lists[b][0].id;
  }

  /** Requests may be added, and arrival times updated. */
  ghost predicate SamePlaces(reqs: seq<Req>, reqs': seq<Req>) {
    |reqs| <= |reqs'| && forall i :: 0 <= i < |reqs| ==> reqs'[i].bank == reqs[i].bank && reqs'[i].row == reqs[i].row
  }

  lemma ListsSame(reqs: seq<Req>, reqs': seq<Req>, ids: seq<nat>, lists: seq<Queue>)
    requires ListsOK(reqs, ids, lists) && SamePlaces(reqs, reqs')
    ensures ListsOK(reqs', ids, lists)
  {
    forall b | 0 <= b < |lists| ensures ListOK(reqs', ids, lists[b], b) {
      assert ListOK(reqs, ids, lists[b], b);
      forall i | 0 <= i < |lists[b]| ensures ItemOK(reqs', ids, b, lists[b][i]) {
        assert ItemOK(reqs, ids, b, lists[b][i]);
      }
    }
    forall k | 0 <= k < |ids| ensures Queued(reqs', lists, ids[k]) { assert Queued(reqs, lists, ids[k]); }
  }

  /** A request joins the queue and its bank's list. */
  lemma ListsJoin(reqs: seq<Req>, ids: seq<nat>, lists: seq<Queue>, id: nat, limit: nat, free: nat)
    requires ListsOK(reqs, ids, lists) && id !in ids && id < |reqs| && reqs[id].bank < |lists|
    ensures var b := reqs[id].bank; ListsOK(reqs, ids + [id],
            lists[b := Arrived(lists[b], id, reqs[id].row, limit, free)])
  {
    var b, ids' := reqs[id].bank, ids + [id];
    var (p, hits) := PlaceOf(lists[b], reqs[id].row, limit, free);
    var x := Item(id, reqs[id].row, hits);
    var list', lists' := Inserted(lists[b], p, x), lists[b := Inserted(lists[b], p, x)];
    forall c | 0 <= c < |lists| ensures ListOK(reqs, ids', lists'[c], c) {
      assert ListOK(reqs, ids, lists[c], c);
      JoinOne(reqs, ids, lists[c], c, id, if c == b then p else 0, x);
    }
    forall k | 0 <= k < |ids'| ensures Queued(reqs, lists', ids'[k]) {
      if k < |ids| {
        assert Queued(reqs, lists, ids[k]);
        HoldsInserted(lists[b], p, x, ids[k]);
      } else {
        assert list'[p].id == id;
      }
    }
  }

  lemma JoinOne(reqs: seq<Req>, ids: seq<nat>, list: Queue, c: nat, id: nat, p: nat, x: Item)
    requires ListOK(reqs, ids, list, c) && id !in ids && p <= |list| && id < |reqs|
             && x == Item(id, reqs[id].row, x.hits)
    ensures ListOK(reqs, ids + [id], list, c)
    ensures reqs[id].bank == c ==> ListOK(reqs, ids + [id], Inserted(list, p, x), c)
  {
    forall i | 0 <= i < |list| ensures ItemOK(reqs, ids + [id], c, list[i]) && list[i].id != id {
      assert ItemOK(reqs, ids, c, list[i]);
    }
    assert id == (ids + [id])[|ids|];
    if reqs[id].bank == c {
      var all := Inserted(list, p, x);
      forall i | 0 <= i < |all| ensures ItemOK(reqs, ids + [id], c, all[i]) {
        if i != p { assert all[i] == list[if i < p then i else i - 1]; }
      }
    }
  }

  lemma HoldsInserted(list: Queue, p: nat, x: Item, id: nat)
    requires p <= |list|
    ensures Holds(list, id) ==> Holds(Inserted(list, p, x), id)
  {
    if i :| 0 <= i < |list| && list[i].id == id {
      assert Inserted(list, p, x)[if i < p then i else i + 1] == list[i];
    }
  }

  function Without(ids: seq<nat>, k: nat): seq<nat>
    requires k < |ids|
  {
    ids[..k] + ids[k + 1..]
  }

  /** The first request of a bank's list leaves it and the queue. */
  lemma ListsLeave(reqs: seq<Req>, ids: seq<nat>, lists: seq<Queue>, k: nat)
    requires ListsOK(reqs, ids, lists) && k < |ids| && IsFront(reqs, lists, ids[k])
    ensures var b := reqs[ids[k]].bank; ListsOK(reqs, Without(ids, k), lists[b := lists[b][1..]])
  {
    var id, b, ids' := ids[k], reqs[ids[k]].bank, Without(ids, k);
    var lists' := lists[b := lists[b][1..]];
    forall j | 0 <= j < |ids'| ensures ids'[j] == ids[if j < k then j else j + 1] && ids'[j] != id
        && Queued(reqs, lists', ids'[j]) {
      var i := if j < k then j else j + 1;
      assert Queued(reqs, lists, ids[i]);
      if reqs[ids[i]].bank == b { HoldsTail(lists[b], ids[i]); }
    }
    forall c | 0 <= c < |lists| ensures ListOK(reqs, ids', lists'[c], c) {
      assert ListOK(reqs, ids, lists[c], c);
      LeaveOne(reqs, ids, lists[c], c, k, if c == b then 1 else 0);
    }
  }

  lemma LeaveOne(reqs: seq<Req>, ids: seq<nat>, list: Queue, c: nat, k: nat, from: nat)
    requires ListOK(reqs, ids, list, c) && k < |ids| && from <= 1 && from <= |list|
    requires if from == 1 then list[0].id == ids[k] else ids[k] < |reqs| && reqs[ids[k]].bank != c
    ensures ListOK(reqs, Without(ids, k), list[from..], c)
  {
    forall i | from <= i < |list| ensures ItemOK(reqs, Without(ids, k), c, list[i]) {
      assert ItemOK(reqs, ids, c, list[i]);
      var j :| 0 <= j < |ids| && ids[j] == list[i].id;
      assert Without(ids, k)[if j < k then j else j - 1] == ids[j];
    }
  }

  lemma HoldsTail(list: Queue, id: nat)
    requires Holds(list, id) && list[0].id != id
    ensures Holds(list[1..], id)
  {
    var i :| 0 <= i < |list| && list[i].id == id;
    assert list[1..][i - 1] == list[i];
  }

  // ---------------------------------------------------------------------------
  // Every request is in one place
  // ---------------------------------------------------------------------------

  ghost function Count(s: seq<nat>, x: nat): nat {
    if s == [] then 0 else Count(s[1..], x) + if s[0] == x then 1 else 0
  }

  lemma {:induction false} CountAppend(s: seq<nat>, y: nat, x: nat)
    ensures Count(s + [y], x) == Count(s, x) + if y == x then 1 else 0
  {
    if s == [] {
      assert (s + [y])[1..] == [];
    } else {
      CountAppend(s[1..], y, x);
      assert (s + [y])[1..] == s[1..] + [y];
    }
  }

  lemma {:induction false} CountWithout(s: seq<nat>, k: nat, x: nat)
    requires k < |s|
    ensures Count(s, x) == Count(Without(s, k), x) + if s[k] == x then 1 else 0
  {
    if k == 0 {
      assert Without(s, 0) == s[1..];
    } else {
      CountWithout(s[1..], k - 1, x);
      assert Without(s, k)[1..] == Without(s[1..], k - 1);
    }
  }

  lemma {:induction false} CountIn(s: seq<nat>, x: nat)
    ensures Count(s, x) > 0 <==> x in s
  {
    if s != [] { CountIn(s[1..], x); }
  }

  ghost predicate Once(n: nat, overflow: seq<nat>, rdQueue: seq<nat>, wrQueue: seq<nat>, served: seq<nat>, x: nat) {
    Count(overflow, x) + Count(rdQueue, x) + Count(wrQueue, x) + Count(served, x) == if x < n then 1 else 0
  }

  /** Every request is in exactly one place, and nothing else is anywhere. */
  ghost predicate Places(n: nat, overflow: seq<nat>, rdQueue: seq<nat>, wrQueue: seq<nat>, served: seq<nat>) {
    forall x: nat {:trigger Once(n, overflow, rdQueue, wrQueue, served, x)} ::
        Once(n, overflow, rdQueue, wrQueue, served, x)
  }

  /** A new request is put in some place. */
  lemma PlacesMore(n: nat, overflow: seq<nat>, rdQueue: seq<nat>, wrQueue: seq<nat>, served: seq<nat>)
    requires Places(n, overflow, rdQueue, wrQueue, served)
    ensures Places(n + 1, overflow + [n], rdQueue, wrQueue, served)
    ensures Places(n + 1, overflow, rdQueue + [n], wrQueue, served)
            && Places(n + 1, overflow, rdQueue, wrQueue + [n], served)
  {
    var n', o, rd, wr := n + 1, overflow + [n], rdQueue + [n], wrQueue + [n];
    forall x: nat ensures Once(n', o, rdQueue, wrQueue, served, x) && Once(n', overflow, rd, wrQueue, served, x)
                          && Once(n', overflow, rdQueue, wr, served, x)
    {
      assert Once(n, overflow, rdQueue, wrQueue, served, x);
      CountAppend(overflow, n, x);
      CountAppend(rdQueue, n, x);
      CountAppend(wrQueue, n, x);
    }
  }

  /** The first overflowed request is put in a queue. */
  lemma PlacesBack(n: nat, overflow: seq<nat>, rdQueue: seq<nat>, wrQueue: seq<nat>, served: seq<nat>)
    requires Places(n, overflow, rdQueue, wrQueue, served) && overflow != []
    ensures Places(n, overflow[1..], rdQueue + [overflow[0]], wrQueue, served)
    ensures Places(n, overflow[1..], rdQueue, wrQueue + [overflow[0]], served)
  {
    var o, rd, wr := overflow[1..], rdQueue + [overflow[0]], wrQueue + [overflow[0]];
    forall x: nat ensures Once(n, o, rd, wrQueue, served, x) && Once(n, o, rdQueue, wr, served, x) {
      assert Once(n, overflow, rdQueue, wrQueue, served, x);
      CountAppend(rdQueue, overflow[0], x);
      CountAppend(wrQueue, overflow[0], x);
    }
  }

  /** A queued request is served. */
  lemma PlacesServed(n: nat, overflow: seq<nat>, rdQueue: seq<nat>, wrQueue: seq<nat>, served: seq<nat>, k: nat)
    requires Places(n, overflow, rdQueue, wrQueue, served)
    ensures k < |rdQueue| ==> Places(n, overflow, Without(rdQueue, k), wrQueue, served + [rdQueue[k]])
    ensures k < |wrQueue| ==> Places(n, overflow, rdQueue, Without(wrQueue, k), served + [wrQueue[k]])
  {
    if k < |rdQueue| {
      var rd, sv := Without(rdQueue, k), served + [rdQueue[k]];
      forall x: nat ensures Once(n, overflow, rd, wrQueue, sv, x) {
        assert Once(n, overflow, rdQueue, wrQueue, served, x);
        CountWithout(rdQueue, k, x);
        CountAppend(served, rdQueue[k], x);
      }
    }
    if k < |wrQueue| {
      var wr, sv := Without(wrQueue, k), served + [wrQueue[k]];
      forall x: nat ensures Once(n, overflow, rdQueue, wr, sv, x) {
        assert Once(n, overflow, rdQueue, wrQueue, served, x);
        CountWithout(wrQueue, k, x);
        CountAppend(served, wrQueue[k], x);
      }
    }
  }

  // ---------------------------------------------------------------------------
  // All queues of a controller
  // ---------------------------------------------------------------------------

  datatype QueueState = QueueState(banks: nat, depth: nat, reqs: seq<Req>, rdQueue: seq<nat>, wrQueue: seq<nat>,
                                   rdReqs: seq<Queue>, wrReqs: seq<Queue>, overflow: seq<nat>, served: seq<nat>)

  ghost predicate BanksOK(reqs: seq<Req>, banks: nat) {
    forall i :: 0 <= i < |reqs| ==> reqs[i].bank < banks
  }

  ghost predicate QueuesOK(s: QueueState) {
    && |s.rdReqs| == |s.wrReqs| == s.banks
    && |s.rdQueue| <= s.depth && |s.wrQueue| <= s.depth
    && ListsOK(s.reqs, s.rdQueue, s.rdReqs) && ListsOK(s.reqs, s.wrQueue, s.wrReqs)
    && BanksOK(s.reqs, s.banks)
    && Places(|s.reqs|, s.overflow, s.rdQueue, s.wrQueue, s.served)
  }

  type Queues = s: QueueState | QueuesOK(s) witness QueueState(0, 0, [], [], [], [], [], [], [])

  function NoRequests(banks: nat, depth: nat): (q: Queues)
    ensures q.banks == banks && q.depth == depth && q.rdQueue == q.wrQueue == q.overflow == q.served == []
            && q.reqs == []
  {
    QueueState(banks, depth, [], [], [], seq(banks, _ => []), seq(banks, _ => []), [], [])
  }

  predicate Full(s: QueueState) {
    |s.rdQueue| >= s.depth || |s.wrQueue| >= s.depth
  }

  predicate Waiting(s: QueueState) {
    s.rdQueue != [] || s.wrQueue != []
  }

  /** A new request when a queue is full. */
  function Overflowed(s: QueueState, r: Req): QueueState {
    s.(reqs := s.reqs + [r], overflow := s.overflow + [|s.reqs|])
  }

  lemma OverflowedOK(s: QueueState, r: Req)
    requires QueuesOK(s) && r.bank < s.banks
    ensures QueuesOK(Overflowed(s, r))
  {
    ListsSame(s.reqs, s.reqs + [r], s.rdQueue, s.rdReqs);
    ListsSame(s.reqs, s.reqs + [r], s.wrQueue, s.wrReqs);
    PlacesMore(|s.reqs|, s.overflow, s.rdQueue, s.wrQueue, s.served);
  }

  /** Request id, with data r, is put into a queue and its bank's list. */
  function Joined(s: QueueState, id: nat, r: Req, toWrites: bool, limit: nat, free: nat): QueueState
    requires id <= |s.reqs| && r.bank < |s.rdReqs| == |s.wrReqs|
  {
    var s' := s.(reqs := if id < |s.reqs| then s.reqs[id := r] else s.reqs + [r]);
    if toWrites then
      s'.(wrQueue := s.wrQueue + [id], wrReqs := s.wrReqs[r.bank := Arrived(s.wrReqs[r.bank], id, r.row, limit, free)])
    else
      s'.(rdQueue := s.rdQueue + [id], rdReqs := s.rdReqs[r.bank := Arrived(s.rdReqs[r.bank], id, r.row, limit, free)])
  }

  lemma JoinedLists(s: QueueState, id: nat, r: Req, toWrites: bool, limit: nat, free: nat)
    requires QueuesOK(s) && !Full(s) && r.bank < s.banks && id <= |s.reqs|
    requires id < |s.reqs| ==> r.bank == s.reqs[id].bank && r.row == s.reqs[id].row
    requires id !in s.rdQueue && id !in s.wrQueue
    ensures var s' := Joined(s, id, r, toWrites, limit, free);
            ListsOK(s'.reqs, s'.rdQueue, s'.rdReqs) && ListsOK(s'.reqs, s'.wrQueue, s'.wrReqs)
                && BanksOK(s'.reqs, s'.banks)
  {
    var reqs' := if id < |s.reqs| then s.reqs[id := r] else s.reqs + [r];
    ListsSame(s.reqs, reqs', s.rdQueue, s.rdReqs);
    ListsSame(s.reqs, reqs', s.wrQueue, s.wrReqs);
    if toWrites {
      ListsJoin(reqs', s.wrQueue, s.wrReqs, id, limit, free);
    } else {
      ListsJoin(reqs', s.rdQueue, s.rdReqs, id, limit, free);
    }
  }

  lemma NewIsNowhere(s: QueueState)
    requires QueuesOK(s)
    ensures |s.reqs| !in s.rdQueue && |s.reqs| !in s.wrQueue
  {
    assert Once(|s.reqs|, s.overflow, s.rdQueue, s.wrQueue, s.served, |s.reqs|);
    CountIn(s.rdQueue, |s.reqs|);
    CountIn(s.wrQueue, |s.reqs|);
  }

  lemma JoinedPlaces(s: QueueState, r: Req, toWrites: bool, limit: nat, free: nat)
    requires Places(|s.reqs|, s.overflow, s.rdQueue, s.wrQueue, s.served) && r.bank < |s.rdReqs| == |s.wrReqs|
    ensures var s' := Joined(s, |s.reqs|, r, toWrites, limit, free);
            Places(|s'.reqs|, s'.overflow, s'.rdQueue, s'.wrQueue, s'.served)
  {
    var s' := Joined(s, |s.reqs|, r, toWrites, limit, free);
    assert |s'.reqs| == |s.reqs| + 1;
    PlacesMore(|s.reqs|, s.overflow, s.rdQueue, s.wrQueue, s.served);
  }

  /** A new request is queued. */
  lemma JoinedOK(s: QueueState, r: Req, toWrites: bool, limit: nat, free: nat)
    requires QueuesOK(s) && !Full(s) && r.bank < s.banks
    ensures QueuesOK(Joined(s, |s.reqs|, r, toWrites, limit, free))
  {
    NewIsNowhere(s);
    JoinedLists(s, |s.reqs|, r, toWrites, limit, free);
    JoinedPlaces(s, r, toWrites, limit, free);
  }

  /** The first overflowed request, with data r, is queued. */
  function Readmitted(s: QueueState, r: Req, toWrites: bool, limit: nat, free: nat): QueueState
    requires s.overflow != [] && s.overflow[0] <= |s.reqs| && r.bank < |s.rdReqs| == |s.wrReqs|
  {
    Joined(s, s.overflow[0], r, toWrites, limit, free).(overflow := s.overflow[1..])
  }

  lemma OverflowKnown(s: QueueState)
    requires QueuesOK(s) && s.overflow != []
    ensures var id := s.overflow[0]; id < |s.reqs| && s.reqs[id].bank < s.banks && id !in s.rdQueue && id !in s.wrQueue
  {
    var id := s.overflow[0];
    assert Once(|s.reqs|, s.overflow, s.rdQueue, s.wrQueue, s.served, id);
    CountIn(s.rdQueue, id);
    CountIn(s.wrQueue, id);
  }

  lemma ReadmittedOK(s: QueueState, r: Req, toWrites: bool, limit: nat, free: nat)
    requires QueuesOK(s) && !Full(s) && s.overflow != []
    requires s.overflow[0] < |s.reqs| && r.bank == s.reqs[s.overflow[0]].bank && r.row == s.reqs[s.overflow[0]].row
    ensures r.bank < s.banks && QueuesOK(Readmitted(s, r, toWrites, limit, free))
  {
    OverflowKnown(s);
    JoinedLists(s, s.overflow[0], r, toWrites, limit, free);
    PlacesBack(|s.reqs|, s.overflow, s.rdQueue, s.wrQueue, s.served);
  }

  function QueueOf(s: QueueState, writes: bool): seq<nat> {
    if writes then s.wrQueue else s.rdQueue
  }

  function ListsOf(s: QueueState, writes: bool): seq<Queue> {
    if writes then s.wrReqs else s.rdReqs
  }

  /** A request that is first in its bank's list is served. */
  function Served(s: QueueState, fromWrites: bool, k: nat): QueueState
    requires k < |QueueOf(s, fromWrites)|
    requires IsFront(s.reqs, ListsOf(s, fromWrites), QueueOf(s, fromWrites)[k])
  {
    if fromWrites then
      var id := s.wrQueue[k];
      var b := s.reqs[id].bank;
      s.(wrQueue := Without(s.wrQueue, k), wrReqs := s.wrReqs[b := s.wrReqs[b][1..]], served := s.served + [id])
    else
      var id := s.rdQueue[k];
      var b := s.reqs[id].bank;
      s.(rdQueue := Without(s.rdQueue, k), rdReqs := s.rdReqs[b := s.rdReqs[b][1..]], served := s.served + [id])
  }

  lemma ServedOK(s: QueueState, fromWrites: bool, k: nat)
    requires QueuesOK(s) && k < |QueueOf(s, fromWrites)|
    requires IsFront(s.reqs, ListsOf(s, fromWrites), QueueOf(s, fromWrites)[k])
    ensures QueuesOK(Served(s, fromWrites, k))
  {
    if fromWrites {
      ListsLeave(s.reqs, s.wrQueue, s.wrReqs, k);
    } else {
      ListsLeave(s.reqs, s.rdQueue, s.rdReqs, k);
    }
    PlacesServed(|s.reqs|, s.overflow, s.rdQueue, s.wrQueue, s.served, k);
  }

  lemma ListedIsQueued(reqs: seq<Req>, ids: seq<nat>, list: Queue, b: nat)
    requires ListOK(reqs, ids, list, b)
    ensures list != [] ==> ids != []
  {
    if list != [] { assert ItemOK(reqs, ids, b, list[0]); }
  }

  lemma JoinedIsFront(s: QueueState, id: nat, r: Req, toWrites: bool, limit: nat, free: nat)
    requires id <= |s.reqs| && r.bank < |s.rdReqs| == |s.wrReqs| && ListsOf(s, toWrites)[r.bank] == []
    ensures var s' := Joined(s, id, r, toWrites, limit, free);
            IsFront(s'.reqs, ListsOf(s', toWrites), id)
  {
    ArrivedCases([], id, r.row, limit, free);
  }

  /** An arrival to queues that hold nothing is first in its bank's list. */
  lemma FirstOfAll(s: QueueState, id: nat, r: Req, toWrites: bool, limit: nat, free: nat)
    requires QueuesOK(s) && !Waiting(s) && id <= |s.reqs| && r.bank < s.banks
    ensures var s' := Joined(s, id, r, toWrites, limit, free);
            IsFront(s'.reqs, ListsOf(s', toWrites), id)
  {
    assert ListOK(s.reqs, s.rdQueue, s.rdReqs[r.bank], r.bank) && ListOK(s.reqs, s.wrQueue, s.wrReqs[r.bank], r.bank);
    ListedIsQueued(s.reqs, s.rdQueue, s.rdReqs[r.bank], r.bank);
    ListedIsQueued(s.reqs, s.wrQueue, s.wrReqs[r.bank], r.bank);
    JoinedIsFront(s, id, r, toWrites, limit, free);
  }
}
