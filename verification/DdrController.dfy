/** The event-driven DRAM controller: it queues requests, wakes up in the cycle in
    which one may be issued, and issues it when the timing rules allow. */
module DdrController {
  import opened FrFcfs
  import opened DdrTiming
  import opened DdrQueues
  import opened DdrClock
  import opened DdrFaw
  import opened DdrEvents
  import opened DdrAnswers
  import ActWindows

  // ---------------------------------------------------------------------------
  // The channel
  // ---------------------------------------------------------------------------

  /** What the controller knows of the channel: rank gives the rank of each bank,
      windows the activation window of each rank, of windowSize entries. */
  datatype ChannelState = ChannelState(t: Tech, rank: seq<nat>, banks: seq<Bank>, windows: seq<seq<nat>>,
                                       windowSize: nat,
                                       minResp: nat, lastWrite: bool, log: seq<Cmd>)

  ghost predicate WindowsOK(rank: seq<nat>, windows: seq<seq<nat>>) {
    forall b :: 0 <= b < |rank| ==> rank[b] < |windows| && windows[rank[b]] != []
  }

  ghost predicate ChannelOK(s: ChannelState) {
    && TechOK(s.t) && |s.banks| == |s.rank| > 0 && WindowsOK(s.rank, s.windows)
    && TimingOK(s.t, s.banks, s.minResp, s.lastWrite, s.log)
    && RanksOK(s.t, s.rank, s.windows, s.log, s.windowSize)
  }

  ghost predicate SameShape(a: ChannelState, b: ChannelState) {
    && a.t == b.t && a.rank == b.rank && |a.banks| == |b.banks|
    && |a.windows| == |b.windows| && a.windowSize == b.windowSize
  }

  const IDLE_BANK := Bank(false, 0, 0, 0, 0, 0)

  type Channel = s: ChannelState | ChannelOK(s)
    witness ChannelState(Tech(0, 0, 0, 0, 1, 0, 0, 0, 0, 0, 1), [0], [IDLE_BANK], [[0]], 1, 1, false, [])

  /** A channel on which nothing was issued. */
  function IdleChannel(t: Tech, rank: seq<nat>, ranks: nat, windowSize: nat): (ch: Channel)
    requires TechOK(t) && rank != [] && windowSize > 0 && forall b :: 0 <= b < |rank| ==> rank[b] < ranks
    ensures ch.t == t && ch.rank == rank && |ch.windows| == ranks && ch.windowSize == windowSize && ch.log == []
  {
    var windows := seq(ranks, _ => seq(windowSize, _ => 0));
    RanksStart(t, rank, windows, windowSize);
    ChannelState(t, rank, seq(|rank|, _ => IDLE_BANK), windows, windowSize, t.tCL + t.tBL + 1, false, [])
  }

  /** findMinCmdCycle */
  function MinCmd(ch: Channel, r: Req): nat
    requires r.bank < |ch.banks|
  {
    FindMinCmdCycle(ch.t, ch.banks[r.bank], r.row, r.arrival, ch.windows[ch.rank[r.bank]][0])
  }

  /** When the column access of a ready request goes out: the data bus must be free,
      and a read must not follow a write too closely. */
  function CmdCycle(t: Tech, minResp: nat, lastWrite: bool, write: bool, cur: nat): (cmd: nat)
    requires minResp >= t.tCL
    ensures cmd >= cur && cmd + t.tCL >= minResp
  {
    var cmd := Max(cur, minResp - t.tCL);
    if lastWrite && !write then Max(cmd, minResp + t.tWTR) else cmd
  }

  /** The log has grown by the column access of r at cmd, and what goes before it. */
  ghost predicate IssuedFor(before: seq<Cmd>, after: seq<Cmd>, r: Req, cmd: nat) {
    && |after| > |before| && after[..|before|] == before
    && after[|after| - 1] == Col(r.bank, r.row, cmd, r.size, r.write)
    && (forall i :: |before| <= i < |after| - 1 ==> after[i].Act? && after[i].bank == r.bank && after[i].row == r.row)
  }

  /** The channel after a hit of the open row. */
  function Hit(s: ChannelState, r: Req, cmd: nat, hits: nat, close: bool): ChannelState
    requires r.bank < |s.banks|
  {
    var end := cmd + s.t.tCL + r.size;
    s.(banks := s.banks[r.bank := Accessed(s.t, s.banks[r.bank], cmd, end, r.write, hits, close)],
       minResp := end, lastWrite := r.write,
       log := s.log + [Col(r.bank, r.row, cmd, r.size, r.write)])
  }

  lemma HitOK(s: ChannelState, r: Req, cur: nat, hits: nat, close: bool)
    requires ChannelOK(s) && r.bank < |s.banks| && RowHit(s.banks[r.bank], r.row) && cur + s.t.tCL >= s.minResp
    requires FindMinCmdCycle(s.t, s.banks[r.bank], r.row, r.arrival, s.windows[s.rank[r.bank]][0]) <= cur
    ensures var cmd := CmdCycle(s.t, s.minResp, s.lastWrite, r.write, cur);
            && s.banks[r.bank].lastCmdCycle < cmd && cmd >= r.arrival
            && ChannelOK(Hit(s, r, cmd, hits, close)) && IssuedFor(s.log, Hit(s, r, cmd, hits, close).log, r, cmd)
  {
    assert BankOK(s.t, s.banks, s.log, r.bank);
    var cmd := CmdCycle(s.t, s.minResp, s.lastWrite, r.write, cur);
    RanksOther(s.t, s.rank, s.windows, s.log, s.windowSize, Col(r.bank, r.row, cmd, r.size, r.write));
    HitKeeps(s.t, s.banks, s.minResp, s.lastWrite, s.log, Col(r.bank, r.row, cmd, r.size, r.write), hits, close);
  }

  /** The channel after the activation of another row and the access to it. */
  function Miss(s: ChannelState, r: Req, act: nat, cmd: nat, hits: nat, close: bool): ChannelState
    requires r.bank < |s.banks| == |s.rank| && s.rank[r.bank] < |s.windows| && s.windows[s.rank[r.bank]] != []
  {
    var end, rank := cmd + s.t.tCL + r.size, s.rank[r.bank];
    s.(banks := s.banks[r.bank :=
        Accessed(s.t, Activated(s.t, s.banks[r.bank], r.row, r.arrival, act), cmd, end, r.write, hits, close)],
       windows := s.windows[rank := ActWindows.Added(s.windows[rank], act)],
       minResp := end, lastWrite := r.write,
       log := s.log + [Act(r.bank, r.row, act), Col(r.bank, r.row, cmd, r.size, r.write)])
  }

  lemma MissOK(s: ChannelState, r: Req, act: nat, cur: nat, hits: nat, close: bool)
    requires ChannelOK(s) && r.bank < |s.banks| && !RowHit(s.banks[r.bank], r.row) && cur + s.t.tCL >= s.minResp
    requires act == ActCycle(s.t, s.banks[r.bank], r.arrival, s.windows[s.rank[r.bank]][0]) && act + s.t.tRCD <= cur
    ensures var cmd := CmdCycle(s.t, s.minResp, s.lastWrite, r.write, cur);
            && s.banks[r.bank].lastCmdCycle < cmd && cmd >= r.arrival
            && ChannelOK(Miss(s, r, act, cmd, hits, close))
            && IssuedFor(s.log, Miss(s, r, act, cmd, hits, close).log, r, cmd)
  {
    assert BankOK(s.t, s.banks, s.log, r.bank);
    var cmd := CmdCycle(s.t, s.minResp, s.lastWrite, r.write, cur);
    MissRanksOK(s, r, act, cmd, hits, close);
    MissTimingOK(s, r, act, cmd, hits, close);
  }

  lemma MissRanksOK(s: ChannelState, r: Req, act: nat, cmd: nat, hits: nat, close: bool)
    requires |s.banks| == |s.rank| && r.bank < |s.banks| && WindowsOK(s.rank, s.windows)
             && RanksOK(s.t, s.rank, s.windows, s.log, s.windowSize)
    requires act >= s.windows[s.rank[r.bank]][0] + s.t.tFAW
    ensures var s' := Miss(s, r, act, cmd, hits, close);
            WindowsOK(s'.rank, s'.windows) && RanksOK(s'.t, s'.rank, s'.windows, s'.log, s'.windowSize)
  {
    RanksMiss(s.t, s.rank, s.windows, s.log, s.windowSize, Act(r.bank, r.row, act),
        Col(r.bank, r.row, cmd, r.size, r.write), s.rank[r.bank]);
  }

  lemma MissTimingOK(s: ChannelState, r: Req, act: nat, cmd: nat, hits: nat, close: bool)
    requires TechOK(s.t) && |s.banks| == |s.rank| && WindowsOK(s.rank, s.windows)
             && TimingOK(s.t, s.banks, s.minResp, s.lastWrite, s.log)
    requires r.bank < |s.banks| && !RowHit(s.banks[r.bank], r.row)
    requires act == ActCycle(s.t, s.banks[r.bank], r.arrival, s.windows[s.rank[r.bank]][0]) && cmd >= act + s.t.tRCD
             && cmd + s.t.tCL >= s.minResp
    requires s.lastWrite && !r.write ==> cmd >= s.minResp + s.t.tWTR
    requires cmd > s.banks[r.bank].lastCmdCycle
    ensures var s' := Miss(s, r, act, cmd, hits, close); TimingOK(s'.t, s'.banks, s'.minResp, s'.lastWrite, s'.log)
  {
    MissKeeps(s.t, s.banks, s.minResp, s.lastWrite, s.log, Col(r.bank, r.row, cmd, r.size, r.write), r.arrival, act,
        hits, close);
  }

  /** An activation of a rank comes tFAW after the oldest entry of its window, and is
      recorded there. */
  ghost predicate RespectsWindow(t: Tech, windows: seq<seq<nat>>, windows': seq<seq<nat>>, rank: nat, act: nat) {
    && rank < |windows| && windows[rank] != [] && act >= windows[rank][0] + t.tFAW
    && windows' == windows[rank := ActWindows.Added(windows[rank], act)]
  }

  /** The part of trySchedule that issues a ready request. */
  method Issue(ch: Channel, r: Req, cur: nat, hits: nat, close: bool) returns (ch': Channel, cmd: nat)
    requires r.bank < |ch.banks| && cur + ch.t.tCL >= ch.minResp && MinCmd(ch, r) <= cur
    ensures cmd == CmdCycle(ch.t, ch.minResp, ch.lastWrite, r.write, cur) && cmd >= r.arrival
    ensures ch'.minResp == cmd + ch.t.tCL + r.size && ch'.lastWrite == r.write
    ensures SameShape(ch', ch) && IssuedFor(ch.log, ch'.log, r, cmd)
    ensures ch'.banks[r.bank].openRow == r.row && ch'.banks[r.bank].open == !close
    ensures ch'.banks[r.bank].curRowHits == hits && ch'.banks[r.bank].lastCmdCycle == cmd
    ensures if RowHit(ch.banks[r.bank], r.row) then ch'.windows == ch.windows && |ch'.log| == |ch.log| + 1
            else
              && |ch'.log| == |ch.log| + 2 && ch'.log[|ch.log|].Act?
              && RespectsWindow(ch.t, ch.windows, ch'.windows, ch.rank[r.bank], ch'.log[|ch.log|].cycle)
  {
    var bank := ch.banks[r.bank];
    cmd := CmdCycle(ch.t, ch.minResp, ch.lastWrite, r.write, cur);
    if RowHit(bank, r.row) {
      HitOK(ch, r, cur, hits, close);
      ch' := Hit(ch, r, cmd, hits, close);
    } else {
      var oldest := ch.windows[ch.rank[r.bank]][0];
      var act := ActCycle(ch.t, bank, r.arrival, oldest);
      assert oldest <= act;
      MissOK(ch, r, act, cur, hits, close);
      ch' := Miss(ch, r, act, cmd, hits, close);
    }
    assert bank.lastCmdCycle < cmd;
  }

  /** When a refresh can start: every bank must be ready for it. */
  method RefreshStart(banks: seq<Bank>, memCycle: nat) returns (start: nat)
    ensures start >= memCycle && AllReady(banks, start)
  {
    start := memCycle;
    for b := 0 to |banks|
      invariant start >= memCycle
      invariant forall a :: 0 <= a < b ==> start >= banks[a].minPreCycle && start >= banks[a].lastCmdCycle
    {
      start := Max(start, Max(banks[b].minPreCycle, banks[b].lastCmdCycle));
    }
  }

  /** The refresh closes every bank. */
  method CloseAll(t: Tech, banks: seq<Bank>, done: nat) returns (banks': seq<Bank>)
    requires done >= t.tRP
    ensures |banks'| == |banks| && AllRefreshed(t, banks, banks', done)
  {
    banks' := banks;
    for b := 0 to |banks|
      invariant |banks'| == |banks|
      invariant forall a :: 0 <= a < b ==> banks'[a] == Refreshed(t, banks[a], done)
      invariant forall a :: b <= a < |banks| ==> banks'[a] == banks[a]
    {
      banks' := banks'[b := Refreshed(t, banks[b], done)];
    }
  }

  /** The channel after a refresh. */
  function AfterRefresh(s: ChannelState, start: nat, banks: seq<Bank>): ChannelState {
    s.(banks := banks, log := s.log + [Ref(start, start + s.t.tRFC)])
  }

  lemma RefreshOK(s: ChannelState, start: nat, banks: seq<Bank>)
    requires ChannelOK(s) && |banks| == |s.banks| && AllReady(s.banks, start)
             && AllRefreshed(s.t, s.banks, banks, start + s.t.tRFC)
    ensures ChannelOK(AfterRefresh(s, start, banks))
  {
    var log := s.log + [Ref(start, start + s.t.tRFC)];
    assert RanksOK(s.t, s.rank, s.windows, log, s.windowSize) by {
      RanksOther(s.t, s.rank, s.windows, s.log, s.windowSize, Ref(start, start + s.t.tRFC));
    }
    assert TimingOK(s.t, banks, s.minResp, s.lastWrite, log) by {
      RefreshKeeps(s.t, s.banks, s.minResp, s.lastWrite, s.log, start, banks);
    }
  }

  method RefreshAll(ch: Channel, memCycle: nat) returns (ch': Channel, start: nat)
    ensures SameShape(ch', ch) && ch'.minResp == ch.minResp
    ensures start >= memCycle && ch'.log == ch.log + [Ref(start, start + ch.t.tRFC)]
  {
    start := RefreshStart(ch.banks, memCycle);
    var banks := CloseAll(ch.t, ch.banks, start + ch.t.tRFC);
    RefreshOK(ch, start, banks);
    ch' := AfterRefresh(ch, start, banks);
  }

  // ---------------------------------------------------------------------------
  // Scheduling
  // ---------------------------------------------------------------------------

  datatype Time = At(cycle: nat) | Never

  function Sooner(a: Time, b: nat): Time {
    if a.At? && a.cycle <= b then a else At(b)
  }

  predicate After(a: Time, cycle: nat) {
    a.Never? || a.cycle > cycle
  }

  /** The search for the first request, in order of allocation, that is first in its
      bank's list and may be issued now. */
  method FindReady(ch: Channel, reqs: seq<Req>, ids: seq<nat>, lists: seq<Queue>, cur: nat)
      returns (found: bool, k: nat, sched: Time)
    requires ListsOK(reqs, ids, lists) && |lists| == |ch.banks|
    ensures found ==> FirstReady(ch, reqs, ids, lists, cur, k)
    ensures !found ==> forall j :: 0 <= j < |ids| && IsFront(reqs, lists, ids[j]) ==> MinCmd(ch, reqs[ids[j]]) > cur
    ensures !found && ids != [] ==> sched.At? && sched.cycle > cur
    ensures !found ==> forall j :: 0 <= j < |ids| && IsFront(reqs, lists, ids[j]) ==>
              sched.At? && sched.cycle <= MinCmd(ch, reqs[ids[j]])
  {
    found, k, sched := false, 0, Never;
    while k < |ids|
      invariant k <= |ids| && After(sched, cur)
      invariant forall j :: 0 <= j < k && IsFront(reqs, lists, ids[j]) ==>
                  MinCmd(ch, reqs[ids[j]]) > cur && sched.At? && sched.cycle <= MinCmd(ch, reqs[ids[j]])
    {
      if IsFront(reqs, lists, ids[k]) {
        var minCmd := MinCmd(ch, reqs[ids[k]]);
        sched := Sooner(sched, minCmd);
        if minCmd <= cur {
          found := true;
          return;
        }
      }
      k := k + 1;
    }
    if ids != [] {
      var f := SomeFront(reqs, ids, lists);
    }
  }

  /** The next event after an overflowed request was queued that is first in its
      bank's list: minQueued is when the bus is free, minCmd when its bank is ready. */
  function Lowered(sched: Time, minQueued: nat, minCmd: nat): Time {
    var sched' := if After(sched, minQueued) then At(Max(minQueued, minCmd)) else sched;
    if After(sched', minQueued) then At(minQueued) else sched'
  }

  /** An event is due just if something is queued; nothing overflows from empty queues. */
  ghost predicate DueOK(q: QueueState, next: Time) {
    (next.At? <==> Waiting(q)) && (q.overflow != [] ==> Waiting(q))
  }

  /** Which queue is served: writes if there are no reads, or if their queue is getting
      full; once writing, it goes on until that is down to a quarter. */
  predicate WritesFirst(q: QueueState, lastWrite: bool) {
    q.rdQueue == [] || |q.wrQueue| > 3 * q.depth / 4 || (lastWrite && |q.wrQueue| > q.depth / 4)
  }

  /** Request k of the queue is the first, in order of allocation, of those that are
      first in their bank's list and may be issued now. */
  ghost predicate FirstReady(ch: Channel, reqs: seq<Req>, ids: seq<nat>, lists: seq<Queue>, cur: nat, k: nat)
    requires |lists| == |ch.banks|
  {
    && k < |ids| && IsFront(reqs, lists, ids[k]) && MinCmd(ch, reqs[ids[k]]) <= cur
    && forall j :: 0 <= j < k && IsFront(reqs, lists, ids[j]) ==> MinCmd(ch, reqs[ids[j]]) > cur
  }

  /** One request was served, with its column access at cmd. */
  ghost predicate ServedOne(q: QueueState, q': QueueState, log: seq<Cmd>, log': seq<Cmd>, cmd: nat) {
    && |q'.served| == |q.served| + 1 && q'.served[..|q.served|] == q.served
    && var id := q'.served[|q.served|];
       id < |q.reqs| && (id in q.rdQueue || id in q.wrQueue) && IssuedFor(log, log', q.reqs[id], cmd)
  }

  /** What a tick achieves: it serves a request, takes one from the overflow queue, or
      waits for a later cycle. */
  ghost predicate Progress(q: QueueState, q': QueueState, ch: ChannelState, ch': ChannelState, next: Time,
                           memCycle: nat, cmd: nat) {
    if q'.served == q.served then
      ch' == ch && (|q'.overflow| == |q.overflow| ==> After(next, memCycle))
    else
      ServedOne(q, q', ch.log, ch'.log, cmd) && cmd >= memCycle
  }

  class DDRMemory {
    const tr: Translation
    const rowHitLimit: nat
    const deferredWrites: bool
    const closedPage: bool
    const pool: EventPool
    var ch: Channel
    var q: Queues
    // The memory cycle in which the next scheduling event is due
    var next: Time

    /** There is a next event just if one is due, and it is queued for a system cycle of
        the memory cycle that is due. */
    ghost predicate NextOK()
      reads this, pool
    {
      && (next.At? <==> pool.next >= 0)
      && (next.At? ==> pool.next < |pool.cycles| && tr.toMem(pool.cycles[pool.next]) == next.cycle)
    }

    ghost predicate Valid()
      reads this, pool
    {
      TranslationOK(tr) && q.depth > 0 && q.banks == |ch.banks| && DueOK(q, next) && pool.Valid() && NextOK()
    }

    constructor (tr: Translation, t: Tech, rank: seq<nat>, ranks: nat, windowSize: nat, queueDepth: nat,
                 rowHitLimit: nat, deferredWrites: bool, closedPage: bool)
      requires TranslationOK(tr) && TechOK(t) && rank != [] && windowSize > 0 && queueDepth > 0
      requires forall b :: 0 <= b < |rank| ==> rank[b] < ranks
      ensures Valid() && fresh(pool) && this.tr == tr && ch.t == t && ch.rank == rank && |ch.windows| == ranks
              && ch.windowSize == windowSize && ch.log == [] && q.reqs == [] && q.served == []
    {
      this.tr, this.rowHitLimit := tr, rowHitLimit;
      this.deferredWrites, this.closedPage := deferredWrites, closedPage;
      ch := IdleChannel(t, rank, ranks, windowSize);
      q := NoRequests(|rank|, queueDepth);
      next := Never;
      pool := new EventPool();
    }

    /** The hits of a request that would find its bank's list empty. */
    function Free(r: Req): (h: nat)
      requires r.bank < |ch.banks|
      reads this
    {
      var bank := ch.banks[r.bank];
      FreeHits(bank.open, bank.openRow, bank.curRowHits, r.row, rowHitLimit)
    }

    /** Serves request k of a queue, which is ready. */
    method Serve(writes: bool, k: nat, cur: nat, ghost sysCycle: nat) returns (cmd: nat)
      requires TranslationOK(tr) && q.banks == |ch.banks| && cur >= tr.toMem(sysCycle) && cur + ch.t.tCL >= ch.minResp
      requires k < |QueueOf(q, writes)| && IsFront(q.reqs, ListsOf(q, writes), QueueOf(q, writes)[k])
      requires MinCmd(ch, q.reqs[QueueOf(q, writes)[k]]) <= cur
      modifies this`ch, this`q
      ensures q == Served(old(q), writes, k) && SameShape(ch, old(ch))
      ensures cmd >= cur && ch.minResp == cmd + ch.t.tCL + q.reqs[QueueOf(old(q), writes)[k]].size
      ensures IssuedFor(old(ch.log), ch.log, q.reqs[QueueOf(old(q), writes)[k]], cmd)
    {
      var r := q.reqs[QueueOf(q, writes)[k]];
      var list := ListsOf(q, writes)[r.bank];
      // Auto-precharge, unless the next request hits the row
      var close := closedPage && !(|list| > 1 && list[1].hits != 0);
      ch, cmd := Issue(ch, r, cur, list[0].hits, close);
      // The response is not in the past
      assert TranslatesAt(tr, sysCycle, ch.minResp);
      assert tr.toResponse(ch.minResp) >= sysCycle;
      ServedOK(q, writes, k);
      q := Served(q, writes, k);
    }

    /** trySchedule: serves at most one request, and says when to try again. */
    method TrySchedule(cur: nat, ghost sysCycle: nat) returns (sched: Time, cmd: nat, ghost k: nat)
      requires TranslationOK(tr) && q.banks == |ch.banks| && cur >= tr.toMem(sysCycle)
      modifies this`ch, this`q
      ensures q.depth == old(q.depth) && q.banks == old(q.banks) == |ch.banks| && q.reqs == old(q.reqs)
              && q.overflow == old(q.overflow)
      ensures SameShape(ch, old(ch)) && (sched.At? <==> Waiting(q)) && (sched.At? ==> sched.cycle >= cur)
      ensures q == old(q) ==> ch == old(ch) && After(sched, cur)
      ensures q != old(q) ==> ServedOne(old(q), q, old(ch.log), ch.log, cmd) && cmd >= cur
      ensures q != old(q) ==>
                var writes := WritesFirst(old(q), old(ch.lastWrite));
                && FirstReady(old(ch), old(q.reqs), QueueOf(old(q), writes), ListsOf(old(q), writes), cur, k)
                && q == Served(old(q), writes, k)
    {
      cmd, k := 0, 0;
      if !Waiting(q) {
        sched := Never;
        return;
      }
      if cur + ch.t.tCL < ch.minResp {
        sched := At(ch.minResp - ch.t.tCL);
        return;
      }
      // Writes have priority if their queue is getting full
      var writes := WritesFirst(q, ch.lastWrite);
      assert QueueOf(q, writes) != [];
      var found, i;
      found, i, sched := FindReady(ch, q.reqs, QueueOf(q, writes), ListsOf(q, writes), cur);
      if found {
        k := i;
        cmd := Serve(writes, i, cur, sysCycle);
        sched := if Waiting(q) then At(ch.minResp - ch.t.tCL) else Never;
      }
    }

    /** Queues a request, new or overflowed, and says whether it is first in its
        bank's list. */
    method Admit(id: nat, r: Req) returns (first: bool)
      requires q.banks == |ch.banks| && r.bank < q.banks && !Full(q)
      requires id == |q.reqs| || (q.overflow != [] && id == q.overflow[0] && id < |q.reqs| && SameAsk(r, q.reqs[id]))
      modifies this`q
      ensures q.depth == old(q.depth) && q.banks == old(q.banks) && q.served == old(q.served)
      ensures q.reqs == if id == |old(q.reqs)| then old(q.reqs) + [r] else old(q.reqs)[id := r]
      ensures q.overflow == if id == |old(q.reqs)| then old(q.overflow) else old(q.overflow)[1..]
      ensures QueueOf(q, deferredWrites && r.write) == QueueOf(old(q), deferredWrites && r.write) + [id]
      ensures QueueOf(q, !(deferredWrites && r.write)) == QueueOf(old(q), !(deferredWrites && r.write))
      ensures first <==> IsFront(q.reqs, ListsOf(q, deferredWrites && r.write), id)
      ensures !Waiting(old(q)) ==> first
    {
      var useWrQueue := deferredWrites && r.write;
      if !Waiting(q) {
        FirstOfAll(q, id, r, useWrQueue, rowHitLimit, Free(r));
      }
      if id == |q.reqs| {
        JoinedOK(q, r, useWrQueue, rowHitLimit, Free(r));
        q := Joined(q, id, r, useWrQueue, rowHitLimit, Free(r));
      } else {
        ReadmittedOK(q, r, useWrQueue, rowHitLimit, Free(r));
        q := Readmitted(q, r, useWrQueue, rowHitLimit, Free(r));
      }
      first := IsFront(q.reqs, ListsOf(q, useWrQueue), id);
    }

    /** Sees to it that the controller wakes up for a request that is first in its
        bank's list: if that is before the next event, that one is annulled and an
        earlier one queued. */
    method WakeFor(r: Req, sysCycle: nat)
      requires TranslationOK(tr) && r.bank < |ch.banks| && pool.Valid() && NextOK()
      modifies this`next, pool
      ensures pool.Valid() && NextOK() && next.At? && |pool.states| >= |old(pool.states)|
      ensures if next == old(next) then pool.next == old(pool.next) && pool.states == old(pool.states)
              else
                && After(old(next), next.cycle) && next.cycle >= tr.toMem(sysCycle)
                && pool.cycles[pool.next] >= sysCycle
                && (old(pool.next) >= 0 ==> pool.states[old(pool.next)] == ANNULLED)
    {
      var memCycle := tr.toMem(sysCycle);
      var minSched := Max(memCycle, ch.minResp - ch.t.tCL - ch.t.tBL);
      if After(next, minSched) { minSched := Max(minSched, MinCmd(ch, r)); }
      if After(next, minSched) {
        assert TranslatesAt(tr, sysCycle, minSched);
        pool.Schedule(Later(tr.toEvent(minSched), sysCycle));
        next := At(minSched);
      }
    }

    /** The usual case of enqueue: the request is queued. */
    method EnqueueRoom(r: Req, sysCycle: nat)
      requires Valid() && r.bank < |ch.banks| && !Full(q)
      modifies this`q, this`next, pool
      ensures Valid() && q.reqs == old(q.reqs) + [r]
      ensures q.served == old(q.served) && q.overflow == old(q.overflow)
              && |old(q.reqs)| in QueueOf(q, deferredWrites && r.write)
      ensures if next == old(next) then pool.next == old(pool.next) && pool.states == old(pool.states)
              else next.At? && After(old(next), next.cycle) && next.cycle >= tr.toMem(sysCycle)
                   && (0 <= old(pool.next) < |pool.states| ==> pool.states[old(pool.next)] == ANNULLED)
    {
      var first := Admit(|q.reqs|, r);
      if first {
        WakeFor(r, sysCycle);
      }
    }

    /** enqueue: a request arrives. It overflows if a queue is full; otherwise it is
        queued, and if it could be issued before the next event, the event is
        annulled in favour of an earlier one. */
    method Enqueue(bank: nat, row: nat, size: nat, write: bool, sysCycle: nat)
      requires Valid() && bank < |ch.banks|
      modifies this`q, this`next, pool
      ensures Valid() && q.served == old(q.served)
      ensures q.reqs == old(q.reqs) + [Req(bank, row, size, write, tr.toMem(sysCycle))]
      ensures if Full(old(q)) then q.overflow == old(q.overflow) + [|old(q.reqs)|] && next == old(next)
              else q.overflow == old(q.overflow) && |old(q.reqs)| in QueueOf(q, deferredWrites && write)
      // the next event stays, or is annulled in favour of an earlier one
      ensures if next == old(next) then pool.next == old(pool.next) && pool.states == old(pool.states)
              else next.At? && After(old(next), next.cycle) && next.cycle >= tr.toMem(sysCycle)
                   && (0 <= old(pool.next) < |pool.states| ==> pool.states[old(pool.next)] == ANNULLED)
    {
      var r := Req(bank, row, size, write, tr.toMem(sysCycle));
      if Full(q) {
        OverflowedOK(q, r);
        q := Overflowed(q, r);
      } else {
        EnqueueRoom(r, sysCycle);
      }
    }

    /** The part of tick that takes a request back from the overflow queue. */
    method TakeOverflow(sched: Time, memCycle: nat) returns (sched': Time)
      requires q.banks == |ch.banks| && (sched.At? <==> Waiting(q)) && (sched.At? ==> sched.cycle >= memCycle)
      modifies this`q
      ensures q.depth == old(q.depth) && q.banks == old(q.banks) && q.served == old(q.served)
              && SameAsks(old(q.reqs), q.reqs)
      ensures Full(old(q)) || old(q.overflow) == [] ==> q == old(q) && sched' == sched
      ensures !Full(old(q)) && old(q.overflow) != [] ==>
                q.overflow == old(q.overflow)[1..]
                    && (exists w :: QueueOf(q, w) == QueueOf(old(q), w) + [old(q.overflow)[0]])
      ensures (sched'.At? <==> Waiting(q)) && (sched'.At? ==> sched'.cycle >= memCycle)
    {
      sched' := sched;
      if !Full(q) && q.overflow != [] {
        OverflowKnown(q);
        var id := q.overflow[0];
        var r := q.reqs[id].(arrival := memCycle);
        var first := Admit(id, r);
        forall j | 0 <= j < |q.reqs| ensures SameAsk(old(q.reqs)[j], q.reqs[j]) { }
        if first {
          sched' := Lowered(sched, Max(memCycle, ch.minResp - ch.t.tCL - ch.t.tBL), MinCmd(ch, r));
        }
      }
    }

    /** The part of tick that works on the queues; the result is when to come back. */
    method ScheduleDue(memCycle: nat, ghost sysCycle: nat) returns (sched: Time, cmd: nat)
      requires TranslationOK(tr) && q.depth > 0 && q.banks == |ch.banks| && memCycle == tr.toMem(sysCycle)
      requires q.overflow != [] ==> Waiting(q)
      modifies this`ch, this`q
      ensures q.depth == old(q.depth) && q.banks == |ch.banks| && SameShape(ch, old(ch))
              && SameAsks(old(q.reqs), q.reqs)
      ensures DueOK(q, sched) && (sched.At? ==> sched.cycle >= memCycle)
      ensures Progress(old(q), q, old(ch), ch, sched, memCycle, cmd)
    {
      ghost var k;
      sched, cmd, k := TrySchedule(memCycle, sysCycle);
      assert sched.At? ==> sched.cycle >= memCycle;
      sched := TakeOverflow(sched, memCycle);
    }

    /** tick, while event ev runs: it does so in the cycle that is due, serves what is
        ready, and goes on just as long as anything waits; the result is the system
        cycle of its next run, or 0. */
    method Tick(sysCycle: nat, ghost ev: nat) returns (nextSysCycle: nat, cmd: nat)
      requires TranslationOK(tr) && q.depth > 0 && q.banks == |ch.banks| && DueOK(q, next)
      requires pool.ValidWhile(ev) && pool.next == ev && next == At(tr.toMem(sysCycle))
      modifies this`ch, this`q, this`next, pool`next
      ensures q.depth == old(q.depth) && q.banks == |ch.banks| && DueOK(q, next)
      ensures SameShape(ch, old(ch)) && SameAsks(old(q.reqs), q.reqs)
      ensures pool.ValidWhile(ev) && pool.next == if nextSysCycle == 0 then -1 else ev
      ensures nextSysCycle == 0 <==> next.Never?
      ensures nextSysCycle != 0 ==> tr.toMem(nextSysCycle) == next.cycle && nextSysCycle >= sysCycle
      ensures Progress(old(q), q, old(ch), ch, next, tr.toMem(sysCycle), cmd)
    {
      var memCycle := tr.toMem(sysCycle);
      assert next == At(memCycle);
      next, cmd := ScheduleDue(memCycle, sysCycle);
      if next.Never? {
        pool.Drop(ev);
        nextSysCycle := 0;
      } else {
        assert TranslatesAt(tr, sysCycle, next.cycle);
        nextSysCycle := Later(tr.toEvent(next.cycle), sysCycle);
      }
    }

    /** SchedEvent::simulate: an event comes up in the simulator's queue.  The next one
        ticks the controller and is queued again or recycled; one that was annulled is
        recycled, and the controller takes no note of it. */
    method Simulate(ev: nat) returns (ticked: bool, cmd: nat)
      requires Valid() && InQueue(pool.states, ev)
      modifies this`ch, this`q, this`next, pool
      ensures Valid() && SameShape(ch, old(ch)) && SameAsks(old(q.reqs), q.reqs)
      ensures ticked <==> ev == old(pool.next)
      ensures !ticked ==> q == old(q) && ch == old(ch) && next == old(next) && pool.next == old(pool.next)
      ensures ticked ==> Progress(old(q), q, old(ch), ch, next, old(tr.toMem(pool.cycles[ev])), cmd)
      ensures ticked ==> (pool.next == if Waiting(q) then ev else -1)
      ensures |pool.states| == |old(pool.states)|
              && pool.states == old(pool.states)[ev := if ticked && Waiting(q) then QUEUED else IDLE]
    {
      ghost var s0 := pool.states;
      assert EventOK(pool.states, pool.freeList, pool.next, -1, ev);
      cmd := 0;
      ticked := pool.states[ev] == QUEUED;
      if ticked {
        pool.Start(ev);
        var nextSysCycle;
        nextSysCycle, cmd := Tick(pool.cycles[ev], ev);
        if nextSysCycle != 0 {
          pool.Requeue(ev, nextSysCycle);
        } else {
          pool.Recycle(ev, ev);
        }
        assert pool.states == s0[ev := pool.states[ev]];
      } else {
        pool.Recycle(ev, -1);
      }
    }

    /** refresh, in a given memory cycle: all banks are closed, and the next event stays. */
    method Refresh(memCycle: nat) returns (start: nat)
      requires Valid()
      modifies this`ch
      ensures SameShape(ch, old(ch)) && Valid()
      ensures start >= memCycle && ch.log == old(ch.log) + [Ref(start, start + ch.t.tRFC)]
    {
      var ch';
      ch', start := RefreshAll(ch, memCycle);
      ch := ch';
    }
  }

  // ---------------------------------------------------------------------------
  // Every run
  // ---------------------------------------------------------------------------

  datatype Op = Arrive(bank: nat, row: nat, size: nat, write: bool,
                       sysCycle: nat) | RunEvent(ev: nat) | RefreshAt(sysCycle: nat)

  /** The requests are those of the arrivals, in order. */
  ghost predicate Asked(ops: seq<Op>, reqs: seq<Req>) {
    if ops == [] then reqs == []
    else
      var front, op := ops[..|ops| - 1], ops[|ops| - 1];
      if op.Arrive? then
        reqs != [] && AskedBy(op, reqs[|reqs| - 1]) && Asked(front, reqs[..|reqs| - 1])
      else
        Asked(front, reqs)
  }

  ghost predicate AskedBy(op: Op, r: Req) {
    op.Arrive? && r == Req(op.bank, op.row, op.size, op.write, r.arrival)
  }

  lemma {:induction false} AskedStays(ops: seq<Op>, reqs: seq<Req>, reqs': seq<Req>)
    requires Asked(ops, reqs) && SameAsks(reqs, reqs')
    ensures Asked(ops, reqs')
  {
    if ops != [] {
      var front := ops[..|ops| - 1];
      if ops[|ops| - 1].Arrive? {
        var n := |reqs| - 1;
        assert SameAsk(reqs[n], reqs'[n]);
        forall i | 0 <= i < n ensures SameAsk(reqs[..n][i], reqs'[..n][i]) { assert SameAsk(reqs[i], reqs'[i]); }
        AskedStays(front, reqs[..n], reqs'[..n]);
      } else {
        AskedStays(front, reqs, reqs');
      }
    }
  }

  lemma AskedStep(ops: seq<Op>, i: nat, reqs: seq<Req>, reqs': seq<Req>)
    requires i < |ops| && Asked(ops[..i], reqs)
    requires if ops[i].Arrive? then |reqs'| == |reqs| + 1 && reqs'[..|reqs|] == reqs && AskedBy(ops[i], reqs'[|reqs|])
             else SameAsks(reqs, reqs')
    ensures Asked(ops[..i + 1], reqs')
  {
    assert ops[..i + 1][..i] == ops[..i];
    if !ops[i].Arrive? { AskedStays(ops[..i], reqs, reqs'); }
  }

  /** How a run stands: the column accesses are those of the requests served. */
  ghost predicate RunOK(m: DDRMemory, start: ChannelState)
    reads m, m.pool
  {
    m.Valid() && SameShape(m.ch, start) && Answers(m.ch.log, m.q.reqs, m.q.served)
  }

  /** An event comes up, if it is in the simulator's queue, live or annulled. */
  method StepEvent(m: DDRMemory, ev: nat, ghost start: ChannelState)
    requires RunOK(m, start)
    modifies m, m.pool
    ensures RunOK(m, start) && SameAsks(old(m.q.reqs), m.q.reqs)
  {
    if InQueue(m.pool.states, ev) {
      ghost var q, log := m.q, m.ch.log;
      var ticked, cmd := m.Simulate(ev);
      if m.q.served != q.served {
        ghost var id := m.q.served[|q.served|];
        AnswersOne(log, m.ch.log, q.reqs, q.served, id);
        assert m.q.served == q.served + [id];
      }
      assert m.q.reqs[..|q.reqs|] == m.q.reqs;
      AnswersLater(m.ch.log, q.reqs, m.q.reqs, m.q.served);
    } else {
      forall j | 0 <= j < |m.q.reqs| ensures SameAsk(m.q.reqs[j], m.q.reqs[j]) { }
    }
  }

  method Step(m: DDRMemory, op: Op, ghost start: ChannelState)
    requires RunOK(m, start) && (op.Arrive? ==> op.bank < |start.banks|)
    modifies m, m.pool
    ensures RunOK(m, start)
    ensures if op.Arrive? then
              |m.q.reqs| == |old(m.q.reqs)| + 1 && m.q.reqs[..|old(m.q.reqs)|] == old(m.q.reqs)
                  && AskedBy(op, m.q.reqs[|old(m.q.reqs)|])
            else SameAsks(old(m.q.reqs), m.q.reqs)
  {
    ghost var reqs, log := m.q.reqs, m.ch.log;
    match op {
      case Arrive(bank, row, size, write, sysCycle) =>
        m.Enqueue(bank, row, size, write, sysCycle);
        assert m.q.reqs[..|reqs|] == reqs;
        AnswersLater(log, reqs, m.q.reqs, m.q.served);
      case RunEvent(ev) =>
        StepEvent(m, ev, start);
      case RefreshAt(sysCycle) =>
        var _ := m.Refresh(m.tr.toMem(sysCycle));
        AnswersMore(log, m.ch.log, reqs, m.q.served);
    }
  }

  /** Any run of a controller: whatever arrives, whenever events run and refreshes
      come, all commands ever issued keep every timing rule, no more than four
      activations of a rank fall into any tFAW cycles, the column accesses are those of
      the requests served, which are among those that arrived, every request is in
      exactly one place, and there is one live event as long as any waits, and otherwise
      none. */
  method Run(clock: Clock, t: Tech, rank: seq<nat>, ranks: nat, queueDepth: nat, rowHitLimit: nat,
             deferredWrites: bool, closedPage: bool, ops: seq<Op>)
      returns (log: seq<Cmd>, reqs: seq<Req>, overflow: seq<nat>, rdQueue: seq<nat>, wrQueue: seq<nat>,
              served: seq<nat>,
               next: Time, states: seq<State>)
    requires ClockOK(clock) && TechOK(t) && rank != [] && queueDepth > 0
    requires forall b :: 0 <= b < |rank| ==> rank[b] < ranks
    requires forall i :: 0 <= i < |ops| && ops[i].Arrive? ==> ops[i].bank < |rank|
    ensures LogOK(t, log) && FourActivates(log, rank, ranks, 4, t.tFAW)
    ensures Asked(ops, reqs) && Answers(log, reqs, served)
    ensures Places(|reqs|, overflow, rdQueue, wrQueue, served)
    ensures next.At? <==> overflow != [] || rdQueue != [] || wrQueue != []
    ensures Live(states) == if next.At? then 1 else 0
  {
    ClockTranslates(clock);
    var m := new DDRMemory(TranslationOf(clock), t, rank, ranks, 4, queueDepth, rowHitLimit, deferredWrites,
        closedPage);
    ghost var start: ChannelState := m.ch;
    for i := 0 to |ops|
      invariant fresh(m) && fresh(m.pool) && RunOK(m, start) && Asked(ops[..i], m.q.reqs)
    {
      ghost var before := m.q.reqs;
      Step(m, ops[i], start);
      AskedStep(ops, i, before, m.q.reqs);
    }
    assert ops[..|ops|] == ops;
    RanksRule(t, rank, m.ch.windows, m.ch.log, 4);
    m.pool.OneNext();
    log, reqs, next, states := m.ch.log, m.q.reqs, m.next, m.pool.states;
    overflow, rdQueue, wrQueue, served := m.q.overflow, m.q.rdQueue, m.q.wrQueue, m.q.served;
  }
}
