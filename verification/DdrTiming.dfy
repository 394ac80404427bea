/** The timing of DRAM commands on one channel: what the controller records of each
    bank is enough to keep every rule between any two commands it ever issues. */
module DdrTiming {

  /** Timing parameters, in memory cycles. */
  datatype Tech = Tech(tBL: nat, tCL: nat, tRCD: nat, tRTP: nat, tRP: nat, tRRD: nat, tRAS: nat, tFAW: nat, tWTR: nat,
                       tWR: nat, tRFC: nat)

  predicate TechOK(t: Tech) {
    t.tRFC >= t.tRP > 0
  }

  datatype Bank = Bank(open: bool, openRow: nat, minPreCycle: nat, lastActCycle: nat, lastCmdCycle: nat,
                       curRowHits: nat)

  /** A command: an activation, a column access with its burst, or a refresh. */
  datatype Cmd =
    | Act(bank: nat, row: nat, cycle: nat)
    | Col(bank: nat, row: nat, cycle: nat, size: nat, write: bool)
    | Ref(start: nat, done: nat)

  function Max(a: nat, b: nat): nat {
    if a > b then a else b
  }

  // ---------------------------------------------------------------------------
  // When a request can be served
  // ---------------------------------------------------------------------------

  predicate RowHit(b: Bank, row: nat) {
    row == b.openRow && b.open
  }

  /** When the row of a miss is activated; oldest is the oldest entry of the rank's window. */
  function ActCycle(t: Tech, b: Bank, arrival: nat, oldest: nat): nat {
    var preCycle := if b.open then Max(arrival, b.minPreCycle) else b.minPreCycle;
    Max(Max(arrival, Max(preCycle + t.tRP, b.lastActCycle + t.tRRD)), oldest + t.tFAW)
  }

  function FindMinCmdCycle(t: Tech, b: Bank, row: nat, arrival: nat, oldest: nat): nat {
    if RowHit(b, row) then Max(arrival, b.lastCmdCycle + 1)
    else ActCycle(t, b, arrival, oldest) + t.tRCD
  }

  // ---------------------------------------------------------------------------
  // The rules
  // ---------------------------------------------------------------------------

  function BurstEnd(t: Tech, x: Cmd): nat
    requires x.Col?
  {
    x.cycle + t.tCL + x.size
  }

  /** When the bank may be precharged after a column access. */
  function PreReady(t: Tech, x: Cmd): nat
    requires x.Col?
  {
    if x.write then BurstEnd(t, x) + t.tWR else x.cycle + t.tRTP
  }

  /** What must hold between a command and any later one. */
  ghost predicate Rule(t: Tech, x: Cmd, y: Cmd) {
    match (x, y)
    case (Col(_, _, _, _, _), Col(_, _, _, _, _)) =>
      && y.cycle + t.tCL >= BurstEnd(t, x)
      && (x.bank == y.bank ==> y.cycle > x.cycle)
      && (x.write && !y.write ==> y.cycle >= BurstEnd(t, x) + t.tWTR)
    case (Act(_, _, _), Act(_, _, _)) =>
      x.bank == y.bank ==> y.cycle >= x.cycle + t.tRAS + t.tRP && y.cycle >= x.cycle + t.tRRD
    case (Col(_, _, _, _, _), Act(_, _, _)) => x.bank == y.bank ==> y.cycle >= PreReady(t, x) + t.tRP
    case (Act(_, _, _), Col(_, _, _, _, _)) => x.bank == y.bank ==> y.cycle >= x.cycle + t.tRCD
    case (Ref(_, _), Act(_, _, _)) => y.cycle >= x.done
    case (Ref(_, _), Col(_, _, _, _, _)) => y.cycle >= x.done
    case (Col(_, _, _, _, _), Ref(_, _)) => y.start >= x.cycle && y.start >= PreReady(t, x)
    case (Act(_, _, _), Ref(_, _)) => y.start >= x.cycle + t.tRAS
    case (Ref(_, _), Ref(_, _)) => y.start + t.tRP >= x.done
  }

  datatype RowState = Opened(row: nat, act: nat) | Closed

  /** The row of a bank that the commands leave open: that of its last activation,
      unless a refresh follows. */
  ghost function RowOf(log: seq<Cmd>, bank: nat): RowState {
    if log == [] then Closed
    else
      var front, last := log[..|log| - 1], log[|log| - 1];
      if last.Ref? then Closed
      else if last.Act? && last.bank == bank then Opened(last.row, last.cycle)
      else RowOf(front, bank)
  }

  /** A command fits what was issued before it; a column access finds its row open. */
  ghost predicate Fits(t: Tech, log: seq<Cmd>, y: Cmd) {
    && (forall i {:trigger Rule(t, log[i], y)} :: 0 <= i < |log| ==> Rule(t, log[i], y))
    && (y.Col? ==> RowOf(log, y.bank).Opened? && RowOf(log, y.bank).row == y.row)
  }

  ghost predicate LogOK(t: Tech, log: seq<Cmd>) {
    log == [] || (LogOK(t, log[..|log| - 1]) && Fits(t, log[..|log| - 1], log[|log| - 1]))
  }

  /** Every command fits all that went before it. */
  lemma {:induction false} LogFits(t: Tech, log: seq<Cmd>, j: nat)
    requires LogOK(t, log) && j < |log|
    ensures Fits(t, log[..j], log[j])
  {
    if j < |log| - 1 {
      LogFits(t, log[..|log| - 1], j);
      assert log[..|log| - 1][..j] == log[..j];
    }
  }

  /** Every rule holds between any two commands. */
  lemma {:induction false} RulesHold(t: Tech, log: seq<Cmd>, i: nat, j: nat)
    requires LogOK(t, log) && i < j < |log|
    ensures Rule(t, log[i], log[j])
  {
    LogFits(t, log, j);
    assert log[..j][i] == log[i];
  }

  /** A row that is open was activated, and since then its bank has seen no other
      activation and the channel no refresh. */
  lemma {:induction false} OpenedBy(log: seq<Cmd>, bank: nat) returns (i: nat)
    requires RowOf(log, bank).Opened?
    ensures i < |log| && log[i] == Act(bank, RowOf(log, bank).row, RowOf(log, bank).act)
    ensures forall j :: i < j < |log| ==> !log[j].Ref? && !(log[j].Act? && log[j].bank == bank)
  {
    var last := log[|log| - 1];
    if last.Act? && last.bank == bank {
      i := |log| - 1;
    } else {
      i := OpenedBy(log[..|log| - 1], bank);
    }
  }

  // ---------------------------------------------------------------------------
  // What the controller remembers
  // ---------------------------------------------------------------------------

  /** The bank's and the bus's fields are late enough for what was issued. */
  ghost predicate Past(t: Tech, banks: seq<Bank>, minResp: nat, lastWrite: bool, x: Cmd) {
    match x
    case Col(b, _, cycle, _, write) =>
      && b < |banks| && BurstEnd(t, x) <= minResp && cycle <= banks[b].lastCmdCycle
      && PreReady(t, x) <= banks[b].minPreCycle
      && (write && !lastWrite ==> BurstEnd(t, x) + t.tWTR + t.tCL <= minResp)
    case Act(b, _, cycle) =>
      b < |banks| && cycle <= banks[b].lastActCycle && cycle + t.tRAS <= banks[b].minPreCycle
    case Ref(_, done) =>
      forall b {:trigger RefPast(t, banks[b], done)} :: 0 <= b < |banks| ==> RefPast(t, banks[b], done)
  }

  ghost predicate RefPast(t: Tech, b: Bank, done: nat) {
    done <= b.minPreCycle + t.tRP && (b.open ==> done <= b.lastActCycle)
  }

  ghost predicate BankOK(t: Tech, banks: seq<Bank>, log: seq<Cmd>, b: nat)
    requires b < |banks|
  {
    && banks[b].lastCmdCycle <= banks[b].minPreCycle
    && (banks[b].open ==> banks[b].lastCmdCycle >= banks[b].lastActCycle + t.tRCD)
    && (banks[b].open ==> RowOf(log, b) == Opened(banks[b].openRow, banks[b].lastActCycle))
  }

  ghost predicate TimingOK(t: Tech, banks: seq<Bank>, minResp: nat, lastWrite: bool, log: seq<Cmd>) {
    && minResp > t.tCL + t.tBL
    && LogOK(t, log)
    && (forall i {:trigger Past(t, banks, minResp, lastWrite, log[i])} :: 0 <= i < |log| ==>
         Past(t, banks, minResp, lastWrite, log[i]))
    && (forall b {:trigger BankOK(t, banks, log, b)} :: 0 <= b < |banks| ==> BankOK(t, banks, log, b))
  }

  // ---------------------------------------------------------------------------
  // Steps
  // ---------------------------------------------------------------------------

  /** A bank after an activation. */
  function Activated(t: Tech, b: Bank, row: nat, arrival: nat, act: nat): Bank {
    Bank(true, row, if b.open then Max(arrival, b.minPreCycle) + t.tRAS
        else b.minPreCycle, act, b.lastCmdCycle, b.curRowHits)
  }

  /** A bank after a column access; `close` asks for an auto-precharge. */
  function Accessed(t: Tech, b: Bank, cmd: nat, end: nat, write: bool, hits: nat, close: bool): Bank {
    Bank(b.open && !close, b.openRow,
         Max(b.minPreCycle, Max(b.lastActCycle + t.tRAS, if write then end + t.tWR else cmd + t.tRTP)),
         b.lastActCycle, cmd, hits)
  }

  lemma RuleAct(t: Tech, banks: seq<Bank>, minResp: nat, lastWrite: bool, x: Cmd, b: nat, row: nat, act: nat)
    requires Past(t, banks, minResp, lastWrite, x) && b < |banks|
    requires act >= banks[b].minPreCycle + t.tRP && act >= banks[b].lastActCycle + t.tRRD
    ensures Rule(t, x, Act(b, row, act))
  {
    if x.Ref? { assert RefPast(t, banks[b], x.done); }
  }

  /** A column access at cmd to bank b, activated last at act, respects everything
      issued before it. */
  ghost predicate ColFits(t: Tech, b: Bank, minResp: nat, lastWrite: bool, cmd: nat, act: nat, write: bool) {
    && cmd + t.tCL >= minResp && cmd > b.lastCmdCycle && cmd >= act + t.tRCD
    && (lastWrite && !write ==> cmd >= minResp + t.tWTR)
    && act >= b.lastActCycle
  }

  lemma {:induction false} RuleCol(t: Tech, banks: seq<Bank>, minResp: nat, lastWrite: bool, x: Cmd, b: nat, act: nat,
                                   y: Cmd)
    requires Past(t, banks, minResp, lastWrite, x) && b < |banks|
    requires y.Col? && y.bank == b && ColFits(t, banks[b], minResp, lastWrite, y.cycle, act, y.write)
    requires x.Ref? ==> x.done <= act
    ensures Rule(t, x, y)
  {
  }

  /** What was issued stays in the past. */
  lemma PastCol(t: Tech, banks: seq<Bank>, minResp: nat, lastWrite: bool, x: Cmd, b: nat, act: nat, y: Cmd, bank': Bank)
    requires Past(t, banks, minResp, lastWrite, x) && b < |banks|
    requires y.Col? && y.bank == b && ColFits(t, banks[b], minResp, lastWrite, y.cycle, act, y.write)
    requires x.Ref? ==> x.done <= act
    requires bank'.lastCmdCycle == y.cycle && bank'.minPreCycle >= banks[b].minPreCycle && bank'.lastActCycle == act
    ensures Past(t, banks[b := bank'], BurstEnd(t, y), y.write, x)
  {
    RuleCol(t, banks, minResp, lastWrite, x, b, act, y);
    if x.Ref? {
      var banks' := banks[b := bank'];
      forall c | 0 <= c < |banks| ensures RefPast(t, banks'[c], x.done) {
        assert RefPast(t, banks[c], x.done);
      }
    }
  }

  lemma {:induction false} LogAppend(t: Tech, log: seq<Cmd>, y: Cmd)
    requires LogOK(t, log) && Fits(t, log, y)
    ensures LogOK(t, log + [y])
    ensures forall b: nat :: RowOf(log + [y], b) ==
              if y.Ref? then Closed else if y.Act? && y.bank == b then Opened(y.row, y.cycle) else RowOf(log, b)
  {
    assert (log + [y])[..|log|] == log;
  }

  /** The column access itself, when the row has been opened. */
  lemma ColKeeps(t: Tech, banks: seq<Bank>, minResp: nat, lastWrite: bool, log: seq<Cmd>, y: Cmd, act: nat, bank': Bank)
    requires TimingOK(t, banks, minResp, lastWrite, log) && y.Col? && y.bank < |banks|
    requires ColFits(t, banks[y.bank], minResp, lastWrite, y.cycle, act, y.write)
    requires RowOf(log, y.bank) == Opened(y.row, act)
    requires forall i :: 0 <= i < |log| && log[i].Ref? ==> log[i].done <= act
    requires bank'.lastCmdCycle == y.cycle && bank'.minPreCycle >= banks[y.bank].minPreCycle
             && bank'.lastActCycle == act
    requires bank'.openRow == y.row && bank'.minPreCycle >= PreReady(t, y) && bank'.minPreCycle >= y.cycle
    ensures TimingOK(t, banks[y.bank := bank'], BurstEnd(t, y), y.write, log + [y])
  {
    var log', banks', b := log + [y], banks[y.bank := bank'], y.bank;
    forall i | 0 <= i < |log| ensures Rule(t, log[i], y) && Past(t, banks', BurstEnd(t, y), y.write, log[i]) {
      RuleCol(t, banks, minResp, lastWrite, log[i], b, act, y);
      PastCol(t, banks, minResp, lastWrite, log[i], b, act, y, bank');
    }
    LogAppend(t, log, y);
    forall c | 0 <= c < |banks| ensures BankOK(t, banks', log', c) {
      assert BankOK(t, banks, log, c);
    }
  }

  /** A row hit. */
  lemma HitKeeps(t: Tech, banks: seq<Bank>, minResp: nat, lastWrite: bool, log: seq<Cmd>, y: Cmd, hits: nat,
                 close: bool)
    requires TimingOK(t, banks, minResp, lastWrite, log) && y.Col? && y.bank < |banks| && RowHit(banks[y.bank], y.row)
    requires ColFits(t, banks[y.bank], minResp, lastWrite, y.cycle, banks[y.bank].lastActCycle, y.write)
    ensures TimingOK(t, banks[y.bank := Accessed(t, banks[y.bank], y.cycle, BurstEnd(t, y), y.write, hits, close)],
            BurstEnd(t, y), y.write, log + [y])
  {
    var b := y.bank;
    var bank' := Accessed(t, banks[b], y.cycle, BurstEnd(t, y), y.write, hits, close);
    assert BankOK(t, banks, log, b);
    forall i | 0 <= i < |log| && log[i].Ref? ensures log[i].done <= banks[b].lastActCycle {
      assert Past(t, banks, minResp, lastWrite, log[i]) && RefPast(t, banks[b], log[i].done);
    }
    ColKeeps(t, banks, minResp, lastWrite, log, y, banks[b].lastActCycle, bank');
  }

  /** A row miss: the row is opened first. */
  lemma MissKeeps(t: Tech, banks: seq<Bank>, minResp: nat, lastWrite: bool, log: seq<Cmd>, y: Cmd, arrival: nat,
                  act: nat, hits: nat, close: bool)
    requires TimingOK(t, banks, minResp, lastWrite, log) && y.Col? && y.bank < |banks|
    requires act >= banks[y.bank].lastActCycle + t.tRRD && act >= banks[y.bank].minPreCycle + t.tRP
    requires banks[y.bank].open ==> act >= Max(arrival, banks[y.bank].minPreCycle) + t.tRP
    requires ColFits(t, banks[y.bank], minResp, lastWrite, y.cycle, act, y.write)
    ensures var b := y.bank;
            TimingOK(t, banks[b :=
                Accessed(t, Activated(t, banks[b], y.row, arrival, act), y.cycle, BurstEnd(t, y), y.write, hits,
                    close)],
                     BurstEnd(t, y), y.write, log + [Act(b, y.row, act), y])
  {
    var b := y.bank;
    var bank' := Accessed(t, Activated(t, banks[b], y.row, arrival, act), y.cycle, BurstEnd(t, y), y.write, hits,
        close);
    var a := Act(b, y.row, act);
    var mid := banks[b].(open := false, minPreCycle := Max(banks[b].minPreCycle, act + t.tRAS), lastActCycle := act);
    ActKeeps(t, banks, minResp, lastWrite, log, a, mid);
    forall i | 0 <= i < |log| && log[i].Ref? ensures log[i].done <= act {
      assert Past(t, banks, minResp, lastWrite, log[i]) && RefPast(t, banks[b], log[i].done);
    }
    LogAppend(t, log, a);
    ColKeeps(t, banks[b := mid], minResp, lastWrite, log + [a], y, act, bank');
    assert log + [a] + [y] == log + [a, y];
    assert banks[b := mid][b := bank'] == banks[b := bank'];
  }

  lemma ActKeeps(t: Tech, banks: seq<Bank>, minResp: nat, lastWrite: bool, log: seq<Cmd>, a: Cmd, mid: Bank)
    requires TimingOK(t, banks, minResp, lastWrite, log) && a.Act? && a.bank < |banks|
    requires a.cycle >= banks[a.bank].lastActCycle + t.tRRD && a.cycle >= banks[a.bank].minPreCycle + t.tRP
    requires mid == banks[a.bank].(open := false, minPreCycle :=
             Max(banks[a.bank].minPreCycle, a.cycle + t.tRAS), lastActCycle := a.cycle)
    ensures TimingOK(t, banks[a.bank := mid], minResp, lastWrite, log + [a]) && Fits(t, log, a)
  {
    var banks', log' := banks[a.bank := mid], log + [a];
    forall i | 0 <= i < |log| ensures Rule(t, log[i], a) && Past(t, banks', minResp, lastWrite, log[i]) {
      RuleAct(t, banks, minResp, lastWrite, log[i], a.bank, a.row, a.cycle);
      if log[i].Ref? {
        forall c | 0 <= c < |banks| ensures RefPast(t, banks'[c], log[i].done) {
          assert RefPast(t, banks[c], log[i].done);
        }
      }
    }
    LogAppend(t, log, a);
    forall c | 0 <= c < |banks| ensures BankOK(t, banks', log', c) {
      assert BankOK(t, banks, log, c);
    }
  }

  /** A bank after a refresh. */
  function Refreshed(t: Tech, b: Bank, done: nat): Bank
    requires done >= t.tRP
  {
    b.(minPreCycle := done - t.tRP, open := false)
  }

  ghost predicate RefreshedAt(t: Tech, banks: seq<Bank>, banks': seq<Bank>, done: nat, b: nat)
    requires b < |banks| == |banks'| && done >= t.tRP
  {
    banks'[b] == Refreshed(t, banks[b], done)
  }

  ghost predicate AllRefreshed(t: Tech, banks: seq<Bank>, banks': seq<Bank>, done: nat)
    requires |banks| == |banks'| && done >= t.tRP
  {
    forall b {:trigger RefreshedAt(t, banks, banks', done, b)} :: 0 <= b < |banks| ==>
        RefreshedAt(t, banks, banks', done, b)
  }

  /** Every bank can be refreshed from start on. */
  ghost predicate AllReady(banks: seq<Bank>, start: nat) {
    forall b :: 0 <= b < |banks| ==> start >= banks[b].minPreCycle && start >= banks[b].lastCmdCycle
  }

  lemma RefreshKeeps(t: Tech, banks: seq<Bank>, minResp: nat, lastWrite: bool, log: seq<Cmd>, start: nat,
                     banks': seq<Bank>)
    requires TechOK(t) && TimingOK(t, banks, minResp, lastWrite, log) && |banks'| == |banks| > 0
    requires AllReady(banks, start) && AllRefreshed(t, banks, banks', start + t.tRFC)
    ensures TimingOK(t, banks', minResp, lastWrite, log + [Ref(start, start + t.tRFC)])
  {
    var y := Ref(start, start + t.tRFC);
    forall i | 0 <= i < |log| ensures Rule(t, log[i], y) && Past(t, banks', minResp, lastWrite, log[i]) {
      assert Past(t, banks, minResp, lastWrite, log[i]);
      if log[i].Ref? {
        assert RefPast(t, banks[0], log[i].done);
        forall c | 0 <= c < |banks| ensures RefPast(t, banks'[c], log[i].done) {
          assert RefPast(t, banks[c], log[i].done) && RefreshedAt(t, banks, banks', start + t.tRFC, c);
        }
      } else {
        assert RefreshedAt(t, banks, banks', start + t.tRFC, log[i].bank);
      }
    }
    LogAppend(t, log, y);
    forall c | 0 <= c < |banks| ensures BankOK(t, banks', log + [y], c) && RefPast(t, banks'[c], y.done) {
      assert BankOK(t, banks, log, c) && RefreshedAt(t, banks, banks', start + t.tRFC, c);
    }
  }
}
