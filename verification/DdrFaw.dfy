/** The four-activate rule over all the commands of a channel. */
module DdrFaw {
  import opened DdrTiming
  import ActWindows

  ghost predicate IsActOf(x: Cmd, rank: seq<nat>, r: nat) {
    x.Act? && x.bank < |rank| && rank[x.bank] == r
  }

  /** The cycles of the activations of rank r; rank gives the rank of each bank. */
  ghost function ActsOf(log: seq<Cmd>, rank: seq<nat>, r: nat): seq<nat> {
    if log == [] then []
    else ActsOf(log[..|log| - 1], rank, r) + if IsActOf(log[|log| - 1], rank, r) then [log[|log| - 1].cycle] else []
  }

  /** No more than n activations of any rank in any tFAW cycles. */
  ghost predicate FourActivates(log: seq<Cmd>, rank: seq<nat>, ranks: nat, n: nat, tFAW: nat) {
    forall r :: 0 <= r < ranks ==> ActWindows.AtMostIn(ActsOf(log, rank, r), n, tFAW)
  }

  ghost predicate RankOK(t: Tech, rank: seq<nat>, window: seq<nat>, log: seq<Cmd>, r: nat, n: nat) {
    |window| == n > 0 && ActWindows.Covered(ActsOf(log, rank, r), window, t.tFAW)
  }

  /** The window of every rank covers the activations of the rank. */
  ghost predicate RanksOK(t: Tech, rank: seq<nat>, windows: seq<seq<nat>>, log: seq<Cmd>, n: nat) {
    forall r {:trigger RankOK(t, rank, windows[r], log, r, n)} :: 0 <= r < |windows| ==>
        RankOK(t, rank, windows[r], log, r, n)
  }

  lemma RanksStart(t: Tech, rank: seq<nat>, windows: seq<seq<nat>>, n: nat)
    requires n > 0 && forall r :: 0 <= r < |windows| ==> |windows[r]| == n
    ensures RanksOK(t, rank, windows, [], n)
  {
  }

  lemma RanksRule(t: Tech, rank: seq<nat>, windows: seq<seq<nat>>, log: seq<Cmd>, n: nat)
    requires RanksOK(t, rank, windows, log, n)
    ensures FourActivates(log, rank, |windows|, n, t.tFAW)
  {
    forall r | 0 <= r < |windows| ensures ActWindows.AtMostIn(ActsOf(log, rank, r), n, t.tFAW) {
      assert RankOK(t, rank, windows[r], log, r, n);
    }
  }

  /** A command that is no activation of the rank. */
  lemma RankOther(t: Tech, rank: seq<nat>, window: seq<nat>, log: seq<Cmd>, r: nat, n: nat, x: Cmd)
    requires RankOK(t, rank, window, log, r, n) && !IsActOf(x, rank, r)
    ensures RankOK(t, rank, window, log + [x], r, n)
  {
    assert (log + [x])[..|log|] == log;
    assert ActsOf(log + [x], rank, r) == ActsOf(log, rank, r);
  }

  /** An activation that respects the window is recorded in it. */
  lemma RankAct(t: Tech, rank: seq<nat>, window: seq<nat>, log: seq<Cmd>, r: nat, n: nat, x: Cmd)
    requires RankOK(t, rank, window, log, r, n) && IsActOf(x, rank, r) && x.cycle >= window[0] + t.tFAW
    ensures RankOK(t, rank, ActWindows.Added(window, x.cycle), log + [x], r, n)
  {
    assert (log + [x])[..|log|] == log;
    ActWindows.CoveredAct(ActsOf(log, rank, r), window, t.tFAW, x.cycle);
  }

  lemma RanksOther(t: Tech, rank: seq<nat>, windows: seq<seq<nat>>, log: seq<Cmd>, n: nat, x: Cmd)
    requires RanksOK(t, rank, windows, log, n) && !x.Act?
    ensures RanksOK(t, rank, windows, log + [x], n)
  {
    var log' := log + [x];
    forall r | 0 <= r < |windows| ensures RankOK(t, rank, windows[r], log', r, n) {
      RankOther(t, rank, windows[r], log, r, n, x);
    }
  }

  lemma RanksAct(t: Tech, rank: seq<nat>, windows: seq<seq<nat>>, log: seq<Cmd>, n: nat, x: Cmd, r: nat)
    requires RanksOK(t, rank, windows, log, n) && IsActOf(x, rank, r) && r < |windows| && windows[r] != []
    requires x.cycle >= windows[r][0] + t.tFAW
    ensures RanksOK(t, rank, windows[r := ActWindows.Added(windows[r], x.cycle)], log + [x], n)
  {
    var log', windows' := log + [x], windows[r := ActWindows.Added(windows[r], x.cycle)];
    forall q | 0 <= q < |windows| ensures RankOK(t, rank, windows'[q], log', q, n) {
      if q == r { RankAct(t, rank, windows[r], log, r, n, x); } else { RankOther(t, rank, windows[q], log, q, n, x); }
    }
  }

  /** An activation and the access after it. */
  lemma RanksMiss(t: Tech, rank: seq<nat>, windows: seq<seq<nat>>, log: seq<Cmd>, n: nat, act: Cmd, x: Cmd, r: nat)
    requires RanksOK(t, rank, windows, log, n) && IsActOf(act, rank, r) && r < |windows| && windows[r] != []
    requires act.cycle >= windows[r][0] + t.tFAW && !x.Act?
    ensures RanksOK(t, rank, windows[r := ActWindows.Added(windows[r], act.cycle)], log + [act, x], n)
  {
    RanksAct(t, rank, windows, log, n, act, r);
    RanksOther(t, rank, windows[r := ActWindows.Added(windows[r], act.cycle)], log + [act], n, x);
    assert log + [act] + [x] == log + [act, x];
  }
}
