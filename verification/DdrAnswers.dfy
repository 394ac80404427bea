/** What the commands of a channel have to do with the requests served. */
module DdrAnswers {
  import opened DdrTiming
  import opened DdrQueues

  /** The same access, whenever it arrived. */
  ghost predicate SameAsk(a: Req, b: Req) {
    a == b.(arrival := a.arrival)
  }

  ghost predicate SameAsks(a: seq<Req>, b: seq<Req>) {
    |a| == |b| && forall i {:trigger SameAsk(a[i], b[i])} :: 0 <= i < |a| ==> SameAsk(a[i], b[i])
  }

  /** The column access x is the one that request r asks for. */
  ghost predicate AccessOf(x: Cmd, r: Req) {
    x.Col? && x == Col(r.bank, r.row, x.cycle, r.size, r.write)
  }

  /** The column accesses of the log are those of the requests served, one for each and in
      the order of serving. */
  ghost predicate Answers(log: seq<Cmd>, reqs: seq<Req>, served: seq<nat>) {
    if log == [] then served == []
    else
      var front, x := log[..|log| - 1], log[|log| - 1];
      if x.Col? then
        && served != [] && served[|served| - 1] < |reqs| && AccessOf(x, reqs[served[|served| - 1]])
        && Answers(front, reqs, served[..|served| - 1])
      else
        Answers(front, reqs, served)
  }

  /** So they are as many. */
  lemma {:induction false} AnswersCount(log: seq<Cmd>, reqs: seq<Req>, served: seq<nat>)
    requires Answers(log, reqs, served)
    ensures Accesses(log) == |served|
  {
    if log != [] {
      var front := log[..|log| - 1];
      if log[|log| - 1].Col? {
        AnswersCount(front, reqs, served[..|served| - 1]);
      } else {
        AnswersCount(front, reqs, served);
      }
    }
  }

  ghost function Accesses(log: seq<Cmd>): nat {
    if log == [] then 0 else Accesses(log[..|log| - 1]) + if log[|log| - 1].Col? then 1 else 0
  }

  /** Later arrivals, and other arrival cycles, make no difference. */
  lemma {:induction false} AnswersLater(log: seq<Cmd>, reqs: seq<Req>, reqs': seq<Req>, served: seq<nat>)
    requires Answers(log, reqs, served) && |reqs| <= |reqs'| && SameAsks(reqs, reqs'[..|reqs|])
    ensures Answers(log, reqs', served)
  {
    if log != [] {
      var front := log[..|log| - 1];
      if log[|log| - 1].Col? {
        var id := served[|served| - 1];
        assert SameAsk(reqs[id], reqs'[..|reqs|][id]);
        AnswersLater(front, reqs, reqs', served[..|served| - 1]);
      } else {
        AnswersLater(front, reqs, reqs', served);
      }
    }
  }

  /** Commands that are no column access. */
  lemma {:induction false} AnswersMore(before: seq<Cmd>, after: seq<Cmd>, reqs: seq<Req>, served: seq<nat>)
    requires Answers(before, reqs, served) && |after| >= |before| && after[..|before|] == before
    requires forall i :: |before| <= i < |after| ==> !after[i].Col?
    ensures Answers(after, reqs, served)
  {
    if |after| > |before| {
      var front := after[..|after| - 1];
      assert front[..|before|] == before;
      AnswersMore(before, front, reqs, served);
    } else {
      assert after == before;
    }
  }

  /** The commands of a request that is served. */
  lemma AnswersOne(before: seq<Cmd>, after: seq<Cmd>, reqs: seq<Req>, served: seq<nat>, id: nat)
    requires Answers(before, reqs, served) && |after| > |before| && after[..|before|] == before && id < |reqs|
    requires AccessOf(after[|after| - 1], reqs[id]) && forall i :: |before| <= i < |after| - 1 ==> !after[i].Col?
    ensures Answers(after, reqs, served + [id])
  {
    var front := after[..|after| - 1];
    assert front[..|before|] == before;
    AnswersMore(before, front, reqs, served);
    assert (served + [id])[..|served|] == served;
  }
}
