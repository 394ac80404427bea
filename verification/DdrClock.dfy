/** Translation between system cycles, in which events run, and memory cycles, in
    which the DRAM controller reckons. */
module DdrClock {

  /** Frequencies; the controller refuses a memory clock of half the system's or more. */
  datatype Clock = Clock(sysFreq: nat, memFreq: nat)

  predicate ClockOK(k: Clock) {
    0 < k.memFreq < k.sysFreq / 2
  }

  function SysToMem(k: Clock, sysCycle: nat): nat
    requires ClockOK(k)
  {
    sysCycle * k.memFreq / k.sysFreq + 1
  }

  function MemToSys(k: Clock, memCycle: nat): nat
    requires ClockOK(k)
  {
    (memCycle + 1) * k.sysFreq / k.memFreq
  }

  function MatchingMemToSys(k: Clock, memCycle: nat): nat
    requires ClockOK(k) && memCycle > 0
  {
    (2 * memCycle - 1) * k.sysFreq / k.memFreq / 2
  }

  /** q is the quotient of a by d just if it is the largest with q * d <= a. */
  lemma {:induction false} Quotient(a: nat, d: nat, q: nat)
    requires d > 0 && q * d <= a < q * d + d
    ensures a / d == q
  {
    var e := a / d;
    assert a == e * d + a % d;
    if e < q { MulLess(e + 1, q, d); } else if e > q { MulLess(q + 1, e, d); }
  }

  lemma MulLess(a: nat, b: nat, d: nat)
    requires a <= b
    ensures a * d <= b * d
  {
  }

  lemma QuotientBounds(a: nat, d: nat)
    requires d > 0
    ensures a / d * d <= a < a / d * d + d
  {
    assert a == a / d * d + a % d;
  }

  lemma Distribute(a: nat, b: nat, d: nat)
    ensures (a + b) * d == a * d + b * d
  {
  }

  lemma {:induction false} HalfQuotient(a: nat, d: nat)
    requires d > 0
    ensures var x := a / d / 2 * d; 2 * x <= a < 2 * x + 2 * d
  {
    var h := a / d;
    var s := h / 2;
    QuotientBounds(a, d);
    MulLess(s + s, h, d);
    MulLess(h, s + s + 1, d);
    Distribute(s, s, d);
    Distribute(s + s, 1, d);
  }

  /** A memory cycle translates to a system cycle that translates back to it. */
  lemma {:induction false} MatchingRoundTrip(k: Clock, m: nat)
    requires ClockOK(k) && m > 0
    ensures SysToMem(k, MatchingMemToSys(k, m)) == m && MatchingMemToSys(k, m) > 0
  {
    var sf, mf := k.sysFreq, k.memFreq;
    var a := (2 * m - 1) * sf;
    Distribute(m - 1, m - 1, sf);
    Distribute(m - 1 + (m - 1), 1, sf);
    HalfQuotient(a, mf);
    var s := a / mf / 2;
    Between(s * mf, (m - 1) * sf, a, mf, sf);
    Quotient(s * mf, sf, m - 1);
  }

  lemma Between(x: nat, y: nat, a: nat, mf: nat, sf: nat)
    requires a == y + y + sf && 2 * x <= a < 2 * x + 2 * mf && 2 * mf < sf
    ensures y <= x < y + sf && x > 0
  {
  }

  lemma {:induction false} SysToMemMonotone(k: Clock, s: nat, s': nat)
    requires ClockOK(k) && s <= s'
    ensures SysToMem(k, s) <= SysToMem(k, s')
  {
    MulLess(s, s', k.memFreq);
    var a, b, d := s * k.memFreq, s' * k.memFreq, k.sysFreq;
    QuotientBounds(a, d);
    QuotientBounds(b, d);
    if a / d > b / d { MulLess(b / d + 1, a / d, d); }
  }

  function Later(a: nat, b: nat): nat {
    if a > b then a else b
  }

  /** An event for memory cycle m, put off to the present at least, runs in cycle m. */
  lemma {:induction false} WakesInCycle(k: Clock, m: nat, now: nat)
    requires ClockOK(k) && m >= SysToMem(k, now)
    ensures var s := Later(MatchingMemToSys(k, m), now); SysToMem(k, s) == m && s >= now && s > 0
  {
    MatchingRoundTrip(k, m);
    if MatchingMemToSys(k, m) < now {
      SysToMemMonotone(k, MatchingMemToSys(k, m), now);
    }
  }

  /** A response in memory cycle m is not before the present. */
  lemma {:induction false} RespondsLater(k: Clock, m: nat, now: nat)
    requires ClockOK(k) && m >= SysToMem(k, now)
    ensures MemToSys(k, m) >= now
  {
    var sf, mf := k.sysFreq, k.memFreq;
    QuotientBounds(now * mf, sf);
    var q, a := now * mf / sf, (m + 1) * sf;
    Distribute(q, 1, sf);
    MulLess(q + 1, m + 1, sf);
    QuotientBounds(a, mf);
    var r := a / mf;
    Distribute(r, 1, mf);
    if r < now { MulLess(r + 1, now, mf); }
  }

  // ---------------------------------------------------------------------------
  // What the controller needs of the translation
  // ---------------------------------------------------------------------------

  /** From system to memory cycles; from memory cycles to the system cycle of an
      event, and to that of a response. */
  datatype Translation = Translation(toMem: nat -> nat, toEvent: nat -> nat, toResponse: nat -> nat)

  /** At system cycle `now`, an event for memory cycle m, which is not past, can be
      queued so that it runs in that cycle; nor is a response then in the past. */
  ghost predicate TranslatesAt(x: Translation, now: nat, m: nat) {
    m >= x.toMem(now) ==>
      && x.toMem(Later(x.toEvent(m), now)) == m && Later(x.toEvent(m), now) > 0
      && x.toResponse(m) >= now
  }

  ghost predicate TranslationOK(x: Translation) {
    forall now: nat, m: nat :: TranslatesAt(x, now, m)
  }

  function TranslationOf(k: Clock): (x: Translation)
    requires ClockOK(k)
  {
    Translation(s => SysToMem(k, s), m => if m > 0 then MatchingMemToSys(k, m) else 0, m => MemToSys(k, m))
  }

  lemma {:induction false} ClockTranslatesAt(k: Clock, now: nat, m: nat)
    requires ClockOK(k)
    ensures TranslatesAt(TranslationOf(k), now, m)
  {
    if m >= SysToMem(k, now) {
      WakesInCycle(k, m, now);
      RespondsLater(k, m, now);
    }
  }

  lemma {:induction false} ClockTranslates(k: Clock)
    requires ClockOK(k)
    ensures TranslationOK(TranslationOf(k))
  {
    var x := TranslationOf(k);
    forall now: nat, m: nat ensures TranslatesAt(x, now, m) { ClockTranslatesAt(k, now, m); }
  }
}
