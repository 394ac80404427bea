/** The vocabulary of the MESI controllers: coherence states, request and
    invalidation types, the directory entry of a top controller, the race check
    at the head of an access, and the cache tree as seen by one line address. */
module MesiProtocol {

  datatype MESIState = I | S | E | M

  datatype AccessType = GETS | GETX | PUTS | PUTX

  datatype InvType = INV | INVX

  predicate Exclusive(s: MESIState) {
    s == E || s == M
  }

  /** What losing exclusivity (INVX) does to a state. */
  function Downgraded(s: MESIState): MESIState {
    if Exclusive(s) then S else s
  }

  /** One directory entry; a sharer is named by its node. */
  datatype Entry = Entry(numSharers: nat, sharers: set<nat>, exclusive: bool) {
    predicate IsEmpty() {
      numSharers == 0
    }

    predicate IsExclusive() {
      numSharers == 1 && exclusive
    }

    /** The counter is the number of sharer bits, and the exclusive flag is
        never left standing over two sharers. */
    predicate Counted() {
      numSharers == |sharers| && (numSharers >= 2 ==> !exclusive)
    }
  }

  // ---------------------------------------------------------------------------
  // Races
  // ---------------------------------------------------------------------------

  datatype RaceOutcome = Skip | Proceed(access: AccessType) | Panic

  /** The check made once both parent locks are held: `now` is the child's state
      at that moment, `initial` its state when the request was issued.  `Panic`
      stands for the failed assertions and the explicit panic. */
  function CheckForMESIRace(access: AccessType, now: MESIState, initial: MESIState): RaceOutcome {
    if now == initial then Proceed(access)
    else if access == PUTS || access == PUTX then
      if now == I then Skip
      else if now == S then Proceed(PUTS)
      else Panic
    else if access == GETX then
      if initial == S && now == I then Proceed(GETX) else Panic
    else Panic
  }

  /** The requests the bottom controller issues: the state that made it issue them. */
  predicate Issuable(access: AccessType, initial: MESIState) {
    match access
    case GETS => initial == I
    case GETX => initial == I || initial == S
    case PUTS => initial == S || initial == E
    case PUTX => initial == M
  }

  /** One invalidation or downgrade overtaking a waiting request. */
  ghost predicate Overtakes(before: MESIState, after: MESIState) {
    || (before != I && after == I)
    || (Exclusive(before) && after == S)
  }

  /** A request that waited while any number of INV and INVX passed by. */
  ghost predicate Overtaken(initial: MESIState, now: MESIState, times: nat)
    decreases times
  {
    if times == 0 then now == initial
    else exists mid :: Overtakes(mid, now) && Overtaken(initial, mid, times - 1)
  }

  /** The states a request issued in `initial` can be found in. */
  predicate Survives(initial: MESIState, now: MESIState) {
    now == initial || (initial != I && now == I) || (Exclusive(initial) && now == S)
  }

  /** However many invalidations overtake a waiting request, the race check never
      panics; it drops exactly the PUTs whose line is gone, and what it lets
      through is a request the race-free controllers accept: PUTX only in M, PUTS
      only on a valid line, GETX only in I or S, GETS only in I. */
  lemma {:induction false} RaceCheckAbsorbsEveryInterleaving(access: AccessType, initial: MESIState, now: MESIState,
                                                             times: nat)
    requires Issuable(access, initial)
    requires Overtaken(initial, now, times)
    ensures CheckForMESIRace(access, now, initial) != Panic
    ensures CheckForMESIRace(access, now, initial).Skip? <==> (access == PUTS || access == PUTX) && now == I
    ensures match CheckForMESIRace(access, now, initial)
            case Skip => true
            case Panic => false
            case Proceed(PUTX) => access == PUTX && now == M
            case Proceed(PUTS) => (access == PUTX ==> now == S) && (now == S || now == E)
            case Proceed(GETX) => access == GETX && (now == I || now == S)
            case Proceed(GETS) => access == GETS && now == I
  {
    OvertakenStates(initial, now, times);
  }

  lemma {:induction false} OvertakenStates(initial: MESIState, now: MESIState, times: nat)
    requires Overtaken(initial, now, times)
    ensures Survives(initial, now)
    decreases times
  {
    if times != 0 {
      var mid :| Overtakes(mid, now) && Overtaken(initial, mid, times - 1);
      OvertakenStates(initial, mid, times - 1);
    }
  }

  // ---------------------------------------------------------------------------
  // The cache tree
  // ---------------------------------------------------------------------------

  /** What a cache is doing for this line while it holds its own top lock. */
  datatype Busy =
    | Idle
    | Core(access: AccessType)                 // a terminal cache serving its core
    | Serving(child: nat, access: AccessType)  // an inner cache serving a child
    | Evicting

  /** A request sent up and not yet taken by the parent. */
  datatype Pending = None | Waiting(access: AccessType, initial: MESIState, noExcl: bool)

  /** One cache's view of one line address.  `value` is the version of the line
      its data array holds; the simulator itself only keeps the states. */
  datatype Node = Node(state: MESIState, dir: Entry, present: bool, value: nat, pending: Pending, busy: Busy)

  /** A finite tree, numbered so that parents precede children; node 0 is the
      last-level cache, whose parent is memory. */
  datatype Tree = Tree(parent: seq<nat>, children: seq<seq<nat>>) {
    ghost predicate WellFormed() {
      && |parent| == |children| > 0
      && (forall n :: 0 < n < |parent| ==> parent[n] < n)
    }

    /** The child lists say the same as the parent pointers, without repeats. */
    ghost predicate Listed() {
      && WellFormed()
      && (forall p :: Has(p) ==> ListedBelow(p))
    }

    ghost predicate ListedBelow(p: nat)
      requires WellFormed() && Has(p)
    {
      && (forall n :: 0 < n < |parent| && parent[n] == p ==> n in children[p])
      && (forall n :: n in children[p] ==> p < n < |parent| && parent[n] == p)
      && (forall i, j :: 0 <= i < j < |children[p]| ==> children[p][i] != children[p][j])
    }

    predicate Has(n: int) {
      0 <= n < |parent|
    }

    /** n lies in the subtree rooted at a. */
    ghost predicate Under(n: nat, a: nat)
      requires WellFormed() && Has(n)
      decreases n
    {
      n == a || (n > 0 && Under(parent[n], a))
    }

    /** The child of p on the way down to n. */
    ghost function Toward(n: nat, p: nat): (c: nat)
      requires WellFormed() && Has(n) && n != p && Under(n, p)
      ensures 0 < c < |parent| && parent[c] == p && Under(n, c)
      decreases n
    {
      if parent[n] == p then n else Toward(parent[n], p)
    }

    lemma {:induction false} UnderIsAbove(n: nat, a: nat)
      requires WellFormed() && Has(n) && Under(n, a)
      ensures a <= n
      decreases n
    {
      if n != a { UnderIsAbove(parent[n], a); }
    }

    lemma {:induction false} UnderTransitive(n: nat, c: nat, a: nat)
      requires WellFormed() && Has(n) && Has(c) && Under(n, c) && Under(c, a)
      ensures Under(n, a)
      decreases n
    {
      if n != c { UnderTransitive(parent[n], c, a); }
    }

    /** A node below a child of p is below p, strictly, by way of that child only. */
    lemma {:induction false} UnderChild(n: nat, c: nat, p: nat)
      requires WellFormed() && Has(n) && Has(c) && c > 0 && parent[c] == p && Under(n, c)
      ensures n != p && Under(n, p) && Toward(n, p) == c
      decreases n
    {
      UnderIsAbove(n, c);
      if n != c {
        UnderChild(parent[n], c, p);
        if parent[n] == p { UnderIsAbove(p, c); }
      }
    }
  }
}
