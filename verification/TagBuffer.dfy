/** The tag buffer of the hybrid DRAM cache: a small set-associative buffer of page
    tags.  Entries marked as remapped must stay until the whole buffer is cleared. */
module TagBuffers {

  /** An entry that holds no tag has tag 0, which is also the tag of page 0. */
  datatype Entry = Entry(tag: nat, remap: bool, lru: nat)

  type TagSet = seq<Entry>

  // ---------------------------------------------------------------------------
  // What every set keeps
  // ---------------------------------------------------------------------------

  /** Two ways hold the same tag only if it is 0, and then the later one is not
      remapped; the ranks of ways that are not remapped differ. */
  ghost predicate PairOK(s: TagSet, i: nat, j: nat)
    requires i < j < |s|
  {
    && (s[i].tag == s[j].tag ==> s[i].tag == 0 && !s[j].remap)
    && (!s[i].remap && !s[j].remap ==> s[i].lru != s[j].lru)
  }

  ghost predicate SetOK(s: TagSet) {
    forall i, j {:trigger PairOK(s, i, j)} :: 0 <= i < j < |s| ==> PairOK(s, i, j)
  }

  ghost function Remaps(s: TagSet): nat {
    if s == [] then 0 else Remaps(s[1..]) + if s[0].remap then 1 else 0
  }

  lemma {:induction false} RemapsUpdate(s: TagSet, i: nat, e: Entry)
    requires i < |s|
    ensures Remaps(s[i := e]) + (if s[i].remap then 1 else 0) == Remaps(s) + if e.remap then 1 else 0
  {
    if i > 0 {
      RemapsUpdate(s[1..], i - 1, e);
      assert s[i := e][1..] == s[1..][i - 1 := e];
    } else {
      assert s[i := e][1..] == s[1..];
    }
  }

  lemma {:induction false} RemapsSame(s: TagSet, t: TagSet)
    requires |s| == |t| && forall i :: 0 <= i < |s| ==> s[i].remap == t[i].remap
    ensures Remaps(s) == Remaps(t)
  {
    if s != [] { RemapsSame(s[1..], t[1..]); }
  }

  // ---------------------------------------------------------------------------
  // Recency
  // ---------------------------------------------------------------------------

  /** An entry after way `way` was used: it is the most recent, those that were more
      recent go one back, and remapped entries keep their rank. */
  function Aged(s: TagSet, way: nat, i: nat): Entry
    requires way < |s| && i < |s|
  {
    if i == way then s[i].(lru := 0)
    else if !s[i].remap && s[i].lru < s[way].lru then s[i].(lru := s[i].lru + 1)
    else s[i]
  }

  method UpdateLRU(s: TagSet, way: nat) returns (s': TagSet)
    requires way < |s| && !s[way].remap
    ensures |s'| == |s| && forall i :: 0 <= i < |s| ==> s'[i] == Aged(s, way, i)
  {
    s' := s;
    for i := 0 to |s|
      invariant |s'| == |s| && s'[way] == s[way]
      invariant forall j :: 0 <= j < i && j != way ==> s'[j] == Aged(s, way, j)
      invariant forall j :: i <= j < |s| ==> s'[j] == s[j]
    {
      if !s'[i].remap && s'[i].lru < s'[way].lru {
        s' := s'[i := s'[i].(lru := s'[i].lru + 1)];
      }
    }
    s' := s'[way := s'[way].(lru := 0)];
  }

  /** Use keeps the ranks distinct, and the order of all other ways. */
  lemma AgedOK(s: TagSet, s': TagSet, way: nat)
    requires SetOK(s) && way < |s| && !s[way].remap && |s'| == |s| && forall i :: 0 <= i < |s| ==>
               s'[i] == Aged(s, way, i)
    ensures SetOK(s') && Remaps(s') == Remaps(s)
    ensures forall i, j :: 0 <= i < |s| && 0 <= j < |s| && i != way && j != way && !s[i].remap && !s[j].remap ==>
              (s[i].lru < s[j].lru <==> s'[i].lru < s'[j].lru)
    ensures forall i :: 0 <= i < |s| && i != way && !s[i].remap ==> s'[i].lru > s'[way].lru == 0
  {
    forall i, j | 0 <= i < j < |s| ensures PairOK(s', i, j) {
      assert PairOK(s, i, j);
      if i < way { assert PairOK(s, i, way); } else if way < i { assert PairOK(s, way, i); }
      if j < way { assert PairOK(s, j, way); } else if way < j { assert PairOK(s, way, j); }
    }
    forall i | 0 <= i < |s| && i != way && !s[i].remap ensures s'[i].lru > 0 {
      assert if i < way then PairOK(s, i, way) else PairOK(s, way, i);
    }
    forall i, j | 0 <= i < |s| && 0 <= j < |s| && i != way && j != way && !s[i].remap && !s[j].remap
      ensures s[i].lru < s[j].lru <==> s'[i].lru < s'[j].lru
    {
      assert i < j ==> PairOK(s, i, j);
      assert j < i ==> PairOK(s, j, i);
      assert if i < way then PairOK(s, i, way) else PairOK(s, way, i);
      assert if j < way then PairOK(s, j, way) else PairOK(s, way, j);
    }
    RemapsSame(s, s');
  }

  // ---------------------------------------------------------------------------
  // Lookup and admission
  // ---------------------------------------------------------------------------

  ghost predicate HasTag(s: TagSet, tag: nat) {
    exists i :: 0 <= i < |s| && s[i].tag == tag
  }

  ghost predicate HasRoom(s: TagSet) {
    exists i :: 0 <= i < |s| && !s[i].remap
  }

  /** The tag can be inserted: it is there, or some way is not remapped. */
  ghost predicate Admits(s: TagSet, tag: nat) {
    HasTag(s, tag) || HasRoom(s)
  }

  method Exist(s: TagSet, tag: nat) returns (way: nat)
    ensures way <= |s| && (way < |s| <==> HasTag(s, tag))
    ensures way < |s| ==> s[way].tag == tag
    ensures forall i :: 0 <= i < way ==> s[i].tag != tag
  {
    way := 0;
    while way < |s| && s[way].tag != tag
      invariant way <= |s| && forall i :: 0 <= i < way ==> s[i].tag != tag
    {
      way := way + 1;
    }
  }

  method CanInsertIn(s: TagSet, tag: nat) returns (ok: bool)
    ensures ok <==> Admits(s, tag)
  {
    var i := 0;
    while i < |s| && s[i].remap && s[i].tag != tag
      invariant i <= |s| && forall j :: 0 <= j < i ==> s[j].remap && s[j].tag != tag
    {
      i := i + 1;
    }
    ok := i < |s|;
  }

  /** Two different ways are free for t1 and t2 or hold them. */
  predicate Usable(s: TagSet, t1: nat, t2: nat, i: nat)
    requires i < |s|
  {
    !s[i].remap || s[i].tag == t1 || s[i].tag == t2
  }

  ghost predicate AdmitsBoth(s: TagSet, t1: nat, t2: nat) {
    exists i, j :: 0 <= i < j < |s| && Usable(s, t1, t2, i) && Usable(s, t1, t2, j)
  }

  method CanInsertBothIn(s: TagSet, t1: nat, t2: nat) returns (ok: bool)
    ensures ok <==> AdmitsBoth(s, t1, t2)
  {
    var num := 0;
    ghost var first := 0;
    for i := 0 to |s|
      invariant num == 0 ==> forall j :: 0 <= j < i ==> !Usable(s, t1, t2, j)
      invariant num == 1 ==> first < i && Usable(s, t1, t2, first) && forall j :: 0 <= j < i && j != first ==>
                  !Usable(s, t1, t2, j)
      invariant num >= 2 ==> AdmitsBoth(s, t1, t2)
    {
      if Usable(s, t1, t2, i) {
        if num == 0 { first := i; }
        num := num + 1;
      }
    }
    ok := num >= 2;
  }

  // ---------------------------------------------------------------------------
  // Insertion
  // ---------------------------------------------------------------------------

  /** s' is s with the tag in way `way`: there already, or in place of the least
      recent entry that is not remapped.  A remapped entry is never lost. */
  ghost predicate InsertedAt(s: TagSet, s': TagSet, tag: nat, remap: bool, way: nat) {
    && |s'| == |s| && way < |s|
    && (forall i :: 0 <= i < |s| && i != way ==>
         s'[i].tag == s[i].tag && s'[i].remap == s[i].remap && (s[i].remap ==> s'[i] == s[i]))
    && s'[way].tag == tag && (s'[way].remap <==> remap || (s[way].remap && s[way].tag == tag))
    && (HasTag(s, tag) ==> s[way].tag == tag && forall i :: 0 <= i < way ==> s[i].tag != tag)
    && (!HasTag(s, tag) ==> !s[way].remap && forall i :: 0 <= i < |s| && !s[i].remap ==> s[i].lru <= s[way].lru)
    && Remaps(s') == Remaps(s) + if remap && !s[way].remap then 1 else 0
  }

  /** The least recent way that is not remapped, or none. */
  method Victim(s: TagSet) returns (way: nat)
    ensures way <= |s| && (way < |s| <==> HasRoom(s))
    ensures way < |s| ==> !s[way].remap && forall i :: 0 <= i < |s| && !s[i].remap ==> s[i].lru <= s[way].lru
  {
    var maxLru := 0;
    way := |s|;
    for i := 0 to |s|
      invariant way < i || way == |s|
      invariant way == |s| ==> maxLru == 0 && forall j :: 0 <= j < i ==> s[j].remap
      invariant way < |s| ==> !s[way].remap && s[way].lru == maxLru && forall j :: 0 <= j < i && !s[j].remap ==>
                  s[j].lru <= maxLru
    {
      if !s[i].remap && s[i].lru >= maxLru {
        maxLru, way := s[i].lru, i;
      }
    }
  }

  /** Putting a new tag in place of an entry that is not remapped. */
  lemma PutOK(s: TagSet, way: nat, tag: nat, remap: bool)
    requires SetOK(s) && way < |s| && !s[way].remap
             && (!HasTag(s, tag) || (s[way].tag == tag && forall i :: 0 <= i < way ==> s[i].tag != tag))
    ensures SetOK(s[way := s[way].(tag := tag, remap := remap)])
    ensures Remaps(s[way := s[way].(tag := tag, remap := remap)]) == Remaps(s) + if remap then 1 else 0
  {
    var s' := s[way := s[way].(tag := tag, remap := remap)];
    forall i, j | 0 <= i < j < |s| ensures PairOK(s', i, j) { assert PairOK(s, i, j); }
    RemapsUpdate(s, way, s'[way]);
  }

  method InsertIn(s: TagSet, tag: nat, remap: bool) returns (ok: bool, s': TagSet, way: nat)
    requires SetOK(s)
    ensures ok <==> Admits(s, tag)
    ensures ok ==> SetOK(s') && InsertedAt(s, s', tag, remap, way)
    ensures !ok ==> s' == s
  {
    ok, s' := true, s;
    way := Exist(s, tag);
    if way < |s| {
      if remap {
        if !s[way].remap {
          PutOK(s, way, tag, true);
        }
        s' := s[way := s[way].(remap := true)];
        assert s[way].remap ==> s' == s;
      } else if !s[way].remap {
        s' := UpdateLRU(s, way);
        AgedOK(s, s', way);
      }
      return;
    }
    way := Victim(s);
    if way == |s| {
      ok := false;
      return;
    }
    PutOK(s, way, tag, remap);
    s' := s[way := s[way].(tag := tag, remap := remap)];
    if !remap {
      ghost var mid := s';
      s' := UpdateLRU(s', way);
      AgedOK(mid, s', way);
    }
  }

  /** Not both of two usable ways can hold the second tag remapped. */
  lemma FirstFits(s: TagSet, t1: nat, t2: nat)
    requires SetOK(s) && AdmitsBoth(s, t1, t2)
    ensures Admits(s, t1)
  {
    var i, j :| 0 <= i < j < |s| && Usable(s, t1, t2, i) && Usable(s, t1, t2, j);
    assert PairOK(s, i, j);
  }

  /** Admission is sound: after the first of two different tags, there is still a way
      for the second, even if the first took its place. */
  lemma BothFit(s: TagSet, s': TagSet, t1: nat, t2: nat, way: nat)
    requires SetOK(s) && AdmitsBoth(s, t1, t2) && t1 != t2
    requires InsertedAt(s, s', t1, true, way)
    ensures Admits(s', t2)
  {
    var i, j :| 0 <= i < j < |s| && Usable(s, t1, t2, i) && Usable(s, t1, t2, j);
    var f := if i != way then i else j;
    assert s'[f].tag == s[f].tag && s'[f].remap == s[f].remap;
    assert way < f ==> PairOK(s, way, f);
  }

  ghost function TotalRemaps(sets: seq<TagSet>): nat {
    if sets == [] then 0 else TotalRemaps(sets[1..]) + Remaps(sets[0])
  }

  lemma {:induction false} TotalUpdate(sets: seq<TagSet>, k: nat, s: TagSet)
    requires k < |sets|
    ensures TotalRemaps(sets[k := s]) + Remaps(sets[k]) == TotalRemaps(sets) + Remaps(s)
  {
    if k > 0 {
      TotalUpdate(sets[1..], k - 1, s);
      assert sets[k := s][1..] == sets[1..][k - 1 := s];
    } else {
      assert sets[k := s][1..] == sets[1..];
    }
  }

  /** An empty set. */
  function Cleared(ways: nat): (s: TagSet)
    ensures |s| == ways && SetOK(s)
  {
    seq(ways, j requires 0 <= j < ways => Entry(0, false, j))
  }

  lemma {:induction false} NoRemaps(s: TagSet)
    requires forall i :: 0 <= i < |s| ==> !s[i].remap
    ensures Remaps(s) == 0
  {
    if s != [] { NoRemaps(s[1..]); }
  }

  lemma {:induction false} AllCleared(sets: seq<TagSet>)
    requires forall k :: 0 <= k < |sets| ==> Remaps(sets[k]) == 0
    ensures TotalRemaps(sets) == 0
  {
    if sets != [] { AllCleared(sets[1..]); }
  }

  function Home(tag: nat, sets: nat): (k: nat)
    requires sets > 0
    ensures k < sets
  {
    tag % sets
  }

  /** Every set is in order, and the count of remapped entries is right. */
  ghost predicate BufferOK(sets: seq<TagSet>, numWays: nat, numSets: nat, occupied: nat) {
    && numWays > 0 && numSets > 0 && |sets| == numSets
    && (forall k :: 0 <= k < numSets ==> |sets[k]| == numWays && SetOK(sets[k]))
    && occupied == TotalRemaps(sets)
  }

  class TagBuffer {
    const numWays: nat
    const numSets: nat
    var sets: seq<TagSet>
    var entryOccupied: nat

    ghost predicate Valid()
      reads this
    {
      BufferOK(sets, numWays, numSets, entryOccupied)
    }

    constructor (size: nat)
      requires size >= 8
      ensures Valid() && numWays == 8 && numSets == size / 8 && entryOccupied == 0
      ensures forall k :: 0 <= k < numSets ==> sets[k] == Cleared(8)
    {
      numWays, numSets := 8, size / 8;
      sets := seq(size / 8, _ => Cleared(8));
      entryOccupied := 0;
      new;
      NoRemaps(Cleared(8));
      AllCleared(sets);
    }

    method ClearTagBuffer()
      requires Valid()
      modifies this
      ensures Valid() && entryOccupied == 0 && forall k :: 0 <= k < numSets ==> sets[k] == Cleared(numWays)
    {
      entryOccupied := 0;
      for i := 0 to numSets
        invariant |sets| == numSets && entryOccupied == 0
        invariant forall k :: 0 <= k < i ==> sets[k] == Cleared(numWays)
      {
        sets := sets[i := Cleared(numWays)];
      }
      NoRemaps(Cleared(numWays));
      AllCleared(sets);
    }

    /** The tag can be inserted. */
    ghost predicate Fits(tag: nat)
      requires Valid()
      reads this
    {
      Admits(sets[Home(tag, numSets)], tag)
    }

    /** Both tags can be inserted. */
    ghost predicate BothFitIn(t1: nat, t2: nat)
      requires Valid()
      reads this
    {
      if Home(t1, numSets) != Home(t2, numSets) then Fits(t1) && Fits(t2)
      else AdmitsBoth(sets[Home(t1, numSets)], t1, t2)
    }

    method CanInsert(tag: nat) returns (ok: bool)
      requires Valid()
      ensures ok <==> Fits(tag)
    {
      ok := CanInsertIn(sets[Home(tag, numSets)], tag);
    }

    method CanInsertBoth(t1: nat, t2: nat) returns (ok: bool)
      requires Valid()
      ensures ok <==> BothFitIn(t1, t2)
    {
      if Home(t1, numSets) != Home(t2, numSets) {
        ok := CanInsert(t1);
        if ok { ok := CanInsert(t2); }
      } else {
        ok := CanInsertBothIn(sets[Home(t1, numSets)], t1, t2);
      }
    }

    /** insert: it succeeds just if the tag fits, and changes one set. */
    method Insert(tag: nat, remap: bool) returns (ok: bool, ghost way: nat)
      requires Valid()
      modifies this
      ensures Valid() && (ok <==> old(Fits(tag))) && (!ok ==> sets == old(sets))
      ensures ok ==> InsertedAt(old(sets[Home(tag, numSets)]), sets[Home(tag, numSets)], tag, remap, way)
      ensures forall k :: 0 <= k < numSets && k != Home(tag, numSets) ==> sets[k] == old(sets[k])
    {
      var k := Home(tag, numSets);
      var s', w;
      ok, s', w := InsertIn(sets[k], tag, remap);
      way := w;
      if ok {
        TotalUpdate(sets, k, s');
        // A new remapped entry is counted
        if remap && !sets[k][w].remap {
          entryOccupied := entryOccupied + 1;
        }
        sets := sets[k := s'];
      }
    }

    /** The two insertions of a replacement: neither runs out of ways, both tags are
        remapped afterwards. */
    method InsertBoth(t1: nat, t2: nat) returns (ok1: bool, ok2: bool)
      requires Valid() && t1 != t2 && BothFitIn(t1, t2)
      modifies this
      ensures Valid() && ok1 && ok2
      ensures Remapped(t1) && Remapped(t2)
    {
      ghost var s := sets[Home(t1, numSets)];
      ghost var w1, w2;
      if Home(t1, numSets) == Home(t2, numSets) {
        FirstFits(s, t1, t2);
      }
      ok1, w1 := Insert(t1, true);
      if Home(t1, numSets) == Home(t2, numSets) && ok1 {
        BothFit(s, sets[Home(t1, numSets)], t1, t2, w1);
      }
      ok2, w2 := Insert(t2, true);
    }

    ghost predicate Remapped(tag: nat)
      requires Valid()
      reads this
    {
      exists i :: 0 <= i < numWays && sets[Home(tag, numSets)][i].tag == tag && sets[Home(tag, numSets)][i].remap
    }
  }
}
