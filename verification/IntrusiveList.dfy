/** The intrusive doubly linked lists that hold the requests of a DRAM bank: a node
    carries its own links and the list it is on. */
module IntrusiveLists {

  class Request {
    const id: nat
    const row: nat
    var rowHitSeq: nat
    var next: Request?
    var prev: Request?
    var owner: InList?

    constructor (id: nat, row: nat)
      ensures this.id == id && this.row == row && IsFree()
    {
      this.id, this.row := id, row;
      next, prev, owner := null, null, null;
    }

    /** On no list. */
    ghost predicate IsFree()
      reads this
    {
      next == null && prev == null && owner == null
    }

    /** Takes the node out of the chain it is in. */
    method Unlink(lst: InList)
      requires owner == lst && next != this && prev != this && (next == null || next != prev)
      modifies this`next, this`prev, this`owner, {next}`prev, {prev}`next
      ensures IsFree()
      ensures old(next) != null ==> old(next).prev == old(prev)
      ensures old(prev) != null ==> old(prev).next == old(next)
    {
      if next != null { next.prev := prev; }
      if prev != null { prev.next := next; }
      next, prev, owner := null, null, null;
    }

    /** Puts the node into a chain after p. */
    method LinkPrev(p: Request, lst: InList)
      requires IsFree() && p != this && p.next != this && p.next != p && (p.next == null || p.next.prev == p)
      modifies this`next, this`prev, this`owner, p`next, {p.next}`prev
      ensures next == old(p.next) && prev == p && owner == lst && p.next == this
      ensures old(p.next) != null ==> old(p.next).prev == this
    {
      if p.next != null {
        p.next.prev := this;
        next := p.next;
      }
      p.next := this;
      prev := p;
      owner := lst;
    }
  }

  /** Node i of a list is where it should be. */
  ghost predicate LinkOK(list: seq<Request>, lst: InList, i: nat)
    requires i < |list|
    reads list
  {
    && list[i].owner == lst
    && list[i].prev == (if i == 0 then null else list[i - 1])
    && list[i].next == (if i + 1 < |list| then list[i + 1] else null)
  }

  ghost predicate Chain(list: seq<Request>, lst: InList)
    reads list
  {
    && (forall i, j :: 0 <= i < j < |list| ==> list[i] != list[j])
    && (forall i :: 0 <= i < |list| ==> LinkOK(list, lst, i))
  }

  class InList {
    var head: Request?
    var tail: Request?
    var elems: nat
    ghost var list: seq<Request>

    ghost predicate Valid()
      reads this, list
    {
      && elems == |list| && Chain(list, this)
      && head == (if list == [] then null else list[0])
      && tail == (if list == [] then null else list[|list| - 1])
    }

    constructor ()
      ensures Valid() && list == []
    {
      head, tail, elems := null, null, 0;
      list := [];
    }

    predicate Empty()
      requires Valid()
      ensures Empty() <==> list == []
      reads this, list
    {
      head == null
    }

    lemma FreeIsElsewhere(e: Request)
      requires Valid() && e.IsFree()
      ensures forall i :: 0 <= i < |list| ==> list[i] != e
    {
      forall i | 0 <= i < |list| ensures list[i] != e { assert LinkOK(list, this, i); }
    }

    method PushFront(e: Request)
      requires Valid() && e.IsFree()
      modifies this, e`next, e`owner, {head}`prev
      ensures Valid() && list == [e] + old(list)
    {
      FreeIsElsewhere(e);
      if Empty() {
        head, tail := e, e;
      } else {
        assert LinkOK(list, this, 0);
        e.next := head;
        head.prev := e;
        head := e;
      }
      e.owner := this;
      elems := elems + 1;
      list := [e] + list;
      forall i | 0 <= i < |list| ensures LinkOK(list, this, i) {
        if i > 0 { assert old(LinkOK(list, this, i - 1)); }
      }
    }

    method InsertAfter(p: Request, e: Request, ghost i: nat)
      requires Valid() && e.IsFree() && i < |list| && p == list[i]
      modifies this, e`next, e`prev, e`owner, p`next, {p.next}`prev
      ensures Valid() && list == old(list)[..i + 1] + [e] + old(list)[i + 1..]
    {
      FreeIsElsewhere(e);
      assert LinkOK(list, this, i);
      assert i + 1 < |list| ==> LinkOK(list, this, i + 1);
      e.LinkPrev(p, this);
      if p == tail { tail := e; }
      elems := elems + 1;
      ghost var was := list;
      list := was[..i + 1] + [e] + was[i + 1..];
      forall j | 0 <= j < |list| ensures LinkOK(list, this, j) {
        if j <= i { assert old(LinkOK(list, this, j)); }
        else if j > i + 1 { assert old(LinkOK(list, this, j - 1)); }
      }
    }

    method PushBack(e: Request)
      requires Valid() && e.IsFree()
      modifies this, e`next, e`prev, e`owner, {tail}`next
      ensures Valid() && list == old(list) + [e]
    {
      FreeIsElsewhere(e);
      if Empty() {
        head, tail := e, e;
        e.owner := this;
      } else {
        assert LinkOK(list, this, |list| - 1);
        e.LinkPrev(tail, this);
        tail := e;
      }
      elems := elems + 1;
      list := list + [e];
      forall i | 0 <= i < |list| ensures LinkOK(list, this, i) {
        if i < |list| - 1 { assert old(LinkOK(list, this, i)); }
      }
    }

    method PopFront() returns (e: Request?)
      requires Valid()
      modifies this, {head}`next, {head}`prev, {head}`owner, {if head == null then null else head.next}`prev
      ensures Valid() && e == old(head)
      ensures if old(list) == [] then list == [] else e.IsFree() && list == old(list)[1..]
    {
      e := head;
      if Empty() { return; }
      assert LinkOK(list, this, 0);
      assert |list| > 1 ==> LinkOK(list, this, 1);
      head := e.next;
      e.Unlink(this);
      if head == null { tail := null; }
      elems := elems - 1;
      list := list[1..];
      forall i | 0 <= i < |list| ensures LinkOK(list, this, i) {
        assert old(LinkOK(list, this, i + 1));
      }
    }

    method PopBack() returns (e: Request?)
      requires Valid()
      modifies this, {tail}`next, {tail}`prev, {tail}`owner, {if tail == null then null else tail.prev}`next
      ensures Valid() && e == old(tail)
      ensures if old(list) == [] then list == [] else e.IsFree() && list == old(list)[..|old(list)| - 1]
    {
      e := tail;
      if Empty() { return; }
      assert LinkOK(list, this, |list| - 1);
      assert |list| > 1 ==> LinkOK(list, this, |list| - 2);
      tail := e.prev;
      e.Unlink(this);
      if tail == null { head := null; }
      elems := elems - 1;
      list := list[..|list| - 1];
      forall i | 0 <= i < |list| ensures LinkOK(list, this, i) {
        assert old(LinkOK(list, this, i));
      }
    }

    method Remove(e: Request, ghost i: nat)
      requires Valid() && i < |list| && e == list[i]
      modifies this, e`next, e`prev, e`owner, {e.next}`prev, {e.prev}`next
      ensures Valid() && e.IsFree() && list == old(list)[..i] + old(list)[i + 1..]
    {
      assert LinkOK(list, this, i);
      if e == head { head := e.next; }
      if e == tail { tail := e.prev; }
      e.Unlink(this);
      elems := elems - 1;
      ghost var was := list;
      list := was[..i] + was[i + 1..];
      forall j | 0 <= j < |list| ensures LinkOK(list, this, j) {
        if j < i { assert old(LinkOK(list, this, j)); } else { assert old(LinkOK(list, this, j + 1)); }
      }
    }
  }
}
