// The simple queue of common/include/kafka/queue.h (SIMPLEQ_*, and STAILQ_*, which
// is the same code under other names), and the removal loop of SLIST_REMOVE.
//
// A "struct type **" holds the address of the only field of an entry or of the
// first field of the head, and is modelled by a reference to that object.
module SimpleQueue {

  class Link {
    var next: Link?   // sqh_first, sqe_next

    constructor ()
      ensures next == null
    {
      next := null;
    }
  }

  ghost predicate Distinct(s: seq<Link>) {
    forall i, j :: 0 <= i < j < |s| ==> s[i] != s[j]
  }

  ghost predicate Apart(s: seq<Link>, t: seq<Link>) {
    forall i, j :: 0 <= i < |s| && 0 <= j < |t| ==> s[i] != t[j]
  }

  // c[0] is the head, c[1..] are the elements.
  ghost predicate Linked(c: seq<Link>)
    reads c
  {
    && 0 < |c|
    && Distinct(c)
    && forall i {:trigger c[i].next} :: 0 <= i < |c| ==> c[i].next == if i + 1 < |c| then c[i + 1] else null
  }

  // Splicing elm in front of position p.
  lemma SplicedIsLinked(c: seq<Link>, p: nat, elm: Link)
    requires 0 < p <= |c| && Distinct(c) && elm !in c
    requires forall i {:trigger c[i].next} :: 0 <= i < |c| && i != p - 1 ==>
               c[i].next == if i + 1 < |c| then c[i + 1] else null
    requires c[p - 1].next == elm && elm.next == if p < |c| then c[p] else null
    ensures Linked(c[..p] + [elm] + c[p..])
  {
    var d := c[..p] + [elm] + c[p..];
    assert forall i {:trigger d[i]} :: 0 <= i < p ==> d[i] == c[i];
    assert forall i {:trigger d[i]} :: p < i < |d| ==> d[i] == c[i - 1];
    assert d[p] == elm;
  }

  // Unlinking position p.
  lemma CutIsLinked(c: seq<Link>, p: nat)
    requires 0 < p < |c| && Distinct(c)
    requires forall i {:trigger c[i].next} :: 0 <= i < |c| && i != p - 1 && i != p ==>
               c[i].next == if i + 1 < |c| then c[i + 1] else null
    requires c[p - 1].next == if p + 1 < |c| then c[p + 1] else null
    ensures Linked(c[..p] + c[p + 1..])
  {
    var d := c[..p] + c[p + 1..];
    assert forall i {:trigger d[i]} :: 0 <= i < p ==> d[i] == c[i];
    assert forall i {:trigger d[i]} :: p <= i < |d| ==> d[i] == c[i + 1];
  }

  // Hanging the elements of chain d behind those of c.
  lemma JoinedIsLinked(c: seq<Link>, d: seq<Link>)
    requires 0 < |c| && 1 < |d| && Distinct(c) && Distinct(d) && Apart(c, d)
    requires forall i {:trigger c[i].next} :: 0 <= i < |c| ==> c[i].next == if i + 1 < |c| then c[i + 1] else d[1]
    requires forall i {:trigger d[i].next} :: 0 < i < |d| ==> d[i].next == if i + 1 < |d| then d[i + 1] else null
    ensures Linked(c + d[1..])
  {
    var e := c + d[1..];
    assert forall i {:trigger e[i]} :: 0 <= i < |c| ==> e[i] == c[i];
    assert forall i {:trigger e[i]} :: |c| <= i < |e| ==> e[i] == d[i - |c| + 1];
  }

  class Queue {
    const head: Link
    var last: Link            // sqh_last
    ghost var chain: seq<Link>

    // The chain is linked, and sqh_last is the address of its final next field.
    ghost predicate Valid()
      reads this, chain
    {
      Linked(chain) && chain[0] == head && last == chain[|chain| - 1]
    }

    ghost function Elems(): (s: seq<Link>)
      requires 0 < |chain|
      reads this
    {
      chain[1..]
    }

    constructor ()
      ensures Valid() && Elems() == [] && fresh(head)
    {
      var h := new Link();
      head, last := h, h;
      chain := [h];
    }

    // SIMPLEQ_INIT: forgets the elements without touching them.
    method Init()
      modifies this, head
      ensures Valid() && Elems() == []
    {
      head.next := null;
      last := head;
      chain := [head];
    }

    method InsertHead(elm: Link)
      requires Valid() && elm !in chain
      modifies this, chain, elm
      ensures Valid() && Elems() == [elm] + old(Elems())
    {
      ghost var c := chain;
      elm.next := head.next;
      if elm.next == null {
        last := elm;
      }
      head.next := elm;
      SplicedIsLinked(c, 1, elm);
      chain := c[..1] + [elm] + c[1..];
    }

    method InsertTail(elm: Link)
      requires Valid() && elm !in chain
      modifies this, chain, elm
      ensures Valid() && Elems() == old(Elems()) + [elm]
    {
      ghost var c := chain;
      elm.next := null;
      last.next := elm;
      last := elm;
      SplicedIsLinked(c, |c|, elm);
      chain := c[..|c|] + [elm] + c[|c|..];
    }

    method InsertAfter(listelm: Link, elm: Link) returns (ghost k: nat)
      requires Valid() && listelm in Elems() && elm !in chain
      modifies this, chain, elm
      ensures Valid()
      ensures 0 < k < |old(chain)| && old(chain)[k] == listelm
      ensures chain == old(chain)[..k + 1] + [elm] + old(chain)[k + 1..]
    {
      ghost var c := chain;
      k :| 0 < k < |c| && c[k] == listelm;
      elm.next := listelm.next;
      if elm.next == null {
        last := elm;
      }
      listelm.next := elm;
      SplicedIsLinked(c, k + 1, elm);
      chain := c[..k + 1] + [elm] + c[k + 1..];
    }

    method RemoveHead()
      requires Valid() && Elems() != []
      modifies this, chain
      ensures Valid() && Elems() == old(Elems())[1..]
    {
      ghost var c := chain;
      head.next := head.next.next;
      if head.next == null {
        last := head;
      }
      CutIsLinked(c, 1);
      chain := c[..1] + c[2..];
    }

    method RemoveAfter(elm: Link) returns (ghost k: nat)
      requires Valid() && elm in Elems() && elm != Elems()[|Elems()| - 1]
      modifies this, chain
      ensures Valid()
      ensures 0 < k < |old(chain)| - 1 && old(chain)[k] == elm
      ensures chain == old(chain)[..k + 1] + old(chain)[k + 2..]
    {
      ghost var c := chain;
      k :| 0 < k < |c| && c[k] == elm;
      elm.next := elm.next.next;
      if elm.next == null {
        last := elm;
      }
      CutIsLinked(c, k + 1);
      chain := c[..k + 1] + c[k + 2..];
    }

    // SIMPLEQ_REMOVE: searches the predecessor, then unlinks.
    method Remove(elm: Link) returns (ghost k: nat)
      requires Valid() && elm in Elems()
      modifies this, chain
      ensures Valid()
      ensures 0 < k < |old(chain)| && old(chain)[k] == elm
      ensures chain == old(chain)[..k] + old(chain)[k + 1..]
    {
      ghost var c := chain;
      k :| 0 < k < |c| && c[k] == elm;
      if head.next == elm {
        RemoveHead();
      } else {
        var curelm := head.next;
        ghost var i := 1;
        while curelm.next != elm
          invariant 0 < i < k && curelm == c[i]
          decreases k - i
        {
          curelm := curelm.next;
          i := i + 1;
        }
        curelm.next := curelm.next.next;
        if curelm.next == null {
          last := curelm;
        }
        CutIsLinked(c, k);
        chain := c[..k] + c[k + 1..];
      }
    }

    // Moves all elements of `other` to the end of this queue.
    method Concat(other: Queue)
      requires Valid() && other.Valid() && other != this
      requires Apart(chain, other.chain)
      modifies this, chain, other, other.chain
      ensures Valid() && other.Valid()
      ensures Elems() == old(Elems()) + old(other.Elems())
      ensures other.Elems() == []
    {
      if other.head.next != null {
        ghost var c, d := chain, other.chain;
        assert other.head.next == d[1];
        last.next := other.head.next;
        last := other.last;
        JoinedIsLinked(c, d);
        chain := c + d[1..];
        assert Elems() == c[1..] + d[1..];
        other.Init();
      }
    }

    // SIMPLEQ_LAST: the object that holds the field sqh_last points at.
    function Last(): (r: Link?)
      requires Valid()
      reads this, chain
      ensures r == if Elems() == [] then null else Elems()[|Elems()| - 1]
    {
      assert head == chain[0];
      if head.next == null then null else last
    }
  }

  // SLIST_REMOVE on a list that has only a first pointer, held in head.next.
  method SListRemove(head: Link, elm: Link, ghost c: seq<Link>) returns (ghost k: nat)
    requires Linked(c) && c[0] == head && elm in c[1..]
    modifies c
    ensures 0 < k < |c| && c[k] == elm
    ensures Linked(c[..k] + c[k + 1..])
  {
    k :| 0 < k < |c| && c[k] == elm;
    if head.next == elm {
      head.next := head.next.next;
    } else {
      var curelm := head.next;
      ghost var i := 1;
      while curelm.next != elm
        invariant 0 < i < k && curelm == c[i]
        decreases k - i
      {
        curelm := curelm.next;
        i := i + 1;
      }
      curelm.next := curelm.next.next;
    }
    CutIsLinked(c, k);
  }
}
