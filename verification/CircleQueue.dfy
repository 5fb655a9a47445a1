// The circular queue of common/include/kafka/queue.h (CIRCLEQ_*).
//
// The end of the list is marked by the address of the head, compared with
// element addresses: head and elements are objects of one class, and the head
// takes part in no link of its own kind other than as that mark.
module CircleQueue {
  import opened Arithmetic

  class Link {
    var next: Link   // cqh_first, cqe_next
    var prev: Link   // cqh_last,  cqe_prev

    constructor ()
      ensures next == this && prev == this
    {
      next, prev := this, this;
    }
  }

  ghost predicate Distinct(s: seq<Link>) {
    forall i, j :: 0 <= i < j < |s| ==> s[i] != s[j]
  }

  // c[0] is the head, c[1..] are the elements; the chain closes on itself both ways.
  ghost predicate Circular(c: seq<Link>)
    reads c
  {
    && 0 < |c|
    && Distinct(c)
    && (forall i {:trigger c[i].next} :: 0 <= i < |c| ==> c[i].next == if i + 1 < |c| then c[i + 1] else c[0])
    && (forall i {:trigger c[i].prev} :: 0 <= i < |c| ==> c[i].prev == if 0 < i then c[i - 1] else c[|c| - 1])
  }

  // The links once elm has been spliced in front of position p of the chain c.
  ghost predicate SplicedIn(c: seq<Link>, p: nat, elm: Link)
    requires 0 < p <= |c|
    reads c, elm
  {
    && (forall i {:trigger c[i].next} :: 0 <= i < |c| && i != p - 1 ==>
          c[i].next == if i + 1 < |c| then c[i + 1] else c[0])
    && (forall i {:trigger c[i].prev} :: 0 <= i < |c| && i != (if p < |c| then p else 0) ==>
          c[i].prev == if 0 < i then c[i - 1] else c[|c| - 1])
    && c[p - 1].next == elm && elm.prev == c[p - 1]
    && (if p < |c| then elm.next == c[p] && c[p].prev == elm else elm.next == c[0] && c[0].prev == elm)
  }

  lemma SplicedIsCircular(c: seq<Link>, p: nat, elm: Link)
    requires 0 < p <= |c| && Distinct(c) && elm !in c && SplicedIn(c, p, elm)
    ensures Circular(c[..p] + [elm] + c[p..])
  {
    var d := c[..p] + [elm] + c[p..];
    assert forall i {:trigger d[i]} :: 0 <= i < p ==> d[i] == c[i];
    assert forall i {:trigger d[i]} :: p < i < |d| ==> d[i] == c[i - 1];
    assert d[p] == elm;
  }

  // The links once position p of the chain c has been unlinked.
  ghost predicate CutOut(c: seq<Link>, p: nat)
    requires 0 < p < |c|
    reads c
  {
    && (forall i {:trigger c[i].next} :: 0 <= i < |c| && i != p - 1 && i != p ==>
          c[i].next == if i + 1 < |c| then c[i + 1] else c[0])
    && (forall i {:trigger c[i].prev} :: 0 <= i < |c| && i != p && i != (if p + 1 < |c| then p + 1 else 0) ==>
          c[i].prev == if 0 < i then c[i - 1] else c[|c| - 1])
    && (if p + 1 < |c| then c[p - 1].next == c[p + 1] && c[p + 1].prev == c[p - 1]
        else c[p - 1].next == c[0] && c[0].prev == c[p - 1])
  }

  lemma CutIsCircular(c: seq<Link>, p: nat)
    requires 0 < p < |c| && Distinct(c) && CutOut(c, p)
    ensures Circular(c[..p] + c[p + 1..])
  {
    var d := c[..p] + c[p + 1..];
    assert forall i {:trigger d[i]} :: 0 <= i < p ==> d[i] == c[i];
    assert forall i {:trigger d[i]} :: p <= i < |d| ==> d[i] == c[i + 1];
  }

  class Queue {
    const head: Link
    ghost var chain: seq<Link>

    ghost predicate Valid()
      reads this, chain
    {
      Circular(chain) && chain[0] == head
    }

    ghost function Elems(): (s: seq<Link>)
      requires 0 < |chain|
      reads this
    {
      chain[1..]
    }

    // CIRCLEQ_INIT
    constructor ()
      ensures Valid() && Elems() == [] && fresh(head)
    {
      head := new Link();
      new;
      chain := [head];
    }

    method InsertAfter(listelm: Link, elm: Link) returns (ghost k: nat)
      requires Valid() && listelm in Elems() && elm !in chain
      modifies this, chain, elm
      ensures Valid()
      ensures 0 < k < |old(chain)| && old(chain)[k] == listelm
      ensures chain == old(chain)[..k + 1] + [elm] + old(chain)[k + 1..]
    {
      ghost var c := chain;
      k :| 0 < k < |c| && c[k] == listelm;
      assert listelm.next == if k + 1 < |c| then c[k + 1] else head;
      elm.next := listelm.next;
      elm.prev := listelm;
      if listelm.next == head {
        head.prev := elm;
      } else {
        listelm.next.prev := elm;
      }
      listelm.next := elm;
      SplicedIsCircular(c, k + 1, elm);
      chain := c[..k + 1] + [elm] + c[k + 1..];
      hide Circular, Distinct;
    }

    method InsertBefore(listelm: Link, elm: Link) returns (ghost k: nat)
      requires Valid() && listelm in Elems() && elm !in chain
      modifies this, chain, elm
      ensures Valid()
      ensures 0 < k < |old(chain)| && old(chain)[k] == listelm
      ensures chain == old(chain)[..k] + [elm] + old(chain)[k..]
    {
      ghost var c := chain;
      k :| 0 < k < |c| && c[k] == listelm;
      elm.next := listelm;
      elm.prev := listelm.prev;
      if listelm.prev == head {
        head.next := elm;
      } else {
        listelm.prev.next := elm;
      }
      listelm.prev := elm;
      SplicedIsCircular(c, k, elm);
      chain := c[..k] + [elm] + c[k..];
      hide Circular, Distinct;
    }

    method InsertHead(elm: Link)
      requires Valid() && elm !in chain
      modifies this, chain, elm
      ensures Valid() && Elems() == [elm] + old(Elems())
    {
      ghost var c := chain;
      elm.next := head.next;
      elm.prev := head;
      if head.prev == head {
        head.prev := elm;
      } else {
        head.next.prev := elm;
      }
      head.next := elm;
      SplicedIsCircular(c, 1, elm);
      chain := c[..1] + [elm] + c[1..];
      hide Circular, Distinct;
    }

    method InsertTail(elm: Link)
      requires Valid() && elm !in chain
      modifies this, chain, elm
      ensures Valid() && Elems() == old(Elems()) + [elm]
    {
      ghost var c := chain;
      elm.next := head;
      elm.prev := head.prev;
      if head.next == head {
        head.next := elm;
      } else {
        head.prev.next := elm;
      }
      head.prev := elm;
      SplicedIsCircular(c, |c|, elm);
      chain := c[..|c|] + [elm] + c[|c|..];
      hide Circular, Distinct;
    }

    method Remove(elm: Link) returns (ghost k: nat)
      requires Valid() && elm in Elems()
      modifies this, chain
      ensures Valid()
      ensures 0 < k < |old(chain)| && old(chain)[k] == elm
      ensures chain == old(chain)[..k] + old(chain)[k + 1..]
    {
      ghost var c := chain;
      k :| 0 < k < |c| && c[k] == elm;
      assert elm.prev == c[k - 1] && c[k - 1] != elm;
      assert elm.next == (if k + 1 < |c| then c[k + 1] else c[0]) && elm.next != elm;
      if elm.next == head {
        head.prev := elm.prev;
      } else {
        elm.next.prev := elm.prev;
      }
      if elm.prev == head {
        head.next := elm.next;
      } else {
        elm.prev.next := elm.next;
      }
      assert CutOut(c, k);
      CutIsCircular(c, k);
      chain := c[..k] + c[k + 1..];
    }

    // CIRCLEQ_LOOP_NEXT: the next element, skipping the head.
    function LoopNext(elm: Link): Link
      reads this, elm, head
    {
      if elm.next == head then head.next else elm.next
    }

    // CIRCLEQ_LOOP_PREV
    function LoopPrev(elm: Link): Link
      reads this, elm, head
    {
      if elm.prev == head then head.prev else elm.prev
    }

    lemma LoopStep(i: nat)
      requires Valid() && i < |Elems()|
      ensures LoopNext(Elems()[i]) == Elems()[(i + 1) % |Elems()|]
      ensures LoopPrev(Elems()[i]) == Elems()[(i + |Elems()| - 1) % |Elems()|]
    {
      var n := |Elems()|;
      assert chain[i + 1] == Elems()[i];
      Wrap(i + 1, n);
      Wrap(i + n - 1, n);
    }

    // LOOP_PREV undoes LOOP_NEXT, and the other way round.
    lemma LoopPrevUndoesLoopNext(i: nat)
      requires Valid() && i < |Elems()|
      ensures LoopPrev(LoopNext(Elems()[i])) == Elems()[i]
      ensures LoopNext(LoopPrev(Elems()[i])) == Elems()[i]
    {
      var n := |Elems()|;
      Wrap(i + 1, n);
      Wrap(i + n - 1, n);
      Wrap((i + 1) % n + n - 1, n);
      Wrap((i + n - 1) % n + 1, n);
      LoopStep(i);
      LoopStep((i + 1) % n);
      LoopStep((i + n - 1) % n);
    }

    // Where k rounds of LOOP_NEXT lead from the element at position i.
    ghost function Loop(i: nat, k: nat): (r: Link)
      requires Valid() && i < |Elems()|
      reads this, chain
      ensures r == Elems()[(i + k) % |Elems()|]
    {
      var n := |Elems()|;
      if k == 0 then Wrap(i, n); Elems()[i]
      else
        var x := Loop(i, k - 1);
        LoopStep((i + k - 1) % n);
        SuccMod(i + k - 1, n);
        Wrap((i + k - 1) % n + 1, n);
        LoopNext(x)
    }

    // From any element, the first n rounds visit no element twice ...
    lemma LoopIsInjective(i: nat, a: nat, b: nat)
      requires Valid() && i < |Elems()| && a < b < |Elems()|
      ensures Loop(i, a) != Loop(i, b)
    {
      Wrap(i + a, |Elems()|);
      Wrap(i + b, |Elems()|);
    }

    // ... leave no element out ...
    lemma LoopReaches(i: nat, x: Link) returns (k: nat)
      requires Valid() && i < |Elems()| && x in Elems()
      ensures k < |Elems()| && Loop(i, k) == x
    {
      var j :| 0 <= j < |Elems()| && Elems()[j] == x;
      k := if i <= j then j - i else j + |Elems()| - i;
      Wrap(i + k, |Elems()|);
    }

    // ... and end where they began.
    lemma LoopReturns(i: nat)
      requires Valid() && i < |Elems()|
      ensures Loop(i, |Elems()|) == Elems()[i]
    {
      Wrap(i + |Elems()|, |Elems()|);
    }
  }
}
