// The tail queue of common/include/kafka/queue.h (TAILQ_*).
//
// struct { tqh_first, tqh_last } (the head) and struct { tqe_next, tqe_prev }
// (the entry of an element) have the same layout, and the source reads one as
// the other to walk backwards.  Both are therefore objects of one class, Link.
// A "struct type **" always holds the address of the FIRST field of such a
// struct, so it is modelled by a reference to that struct: `&(x)->tqe_next` is
// `x`, and `*p` is `p.next`.
module TailQueue {

  class Link {
    var next: Link?   // tqh_first, tqe_next
    var prev: Link?   // tqh_last,  tqe_prev

    constructor () {
      next, prev := null, null;
    }
  }

  ghost predicate Distinct(s: seq<Link>) {
    forall i, j :: 0 <= i < j < |s| ==> s[i] != s[j]
  }

  ghost predicate Apart(s: seq<Link>, t: seq<Link>) {
    forall i, j :: 0 <= i < |s| && 0 <= j < |t| ==> s[i] != t[j]
  }

  // c[0] is the head, c[1..] are the elements, in order.
  ghost predicate Linked(c: seq<Link>)
    reads c
  {
    && 0 < |c|
    && Distinct(c)
    && (forall i {:trigger c[i].next} :: 0 <= i < |c| ==> c[i].next == if i + 1 < |c| then c[i + 1] else null)
    && (forall i {:trigger c[i].prev} :: 0 < i < |c| ==> c[i].prev == c[i - 1])
    && c[0].prev == c[|c| - 1]
  }

  // The links alone decide which elements a queue has, and in which order.
  lemma LinksDetermineElements(c: seq<Link>, d: seq<Link>)
    requires Linked(c) && Linked(d) && c[0] == d[0]
    ensures c == d
  {
    SamePrefix(c, d, if |c| < |d| then |c| else |d|);
    var n := if |c| < |d| then |c| else |d|;
    assert c[n - 1] == c[..n][n - 1] == d[..n][n - 1] == d[n - 1];
  }

  lemma {:induction false} SamePrefix(c: seq<Link>, d: seq<Link>, n: nat)
    requires Linked(c) && Linked(d) && c[0] == d[0]
    requires n <= |c| && n <= |d|
    ensures c[..n] == d[..n]
  {
    if n == 0 {
    } else {
      SamePrefix(c, d, n - 1);
      if n > 1 {
        assert c[n - 2] == c[..n - 1][n - 2] == d[..n - 1][n - 2] == d[n - 2];
        assert c[n - 2].next == c[n - 1] && d[n - 2].next == d[n - 1];
      }
      assert c[..n] == c[..n - 1] + [c[n - 1]];
      assert d[..n] == d[..n - 1] + [d[n - 1]];
    }
  }

  ghost function Reversed(s: seq<Link>): (r: seq<Link>)
    ensures |r| == |s|
    ensures forall k :: 0 <= k < |s| ==> r[k] == s[|s| - 1 - k]
  {
    seq(|s|, k requires 0 <= k < |s| => s[|s| - 1 - k])
  }

  // The links once elm has been spliced in front of position p of the chain c.
  ghost predicate SplicedIn(c: seq<Link>, p: nat, elm: Link)
    requires 0 < p <= |c|
    reads c, elm
  {
    && (forall i {:trigger c[i].next} :: 0 <= i < |c| && i != p - 1 ==>
          c[i].next == if i + 1 < |c| then c[i + 1] else null)
    && (forall i {:trigger c[i].prev} :: 0 < i < |c| && i != p ==> c[i].prev == c[i - 1])
    && c[p - 1].next == elm && elm.prev == c[p - 1]
    && (if p < |c| then elm.next == c[p] && c[p].prev == elm && c[0].prev == c[|c| - 1]
        else elm.next == null && c[0].prev == elm)
  }

  lemma SplicedIsLinked(c: seq<Link>, p: nat, elm: Link)
    requires 0 < p <= |c| && Distinct(c) && elm !in c && SplicedIn(c, p, elm)
    ensures Linked(c[..p] + [elm] + c[p..])
  {
    var d := c[..p] + [elm] + c[p..];
    assert forall i {:trigger d[i]} :: 0 <= i < p ==> d[i] == c[i];
    assert forall i {:trigger d[i]} :: p < i < |d| ==> d[i] == c[i - 1];
    assert d[p] == elm;
  }

  // The links once position p of the chain c has been unlinked.
  ghost predicate CutOut(c: seq<Link>, p: nat)
    requires 0 < p < |c|
    reads c
  {
    && (forall i {:trigger c[i].next} :: 0 <= i < |c| && i != p - 1 && i != p ==>
          c[i].next == if i + 1 < |c| then c[i + 1] else null)
    && (forall i {:trigger c[i].prev} :: 0 < i < |c| && i != p + 1 ==> c[i].prev == c[i - 1])
    && (if p + 1 < |c| then c[p - 1].next == c[p + 1] && c[p + 1].prev == c[p - 1] && c[0].prev == c[|c| - 1]
        else c[p - 1].next == null && c[0].prev == c[p - 1])
  }

  lemma CutIsLinked(c: seq<Link>, p: nat)
    requires 0 < p < |c| && Distinct(c) && CutOut(c, p)
    ensures Linked(c[..p] + c[p + 1..])
  {
    var d := c[..p] + c[p + 1..];
    assert forall i {:trigger d[i]} :: 0 <= i < p ==> d[i] == c[i];
    assert forall i {:trigger d[i]} :: p <= i < |d| ==> d[i] == c[i + 1];
  }

  // The links once the elements of chain d have been hung behind those of c.
  ghost predicate Joined(c: seq<Link>, d: seq<Link>)
    requires 0 < |c| && 1 < |d|
    reads c, d
  {
    && (forall i {:trigger c[i].next} :: 0 <= i < |c| ==> c[i].next == if i + 1 < |c| then c[i + 1] else d[1])
    && (forall i {:trigger c[i].prev} :: 0 < i < |c| ==> c[i].prev == c[i - 1])
    && (forall i {:trigger d[i].next} :: 0 < i < |d| ==> d[i].next == if i + 1 < |d| then d[i + 1] else null)
    && (forall i {:trigger d[i].prev} :: 1 < i < |d| ==> d[i].prev == d[i - 1])
    && d[1].prev == c[|c| - 1] && c[0].prev == d[|d| - 1]
  }

  lemma JoinedIsLinked(c: seq<Link>, d: seq<Link>)
    requires 0 < |c| && 1 < |d| && Distinct(c) && Distinct(d) && Joined(c, d)
    requires Apart(c, d)
    ensures Linked(c + d[1..])
  {
    var e := c + d[1..];
    assert forall i {:trigger e[i]} :: 0 <= i < |c| ==> e[i] == c[i];
    assert forall i {:trigger e[i]} :: |c| <= i < |e| ==> e[i] == d[i - |c| + 1];
  }

  lemma HeadIsApart(c: seq<Link>, d: seq<Link>)
    requires 0 < |d| && Distinct(d) && Apart(c, d)
    ensures d[0] !in c + d[1..]
  {
  }

  lemma DropFirst(c: seq<Link>, d: seq<Link>)
    requires 0 < |c|
    ensures (c + d)[1..] == c[1..] + d
  {
  }

  lemma SliceSnoc(c: seq<Link>, i: nat)
    requires 0 < i < |c|
    ensures c[1..i + 1] == c[1..i] + [c[i]]
  {
  }

  lemma ReversedCons(c: seq<Link>, i: nat)
    requires i < |c|
    ensures Reversed(c[i..]) == Reversed(c[i + 1..]) + [c[i]]
  {
  }

  // s with the members of `doomed` left out.
  ghost function Without(s: seq<Link>, doomed: set<Link>): (r: seq<Link>)
    ensures forall y :: y in r ==> y in s && y !in doomed
    ensures forall i :: 0 <= i < |s| && s[i] !in doomed ==> s[i] in r
  {
    if s == [] then [] else (if s[0] in doomed then [] else [s[0]]) + Without(s[1..], doomed)
  }

  // r is what s has outside `doomed`, in order: position k of r is position at[k] of s.
  ghost predicate IsFilter(s: seq<Link>, doomed: set<Link>, r: seq<Link>, at: seq<nat>) {
    && |at| == |r|
    && (forall k :: 0 <= k < |at| ==> at[k] < |s| && r[k] == s[at[k]] && s[at[k]] !in doomed)
    && (forall j, k :: 0 <= j < k < |at| ==> at[j] < at[k])
    && (forall i :: 0 <= i < |s| && s[i] !in doomed ==> i in at)
  }

  lemma {:induction false} WithoutIsFilter(s: seq<Link>, doomed: set<Link>) returns (at: seq<nat>)
    ensures IsFilter(s, doomed, Without(s, doomed), at)
  {
    hide Without, IsFilter;
    if s == [] {
      at := [];
      NothingToFilter(doomed);
    } else {
      var n := |s| - 1;
      var init, x := s[..n], s[n];
      assert s == init + [x];
      at := WithoutIsFilter(init, doomed);
      FilterOneMore(init, x, doomed, Without(init, doomed), at);
      WithoutAppend(init, [x], doomed);
      WithoutOne(x, doomed);
      at := if x in doomed then at else at + [n];
    }
  }

  lemma NothingToFilter(doomed: set<Link>)
    ensures IsFilter([], doomed, Without([], doomed), [])
  {
  }

  lemma WithoutOne(x: Link, doomed: set<Link>)
    ensures Without([x], doomed) == if x in doomed then [] else [x]
  {
  }

  lemma FilterOneMore(s: seq<Link>, x: Link, doomed: set<Link>, r: seq<Link>, at: seq<nat>)
    requires IsFilter(s, doomed, r, at)
    ensures x in doomed ==> IsFilter(s + [x], doomed, r + [], at)
    ensures x !in doomed ==> IsFilter(s + [x], doomed, r + [x], at + [|s|])
  {
    assert r + [] == r;
    var b := at + [|s|];
    assert forall i :: 0 <= i < |at| ==> b[i] == at[i];
    assert b[|at|] == |s|;
  }

  lemma {:induction false} WithoutAppend(s: seq<Link>, t: seq<Link>, doomed: set<Link>)
    ensures Without(s + t, doomed) == Without(s, doomed) + Without(t, doomed)
  {
    if s == [] {
      assert s + t == t;
    } else {
      assert (s + t)[1..] == s[1..] + t;
      WithoutAppend(s[1..], t, doomed);
    }
  }

  // A chain whose positions lo..hi have been swept.
  ghost function Swept(c: seq<Link>, lo: nat, hi: nat, doomed: set<Link>): seq<Link>
    requires lo <= hi <= |c|
  {
    c[..lo] + Without(c[lo..hi], doomed) + c[hi..]
  }

  lemma SweptWithin(c: seq<Link>, lo: nat, hi: nat, doomed: set<Link>)
    requires lo <= hi <= |c|
    ensures var s := Swept(c, lo, hi, doomed); forall k {:trigger s[k]} :: 0 <= k < |s| ==> s[k] in c
  {
    var s := Swept(c, lo, hi, doomed);
    assert forall y :: y in s ==> y in c;
  }

  lemma SweptAll(c: seq<Link>, doomed: set<Link>)
    requires 0 < |c|
    ensures Swept(c, 1, |c|, doomed)[1..] == Without(c[1..], doomed)
  {
    assert c[1..|c|] == c[1..];
  }

  // One more position swept, at the end or at the front of the swept stretch.
  lemma SweepNext(c: seq<Link>, i: nat, doomed: set<Link>) returns (before: seq<Link>)
    requires 0 < i < |c|
    ensures Swept(c, 1, i, doomed) == before + [c[i]] + c[i + 1..]
    ensures Swept(c, 1, i + 1, doomed) == before + Without([c[i]], doomed) + c[i + 1..]
    ensures |before| > 0
  {
    hide Without;
    before := c[..1] + Without(c[1..i], doomed);
    WithoutAppend(c[1..i], [c[i]], doomed);
    assert c[1..i] + [c[i]] == c[1..i + 1];
    assert c[i..] == [c[i]] + c[i + 1..];
  }

  lemma SweepPrevious(c: seq<Link>, i: nat, doomed: set<Link>) returns (before: seq<Link>)
    requires 0 < i < |c|
    ensures before == c[..i]
    ensures Swept(c, i + 1, |c|, doomed) == before + [c[i]] + Without(c[i + 1..], doomed)
    ensures Swept(c, i, |c|, doomed) == before + Without([c[i]], doomed) + Without(c[i + 1..], doomed)
  {
    hide Without;
    before := c[..i];
    SweptFrom(c, i + 1, doomed);
    SweptFrom(c, i, doomed);
    assert c[..i + 1] == c[..i] + [c[i]];
    assert [c[i]] + c[i + 1..] == c[i..];
    WithoutAppend([c[i]], c[i + 1..], doomed);
  }

  lemma SweptFrom(c: seq<Link>, i: nat, doomed: set<Link>)
    requires i <= |c|
    ensures Swept(c, i, |c|, doomed) == c[..i] + Without(c[i..], doomed)
  {
    hide Without;
    assert c[i..|c|] == c[i..] && c[|c|..] == [];
  }

  class Queue {
    const head: Link
    ghost var chain: seq<Link>

    ghost predicate Valid()
      reads this, chain
    {
      Linked(chain) && chain[0] == head
    }

    ghost function Elems(): (s: seq<Link>)
      requires 0 < |chain|
      reads this
    {
      chain[1..]
    }

    // TAILQ_INIT on a fresh head.
    constructor ()
      ensures Valid() && Elems() == [] && fresh(head)
    {
      head := new Link();
      new;
      head.next := null;
      head.prev := head;
      chain := [head];
    }

    // TAILQ_INIT: forgets the elements without touching them.
    method Init()
      modifies this, head
      ensures Valid() && Elems() == []
    {
      head.next := null;
      head.prev := head;
      chain := [head];
    }

    method InsertHead(elm: Link)
      requires Valid() && elm !in chain
      modifies this, chain, elm
      ensures Valid() && Elems() == [elm] + old(Elems())
    {
      ghost var c := chain;
      elm.next := head.next;
      if elm.next != null {
        head.next.prev := elm;
      } else {
        head.prev := elm;
      }
      head.next := elm;
      elm.prev := head;
      SplicedIsLinked(c, 1, elm);
      chain := c[..1] + [elm] + c[1..];
      hide Linked, Distinct;
    }

    method InsertTail(elm: Link)
      requires Valid() && elm !in chain
      modifies this, chain, elm
      ensures Valid() && Elems() == old(Elems()) + [elm]
    {
      ghost var c := chain;
      elm.next := null;
      elm.prev := head.prev;
      head.prev.next := elm;
      head.prev := elm;
      SplicedIsLinked(c, |c|, elm);
      chain := c[..|c|] + [elm] + c[|c|..];
      hide Linked, Distinct;
    }

    method InsertAfter(listelm: Link, elm: Link) returns (ghost k: nat)
      requires Valid() && listelm in Elems() && elm !in chain
      modifies this, chain, elm
      ensures Valid()
      ensures 0 < k < |old(chain)| && old(chain)[k] == listelm
      ensures chain == old(chain)[..k + 1] + [elm] + old(chain)[k + 1..]
    {
      ghost var c := chain;
      k :| 0 < k < |c| && c[k] == listelm;
      elm.next := listelm.next;
      if elm.next != null {
        elm.next.prev := elm;
      } else {
        head.prev := elm;
      }
      listelm.next := elm;
      elm.prev := listelm;
      SplicedIsLinked(c, k + 1, elm);
      chain := c[..k + 1] + [elm] + c[k + 1..];
      hide Linked, Distinct;
    }

    method InsertBefore(listelm: Link, elm: Link) returns (ghost k: nat)
      requires Valid() && listelm in Elems() && elm !in chain
      modifies this, chain, elm
      ensures Valid()
      ensures 0 < k < |old(chain)| && old(chain)[k] == listelm
      ensures chain == old(chain)[..k] + [elm] + old(chain)[k..]
    {
      ghost var c := chain;
      k :| 0 < k < |c| && c[k] == listelm;
      elm.prev := listelm.prev;
      elm.next := listelm;
      listelm.prev.next := elm;
      listelm.prev := elm;
      SplicedIsLinked(c, k, elm);
      chain := c[..k] + [elm] + c[k..];
      hide Linked, Distinct;
    }

    // The removed entry keeps its own two fields.
    method Remove(elm: Link) returns (ghost k: nat)
      requires Valid() && elm in Elems()
      modifies this, chain
      ensures Valid()
      ensures 0 < k < |old(chain)| && old(chain)[k] == elm
      ensures chain == old(chain)[..k] + old(chain)[k + 1..]
      ensures elm.next == old(elm.next) && elm.prev == old(elm.prev)
    {
      ghost var c := chain;
      k :| 0 < k < |c| && c[k] == elm;
      assert elm.prev == c[k - 1] && c[k - 1] != elm;
      assert k + 1 < |c| ==> elm.next == c[k + 1] && c[k + 1] != elm;
      if elm.next != null {
        elm.next.prev := elm.prev;
      } else {
        head.prev := elm.prev;
      }
      elm.prev.next := elm.next;
      assert CutOut(c, k);
      CutIsLinked(c, k);
      chain := c[..k] + c[k + 1..];
    }

    method Replace(elm: Link, elm2: Link) returns (ghost k: nat)
      requires Valid() && elm in Elems() && elm2 !in chain
      modifies this, chain, elm2
      ensures Valid()
      ensures 0 < k < |old(chain)| && old(chain)[k] == elm
      ensures chain == old(chain)[k := elm2]
      ensures elm.next == old(elm.next) && elm.prev == old(elm.prev)
    {
      ghost var c := chain;
      k :| 0 < k < |c| && c[k] == elm;
      assert elm.prev == c[k - 1] && c[k - 1] != elm;
      assert k + 1 < |c| ==> elm.next == c[k + 1] && c[k + 1] != elm;
      elm2.next := elm.next;
      if elm2.next != null {
        elm2.next.prev := elm2;
      } else {
        head.prev := elm2;
      }
      elm2.prev := elm.prev;
      elm2.prev.next := elm2;
      chain := c[k := elm2];
    }

    // Moves all elements of `other` to the end of this queue.
    method Concat(other: Queue)
      requires Valid() && other.Valid() && other != this
      requires Apart(chain, other.chain)
      modifies this, chain, other, other.chain
      ensures Valid() && other.Valid()
      ensures Elems() == old(Elems()) + old(other.Elems())
      ensures other.Elems() == []
    {
      if other.head.next != null {
        ghost var c, d := chain, other.chain;
        assert other.head.next == d[1];
        head.prev.next := other.head.next;
        other.head.next.prev := head.prev;
        head.prev := other.head.prev;
        JoinedIsLinked(c, d);
        HeadIsApart(c, d);
        DropFirst(c, d[1..]);
        chain := c + d[1..];
        hide Linked, Joined, Distinct, Apart;
        other.Init();
      }
    }

    function First(): (r: Link?)
      requires Valid()
      reads this, chain
      ensures r == if Elems() == [] then null else Elems()[0]
    {
      assert head == chain[0];
      head.next
    }

    // TAILQ_LAST: the entry that tqh_last points into, read as a head.
    function Last(): (r: Link?)
      requires Valid()
      reads this, chain
      ensures r == if Elems() == [] then null else Elems()[|Elems()| - 1]
    {
      assert head == chain[0];
      head.prev.prev.next
    }

    // TAILQ_PREV: the struct that tqe_prev points into, read as a head.
    function Prev(elm: Link): (r: Link?)
      requires Valid() && elm in Elems()
      reads this, chain
      ensures forall k :: 0 <= k < |Elems()| && Elems()[k] == elm ==>
                r == if k == 0 then null else Elems()[k - 1]
    {
      assert forall k :: 0 <= k < |Elems()| ==> Elems()[k] == chain[k + 1];
      elm.prev.prev.next
    }

    // TAILQ_FOREACH
    method ForEach() returns (visited: seq<Link>)
      requires Valid()
      ensures visited == Elems()
    {
      visited := [];
      var x := head.next;
      ghost var i := 1;
      while x != null
        invariant 1 <= i <= |chain|
        invariant x == if i < |chain| then chain[i] else null
        invariant visited == chain[1..i]
        decreases |chain| - i
      {
        visited := visited + [x];
        x := x.next;
        i := i + 1;
      }
    }

    // TAILQ_FOREACH_REVERSE
    method ForEachReverse() returns (visited: seq<Link>)
      requires Valid()
      ensures visited == Reversed(Elems())
    {
      visited := [];
      var x := head.prev.prev.next;
      ghost var i := |chain| - 1;
      while x != null
        invariant 0 <= i < |chain|
        invariant x == if 0 < i then chain[i] else null
        invariant visited == Reversed(chain[i + 1..])
        decreases i
      {
        visited := visited + [x];
        x := x.prev.prev.next;
        i := i - 1;
      }
    }

    // A loop body that may take its element out of the queue.
    method RemoveIf(x: Link, doomed: set<Link>, ghost before: seq<Link>, ghost after: seq<Link>)
      requires Valid() && before != [] && chain == before + [x] + after
      modifies this, chain
      ensures Valid() && chain == before + Without([x], doomed) + after
    {
      assert x == chain[|before|];
      assert x in Elems() by { assert x == Elems()[|before| - 1]; }
      if x in doomed {
        ghost var k := Remove(x);
        assert k == |before|;
      }
    }

    // One round of TAILQ_FOREACH_SAFE with that body, at position i of the original chain c.
    method StepSafe(x: Link, doomed: set<Link>, ghost c: seq<Link>, ghost i: nat) returns (next: Link?)
      requires Valid() && 0 < i < |c| && x == c[i] && chain == Swept(c, 1, i, doomed)
      modifies this, c
      ensures Valid() && chain == Swept(c, 1, i + 1, doomed)
      ensures next == if i + 1 < |c| then c[i + 1] else null
    {
      ghost var before := SweepNext(c, i, doomed);
      assert chain[|before|] == x && (i + 1 < |c| ==> chain[|before| + 1] == c[i + 1]);
      next := x.next;
      SweptWithin(c, 1, i, doomed);
      RemoveIf(x, doomed, before, c[i + 1..]);
    }

    // TAILQ_FOREACH_SAFE with that body.
    method ForEachSafe(doomed: set<Link>) returns (visited: seq<Link>)
      requires Valid()
      modifies this, chain
      ensures Valid()
      ensures visited == old(Elems())
      ensures Elems() == Without(old(Elems()), doomed)
      ensures forall y :: y in Elems() <==> y in old(Elems()) && y !in doomed
    {
      visited := [];
      var x := First();
      ghost var c, i := chain, 1;
      while x != null
        invariant Valid() && 1 <= i <= |c| && chain == Swept(c, 1, i, doomed)
        invariant visited == c[1..i]
        invariant x == if i < |c| then c[i] else null
        decreases |c| - i
      {
        var y: Link := x;
        var next := StepSafe(y, doomed, c, i);
        SliceSnoc(c, i);
        visited := visited + [y];
        x, i := next, i + 1;
      }
      SweptAll(c, doomed);
    }

    // One round of TAILQ_FOREACH_REVERSE_SAFE with that body.
    method StepReverseSafe(x: Link, doomed: set<Link>, ghost c: seq<Link>, ghost i: nat) returns (prev: Link?)
      requires Valid() && 0 < i < |c| && x == c[i] && chain == Swept(c, i + 1, |c|, doomed)
      modifies this, c
      ensures Valid() && chain == Swept(c, i, |c|, doomed)
      ensures prev == if 1 < i then c[i - 1] else null
    {
      ghost var before := SweepPrevious(c, i, doomed);
      assert Elems()[i - 1] == x && (1 < i ==> Elems()[i - 2] == c[i - 1]);
      prev := Prev(x);
      SweptWithin(c, i + 1, |c|, doomed);
      RemoveIf(x, doomed, before, Without(c[i + 1..], doomed));
    }

    // TAILQ_FOREACH_REVERSE_SAFE with that body.
    method ForEachReverseSafe(doomed: set<Link>) returns (visited: seq<Link>)
      requires Valid()
      modifies this, chain
      ensures Valid()
      ensures visited == Reversed(old(Elems()))
      ensures Elems() == Without(old(Elems()), doomed)
      ensures forall y :: y in Elems() <==> y in old(Elems()) && y !in doomed
    {
      visited := [];
      var x := Last();
      ghost var c, i := chain, |chain| - 1;
      while x != null
        invariant Valid() && 0 <= i < |c| && chain == Swept(c, i + 1, |c|, doomed)
        invariant visited == Reversed(c[i + 1..])
        invariant x == if 0 < i then c[i] else null
        decreases i
      {
        var y: Link := x;
        var prev := StepReverseSafe(y, doomed, c, i);
        ReversedCons(c, i);
        visited := visited + [y];
        x, i := prev, i - 1;
      }
      SweptAll(c, doomed);
    }
  }
}
