// rd_sockaddr_list_next of common/include/kafka/rdaddr.h: round-robin over addresses.
module RoundRobin {
  import opened Arithmetic

  class AddrList {
    const cnt: nat
    var curr: nat

    ghost predicate Valid()
      reads this
    {
      curr < cnt
    }

    constructor (cnt: nat)
      requires 0 < cnt
      ensures Valid() && this.cnt == cnt && curr == 0
    {
      this.cnt := cnt;
      curr := 0;
    }

    // The index of the next address.
    method Next() returns (i: nat)
      requires Valid()
      modifies this
      ensures Valid() && i == curr == Call(old(curr), cnt, 0)
      ensures i == if old(curr) + 1 < cnt then old(curr) + 1 else 0
    {
      Wrap(curr + 1, cnt);
      curr := (curr + 1) % cnt;
      i := curr;
    }

    // Any number of calls: each returns the address behind the one before, cyclically; any
    // cnt results in a row hold every address exactly once; and no address comes up two
    // times more than another.
    method Take(n: nat) returns (got: seq<nat>)
      requires Valid()
      modifies this
      ensures Valid() && |got| == n
      ensures 0 < n ==> got[0] == (old(curr) + 1) % cnt
      ensures forall k :: 0 < k < n ==> got[k] == (got[k - 1] + 1) % cnt
      ensures forall a :: 0 <= a && a + cnt <= n ==> EachOnceFrom(got, a, cnt)
      ensures forall i, j :: 0 <= i < cnt && 0 <= j < cnt ==> multiset(got)[i] <= multiset(got)[j] + 1
    {
      hide Call;
      got := [];
      ghost var c := curr;
      while |got| < n
        invariant Valid() && |got| <= n
        invariant curr == if got == [] then c else got[|got| - 1]
        invariant forall k :: 0 <= k < |got| ==> got[k] == Call(c, cnt, k)
      {
        CallStep(c, cnt, |got|);
        var i := Next();
        got := got + [i];
      }
      TakenInTurn(c, cnt, got);
      TakenFairly(c, cnt, got);
    }
  }

  function Times(s: seq<nat>, i: nat): nat {
    multiset(s)[i]
  }

  // Every index occurs exactly once, among all results, or the cnt from the a-th on.
  ghost predicate EachOnce(got: seq<nat>, cnt: nat) {
    forall i :: 0 <= i < cnt ==> Times(got, i) == 1
  }

  ghost predicate EachOnceFrom(got: seq<nat>, a: nat, cnt: nat)
    requires a + cnt <= |got|
  {
    EachOnce(got[a..a + cnt], cnt)
  }

  // What the k-th call from now returns.
  function Call(curr: nat, cnt: nat, k: nat): (i: nat)
    requires curr < cnt
    ensures i < cnt
  {
    if k == 0 then (curr + 1) % cnt else (Call(curr, cnt, k - 1) + 1) % cnt
  }

  lemma CallStep(curr: nat, cnt: nat, k: nat)
    requires curr < cnt
    ensures Call(curr, cnt, k) == Call(if k == 0 then curr else Call(curr, cnt, k - 1), cnt, 0)
  {
  }

  // How often n calls return address i.
  function Returned(curr: nat, cnt: nat, n: nat, i: nat): nat
    requires curr < cnt
  {
    if n == 0 then 0 else Returned(curr, cnt, n - 1, i) + if Call(curr, cnt, n - 1) == i then 1 else 0
  }

  // Next moves the sequence of calls on by one.
  lemma {:induction false} CallShift(curr: nat, cnt: nat, k: nat)
    requires curr < cnt
    ensures Call((curr + 1) % cnt, cnt, k) == Call(curr, cnt, k + 1)
  {
    if k > 0 {
      CallShift(curr, cnt, k - 1);
    }
  }

  // The m-th call after the n-th, for less than a full round.
  lemma {:induction false} CallAfter(curr: nat, cnt: nat, n: nat, m: nat)
    requires curr < cnt && m < cnt
    ensures var c := Call(curr, cnt, n); Call(curr, cnt, n + m) == if c + m < cnt then c + m else c + m - cnt
  {
    if m > 0 {
      CallAfter(curr, cnt, n, m - 1);
      Wrap(Call(curr, cnt, n + m - 1) + 1, cnt);
    }
  }

  // How far address i is ahead of the n-th call.
  function Ahead(curr: nat, cnt: nat, n: nat, i: nat): (d: nat)
    requires curr < cnt && i < cnt
    ensures d < cnt
  {
    var c := Call(curr, cnt, n);
    if i >= c then i - c else i + cnt - c
  }

  lemma {:induction false} PartOfRound(curr: nat, cnt: nat, n: nat, m: nat, i: nat)
    requires curr < cnt && i < cnt && m <= cnt
    ensures Returned(curr, cnt, n + m, i) == Returned(curr, cnt, n, i) + if Ahead(curr, cnt, n, i) < m then 1 else 0
    decreases m
  {
    if m > 0 {
      PartOfRound(curr, cnt, n, m - 1, i);
      CallAfter(curr, cnt, n, m - 1);
    }
  }

  // Any cnt calls in a row return every address exactly once.
  lemma RoundVisitsEachOnce(curr: nat, cnt: nat, n: nat, i: nat)
    requires curr < cnt && i < cnt
    ensures Returned(curr, cnt, n + cnt, i) == Returned(curr, cnt, n, i) + 1
  {
    PartOfRound(curr, cnt, n, cnt, i);
  }

  // After any number of calls no address was returned two times more than another.
  lemma {:induction false} Fair(curr: nat, cnt: nat, n: nat, i: nat, j: nat)
    requires curr < cnt && i < cnt && j < cnt
    ensures Returned(curr, cnt, n, i) <= Returned(curr, cnt, n, j) + 1
    decreases n
  {
    if n < cnt {
      PartOfRound(curr, cnt, 0, n, i);
      PartOfRound(curr, cnt, 0, n, j);
    } else {
      Fair(curr, cnt, n - cnt, i, j);
      RoundVisitsEachOnce(curr, cnt, n - cnt, i);
      RoundVisitsEachOnce(curr, cnt, n - cnt, j);
    }
  }

  lemma {:induction false} CountIs(curr: nat, cnt: nat, got: seq<nat>, n: nat, i: nat)
    requires curr < cnt && n <= |got| && forall k :: 0 <= k < n ==> got[k] == Call(curr, cnt, k)
    ensures multiset(got[..n])[i] == Returned(curr, cnt, n, i)
  {
    hide Call;
    if n > 0 {
      CountIs(curr, cnt, got, n - 1, i);
      assert got[..n] == got[..n - 1] + [got[n - 1]];
      TimesSnoc(got[..n - 1], got[n - 1], i);
    }
  }

  lemma TimesSnoc(s: seq<nat>, x: nat, i: nat)
    ensures multiset(s + [x])[i] == multiset(s)[i] + if x == i then 1 else 0
  {
  }

  lemma OnceInRound(curr: nat, cnt: nat, got: seq<nat>, a: nat, i: nat)
    requires curr < cnt && a + cnt <= |got| && i < cnt
    requires forall k :: 0 <= k < a + cnt ==> got[k] == Call(curr, cnt, k)
    ensures multiset(got[a..a + cnt])[i] == 1
  {
    CountIs(curr, cnt, got, a, i);
    CountIs(curr, cnt, got, a + cnt, i);
    RoundVisitsEachOnce(curr, cnt, a, i);
    assert got[..a + cnt] == got[..a] + got[a..a + cnt];
  }

  lemma TakenInTurn(curr: nat, cnt: nat, got: seq<nat>)
    requires curr < cnt && forall k :: 0 <= k < |got| ==> got[k] == Call(curr, cnt, k)
    ensures got != [] ==> got[0] == (curr + 1) % cnt
    ensures forall k :: 0 < k < |got| ==> got[k] == (got[k - 1] + 1) % cnt
    ensures forall a :: 0 <= a && a + cnt <= |got| ==> EachOnceFrom(got, a, cnt)
  {
    forall a | 0 <= a && a + cnt <= |got|
      ensures EachOnceFrom(got, a, cnt)
    {
      var round := got[a..a + cnt];
      forall i | 0 <= i < cnt
        ensures Times(round, i) == 1
      {
        OnceInRound(curr, cnt, got, a, i);
      }
    }
  }

  lemma TakenFairly(curr: nat, cnt: nat, got: seq<nat>)
    requires curr < cnt && forall k :: 0 <= k < |got| ==> got[k] == Call(curr, cnt, k)
    ensures forall i, j :: 0 <= i < cnt && 0 <= j < cnt ==> multiset(got)[i] <= multiset(got)[j] + 1
  {
    assert got[..|got|] == got;
    forall i, j | 0 <= i < cnt && 0 <= j < cnt
      ensures multiset(got)[i] <= multiset(got)[j] + 1
    {
      CountIs(curr, cnt, got, |got|, i);
      CountIs(curr, cnt, got, |got|, j);
      Fair(curr, cnt, |got|, i, j);
    }
  }
}
