// rd_refcnt_* of common/include/kafka/rd.h, shared by several threads.
//
// Each operation on the counter is one step.  A thread that decrements it to zero
// calls the destructor in a later step, so others may run in between.
module RefCount {

  // held[t]: the references that thread t holds.  pending: the threads that saw the
  // counter reach zero and are about to call the destructor.
  datatype State = State(v: int, held: seq<nat>, pending: set<nat>, destroyed: nat)

  datatype Step = Keep(t: nat) | HandOver(t: nat, to: nat) | Drop(t: nat) | CallDestroy(t: nat)

  function Sum(s: seq<nat>): nat {
    if s == [] then 0 else s[0] + Sum(s[1..])
  }

  // The object is created with one reference, held by thread 0 of n.
  function Start(n: nat): State
    requires 0 < n
  {
    State(1, [1] + seq(n - 1, _ => 0), {}, 0)
  }

  // A thread uses the counter only through a reference that it holds.
  predicate Enabled(s: State, step: Step) {
    match step
    case Keep(t) => t < |s.held| && s.held[t] > 0
    case HandOver(t, to) => t < |s.held| && to < |s.held| && s.held[t] > 0
    case Drop(t) => t < |s.held| && s.held[t] > 0
    case CallDestroy(t) => t in s.pending
  }

  function Apply(s: State, step: Step): State
    requires Enabled(s, step)
  {
    match step
    // rd_refcnt_add0
    case Keep(t) => s.(v := s.v + 1, held := s.held[t := s.held[t] + 1])
    case HandOver(t, to) =>
      var h := s.held[t := s.held[t] - 1];
      s.(held := h[to := h[to] + 1])
    // rd_refcnt_destroywrapper: rd_refcnt_sub0, and the test of its result
    case Drop(t) =>
      var r := s.v - 1;
      s.(v := r, held := s.held[t := s.held[t] - 1], pending := if r > 0 then s.pending else s.pending + {t})
    case CallDestroy(t) => s.(pending := s.pending - {t}, destroyed := s.destroyed + 1)
  }

  ghost predicate Run(s: State, steps: seq<Step>, t: State)
    decreases steps
  {
    if steps == [] then s == t else Enabled(s, steps[0]) && Run(Apply(s, steps[0]), steps[1..], t)
  }

  ghost predicate Inv(s: State) {
    && s.v == Sum(s.held)
    && |s.pending| + s.destroyed == if s.v == 0 then 1 else 0
  }

  lemma {:induction false} SumUpdate(s: seq<nat>, i: nat, x: nat)
    requires i < |s|
    ensures Sum(s[i := x]) == Sum(s) - s[i] + x
  {
    if i == 0 {
      assert s[0 := x][1..] == s[1..];
    } else {
      assert s[i := x][1..] == s[1..][i - 1 := x];
      SumUpdate(s[1..], i - 1, x);
    }
  }

  lemma {:induction false} SumAtLeast(s: seq<nat>, i: nat)
    requires i < |s|
    ensures Sum(s) >= s[i]
  {
    if i > 0 {
      SumAtLeast(s[1..], i - 1);
    }
  }

  lemma InvStep(s: State, step: Step)
    requires Inv(s) && Enabled(s, step)
    ensures Inv(Apply(s, step))
  {
    match step
    case Keep(t) =>
      SumUpdate(s.held, t, s.held[t] + 1);
      SumAtLeast(s.held, t);
    case HandOver(t, to) =>
      var h := s.held[t := s.held[t] - 1];
      SumUpdate(s.held, t, s.held[t] - 1);
      SumUpdate(h, to, h[to] + 1);
    case Drop(t) =>
      SumUpdate(s.held, t, s.held[t] - 1);
      SumAtLeast(s.held, t);
    case CallDestroy(t) =>
  }

  lemma {:induction false} InvRun(s: State, steps: seq<Step>, t: State)
    requires Inv(s) && Run(s, steps, t)
    ensures Inv(t)
    decreases steps
  {
    hide Inv;
    if steps != [] {
      InvStep(s, steps[0]);
      InvRun(Apply(s, steps[0]), steps[1..], t);
    }
  }

  lemma {:induction false} SumZeros(n: nat)
    ensures Sum(seq(n, _ => 0)) == 0
  {
    if n > 0 {
      assert seq(n, _ => 0)[1..] == seq(n - 1, _ => 0);
      SumZeros(n - 1);
    }
  }

  // In every interleaving: the counter never goes below zero; the destructor is called
  // at most once; when a call is pending or done no reference is left, so no step on
  // the counter follows; and when no reference is left a call is pending or done.
  lemma DestroyedOnce(n: nat, steps: seq<Step>, s: State)
    requires 0 < n && Run(Start(n), steps, s)
    ensures s.v >= 0 && s.destroyed <= 1
    ensures s.destroyed + |s.pending| == 1 <==> forall t :: 0 <= t < |s.held| ==> s.held[t] == 0
    ensures s.destroyed + |s.pending| == 1 ==> forall step :: Enabled(s, step) ==> step.CallDestroy?
  {
    SumZeros(n - 1);
    assert Start(n).held[1..] == seq(n - 1, _ => 0);
    InvRun(Start(n), steps, s);
    if s.v == 0 {
      forall t | 0 <= t < |s.held|
        ensures s.held[t] == 0
      {
        SumAtLeast(s.held, t);
      }
    } else {
      var t := Holder(s.held);
    }
  }

  // And from any moment on some run gives back all references that are held, and ends with
  // the destructor called.
  lemma {:induction false} DestroyCanComplete(s: State) returns (steps: seq<Step>, t: State)
    requires Inv(s)
    ensures Run(s, steps, t) && t.destroyed == 1 && t.v == 0
    ensures forall step :: step in steps ==> step.Drop? || step.CallDestroy?
    decreases s.v, |s.pending|
  {
    steps, t := [], s;
    if s.v > 0 {
      var holder := Holder(s.held);
      InvStep(s, Drop(holder));
      steps, t := DestroyCanComplete(Apply(s, Drop(holder)));
      steps := [Drop(holder)] + steps;
    } else if s.pending != {} {
      var thread :| thread in s.pending;
      InvStep(s, CallDestroy(thread));
      steps, t := DestroyCanComplete(Apply(s, CallDestroy(thread)));
      steps := [CallDestroy(thread)] + steps;
    }
  }

  // Whoever holds a reference can take another, pass it on, or give it back; nobody else
  // can touch the counter.
  lemma HoldersOnly(s: State, t: nat, to: nat)
    requires t < |s.held| && to < |s.held|
    ensures s.held[t] > 0 <==> Enabled(s, Keep(t)) && Enabled(s, HandOver(t, to)) && Enabled(s, Drop(t))
    ensures s.held[t] > 0 ==> && Apply(s, Keep(t)).v == s.v + 1 && Apply(s, Drop(t)).v == s.v - 1
                              && Apply(s, HandOver(t, to)).v == s.v
  {
  }

  lemma {:induction false} Holder(s: seq<nat>) returns (t: nat)
    requires Sum(s) > 0
    ensures t < |s| && s[t] > 0
  {
    if s[0] > 0 {
      t := 0;
    } else {
      t := Holder(s[1..]);
      t := t + 1;
    }
  }
}
