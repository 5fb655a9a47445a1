// rd_interval_t of common/include/kafka/rdinterval.h: a rate limiter.
module Interval {
  import opened Arithmetic

  // ri_ts_last of a disabled interval: a time far in the future.
  const DISABLED: int := 6000000000000000000

  datatype State = State(last: int, fixed: int, backoff: int)

  // What rd_interval0 returns, and leaves behind.
  function Overshoot(s: State, interval: int, now: int, immediate: bool): int {
    var us := if interval == 0 then s.fixed else interval;
    if s.last != 0 || !immediate then now - (s.last + us + s.backoff) else 1
  }

  function Checked(s: State, interval: int, now: int, immediate: bool): State {
    if Overshoot(s, interval, now, immediate) > 0 then State(now, s.fixed, 0) else s
  }

  class RdInterval {
    var last: int      // ri_ts_last
    var fixed: int     // ri_fixed
    var backoff: int   // ri_backoff

    function Get(): State
      reads this
    {
      State(last, fixed, backoff)
    }

    constructor ()
      ensures Get() == State(0, 0, 0)
    {
      last, fixed, backoff := 0, 0, 0;
    }

    // `clock` is what rd_clock() would return.
    method Check(interval: int, now: int, immediate: bool, clock: int) returns (diff: int)
      modifies this
      ensures var t := if now == 0 then clock else now; var us := if interval == 0 then old(fixed) else interval;
              && diff == (if old(last) == 0 && immediate then 1 else t - (old(last) + us + old(backoff)))
              && Get() == (if diff > 0 then State(t, old(fixed), 0) else old(Get()))
              && diff == Overshoot(old(Get()), interval, t, immediate)
              && Get() == Checked(old(Get()), interval, t, immediate)
    {
      var t := now;
      if t == 0 {
        t := clock;
      }
      var us := interval;
      if us == 0 {
        us := fixed;
      }
      if last != 0 || !immediate {
        diff := t - (last + us + backoff);
      } else {
        diff := 1;
      }
      if diff > 0 {
        last := t;
        backoff := 0;
      }
    }

    method Reset()
      modifies this
      ensures Get() == old(Get()).(last := 0, backoff := 0)
    {
      last, backoff := 0, 0;
    }

    method ResetToNow(now: int, clock: int)
      modifies this
      ensures Get() == old(Get()).(last := if now == 0 then clock else now, backoff := 0)
    {
      last := if now == 0 then clock else now;
      backoff := 0;
    }

    method Backoff(us: int)
      modifies this
      ensures Get() == old(Get()).(backoff := us)
    {
      backoff := us;
    }

    method Expedite(us: int)
      modifies this
      ensures Get() == Hastened(old(Get()), us)
    {
      if us == 0 {
        last := 0;
      } else {
        backoff := -us;
      }
    }

    method Fixed(us: int)
      modifies this
      ensures Get() == old(Get()).(fixed := us)
    {
      fixed := us;
    }

    method Disable()
      modifies this
      ensures Get() == old(Get()).(last := DISABLED)
    {
      last := DISABLED;
    }
  }

  // ----- runs -----

  // A poll is a call of rd_interval or rd_interval_immediate, at the time given or read.
  datatype Op =
    | Poll(now: int, interval: int, immediate: bool)
    | BackOff(us: int)    // rd_interval_backoff
    | Hasten(us: int)     // rd_interval_expedite
    | Restart             // rd_interval_reset

  function Hastened(s: State, us: int): State {
    if us == 0 then s.(last := 0) else s.(backoff := -us)
  }

  function After(s: State, op: Op): State {
    match op
    case Poll(t, interval, immediate) => Checked(s, interval, t, immediate)
    case BackOff(us) => s.(backoff := us)
    case Hasten(us) => Hastened(s, us)
    case Restart => s.(last := 0, backoff := 0)
  }

  predicate Fires(s: State, op: Op) {
    op.Poll? && Overshoot(s, op.interval, op.now, op.immediate) > 0
  }

  // The polls that fired.
  function Firings(s: State, ops: seq<Op>): (f: seq<Op>)
    ensures forall op :: op in f ==> op.Poll? && op in ops
    decreases ops
  {
    if ops == [] then []
    else (if Fires(s, ops[0]) then [ops[0]] else []) + Firings(After(s, ops[0]), ops[1..])
  }

  // The interval that a poll asks for.
  function Gap(fixed: int, poll: Op): int
    requires poll.Poll?
  {
    if poll.interval == 0 then fixed else poll.interval
  }

  // Polls of either kind, with any intervals, at positive times, and back-offs that are not
  // negative.
  ghost predicate Regular(ops: seq<Op>) {
    forall i :: 0 <= i < |ops| ==> (ops[i].Poll? && ops[i].now > 0) || (ops[i].BackOff? && ops[i].us >= 0)
  }

  // Each firing is more than the interval that it asked for after the firing before; the
  // first one after the last firing before the run, if there was one.
  lemma {:induction false} FiringsAreSpaced(s: State, ops: seq<Op>)
    requires Regular(ops) && s.backoff >= 0
    ensures var f := Firings(s, ops);
            && (f != [] && (s.last != 0 || !f[0].immediate) ==> f[0].now > s.last + Gap(s.fixed, f[0]))
            && forall i :: 0 < i < |f| ==> f[i].now > f[i - 1].now + Gap(s.fixed, f[i])
    decreases ops
  {
    if ops != [] {
      assert Regular(ops[1..]);
      FiringsAreSpaced(After(s, ops[0]), ops[1..]);
      if Fires(s, ops[0]) {
        var g := Firings(After(s, ops[0]), ops[1..]);
        assert forall i :: 0 < i <= |g| ==> ([ops[0]] + g)[i] == g[i - 1];
      }
    }
  }

  // Every poll asks for at least the interval `us`.
  ghost predicate AtLeast(s: State, ops: seq<Op>, us: int) {
    forall i :: 0 <= i < |ops| && ops[i].Poll? ==> Gap(s.fixed, ops[i]) >= us
  }

  // The rate limit: n firings in a row take at least n - 1 intervals and the steps between.
  lemma {:induction false} RateLimit(s: State, ops: seq<Op>, us: nat, i: nat, n: nat)
    requires Regular(ops) && s.backoff >= 0 && AtLeast(s, ops, us)
    requires 0 < n && i + n <= |Firings(s, ops)|
    ensures var f := Firings(s, ops); f[i + n - 1].now - f[i].now >= (n - 1) * (us + 1)
    decreases n
  {
    FiringsAreSpaced(s, ops);
    if n > 1 {
      RateLimit(s, ops, us, i, n - 1);
      var f := Firings(s, ops)[i + n - 1];
      assert f in ops;
      assert Gap(s.fixed, f) >= us;
      assert (n - 1) * (us + 1) == (n - 2) * (us + 1) + (us + 1);
    }
  }

  // Hence a window of length `span` holds at most span / (us + 1) + 1 firings.
  lemma FiringsInWindow(s: State, ops: seq<Op>, us: nat, i: nat, n: nat, span: nat)
    requires Regular(ops) && s.backoff >= 0 && AtLeast(s, ops, us)
    requires 0 < n && i + n <= |Firings(s, ops)|
    requires Firings(s, ops)[i + n - 1].now - Firings(s, ops)[i].now <= span
    ensures n <= span / (us + 1) + 1
  {
    RateLimit(s, ops, us, i, n);
    AtMostQuotient(n - 1, us + 1, span);
  }

  // The calls of a run, made one after the other; `fired` are the polls that returned a
  // positive value.
  method Perform(ri: RdInterval, ops: seq<Op>) returns (fired: seq<Op>)
    requires forall i :: 0 <= i < |ops| && ops[i].Poll? ==> ops[i].now != 0
    modifies ri
    ensures ri.fixed == old(ri.fixed)
    ensures fired == Firings(old(ri.Get()), ops)
    ensures Regular(ops) && old(ri.backoff) >= 0 ==>
              forall i :: 0 < i < |fired| ==> fired[i].now > fired[i - 1].now + Gap(ri.fixed, fired[i])
    decreases |ops|
  {
    if Regular(ops) && ri.backoff >= 0 {
      FiringsAreSpaced(ri.Get(), ops);
    }
    fired := [];
    if ops != [] {
      match ops[0] {
        case Poll(t, interval, immediate) =>
          var diff := ri.Check(interval, t, immediate, 0);
          if diff > 0 {
            fired := [ops[0]];
          }
        case BackOff(us) => ri.Backoff(us);
        case Hasten(us) => ri.Expedite(us);
        case Restart => ri.Reset();
      }
      var more := Perform(ri, ops[1..]);
      fired := fired + more;
    }
  }

  // ----- polling alone fires as often as the limit allows -----

  function Polls(times: seq<int>, interval: int, immediate: bool): (ops: seq<Op>)
    ensures |ops| == |times|
    ensures forall i :: 0 <= i < |ops| ==> ops[i] == Poll(times[i], interval, immediate)
  {
    seq(|times|, i requires 0 <= i < |times| => Poll(times[i], interval, immediate))
  }

  ghost predicate Sorted(times: seq<int>) {
    forall i, j :: 0 <= i < j < |times| ==> times[i] <= times[j]
  }

  // Some of the polls, each more than the interval after the one before and after `last`.
  ghost predicate Admissible(times: seq<int>, picks: seq<bool>, last: int, interval: int)
    decreases times
  {
    |picks| == |times| &&
    (times == [] ||
     if picks[0] then times[0] > last + interval && Admissible(times[1..], picks[1..], times[0], interval)
     else Admissible(times[1..], picks[1..], last, interval))
  }

  function Chosen(picks: seq<bool>): nat {
    if picks == [] then 0 else (if picks[0] then 1 else 0) + Chosen(picks[1..])
  }

  // No admissible choice of polls is larger than the firings of the rate limiter.
  lemma FiringsAreMaximal(s: State, times: seq<int>, interval: int, immediate: bool, picks: seq<bool>)
    requires s.backoff == 0 && Sorted(times)
    requires forall i :: 0 <= i < |times| ==> s.last <= times[i]
    requires var us := if interval == 0 then s.fixed else interval;
             us >= 0 && Admissible(times, picks, s.last, us)
    ensures Chosen(picks) <= |Firings(s, Polls(times, interval, immediate))|
  {
    StaysAhead(s, times, interval, immediate, picks, s.last);
  }

  // A choice that starts from an earlier time can be ahead by one, not more.
  lemma {:induction false} StaysAhead(s: State, times: seq<int>, interval: int, immediate: bool, picks: seq<bool>,
                                      last: int)
    requires s.backoff == 0 && Sorted(times)
    requires forall i :: 0 <= i < |times| ==> s.last <= times[i]
    requires var us := if interval == 0 then s.fixed else interval;
             us >= 0 && Admissible(times, picks, last, us)
    ensures Chosen(picks) <= |Firings(s, Polls(times, interval, immediate))| + if last < s.last then 1 else 0
    decreases times
  {
    if times != [] {
      hide Polls, Firings;
      var t, s' := times[0], After(s, Poll(times[0], interval, immediate));
      FirstPoll(s, times, interval, immediate);
      StaysAhead(s', times[1..], interval, immediate, picks[1..], if picks[0] then t else last);
    }
  }

  // A back-off delays one firing only: the first poll past it fires, and from then on
  // the polls fire as if there had been none.
  lemma {:induction false} BackoffDelaysOneFiring(s: State, times: seq<int>, interval: int, immediate: bool)
    returns (k: nat)
    requires s.last != 0 || !immediate
    ensures var due := s.last + (if interval == 0 then s.fixed else interval) + s.backoff;
            && k <= |times| && (forall i :: 0 <= i < k ==> times[i] <= due)
            && (k < |times| ==> times[k] > due)
    ensures Firings(s, Polls(times, interval, immediate)) ==
            if k < |times|
            then [Poll(times[k], interval, immediate)]
                 + Firings(State(times[k], s.fixed, 0), Polls(times[k + 1..], interval, immediate))
            else []
    decreases times
  {
    hide Polls, Firings;
    k := 0;
    if times == [] {
      NoPolls(s, interval, immediate);
    } else {
      FirstPoll(s, times, interval, immediate);
      if times[0] <= s.last + (if interval == 0 then s.fixed else interval) + s.backoff {
        k := BackoffDelaysOneFiring(s, times[1..], interval, immediate);
        assert k < |times| - 1 ==> times[1..][k + 1..] == times[k + 2..];
        k := k + 1;
      }
    }
  }

  lemma NoPolls(s: State, interval: int, immediate: bool)
    ensures Firings(s, Polls([], interval, immediate)) == []
  {
  }

  lemma FirstPoll(s: State, times: seq<int>, interval: int, immediate: bool)
    requires times != []
    ensures var poll := Poll(times[0], interval, immediate);
            Firings(s, Polls(times, interval, immediate))
            == (if Fires(s, poll) then [poll] else [])
               + Firings(After(s, poll), Polls(times[1..], interval, immediate))
  {
    assert Polls(times, interval, immediate)[1..] == Polls(times[1..], interval, immediate);
  }

  // ----- promises at the edges -----

  // The first call after init or reset, or after Expedite(0), returns a positive value if
  // and only if it is an immediate one or the clock is already past interval and back-off.
  lemma FirstCallFires(s: State, interval: int, now: int, immediate: bool)
    requires s.last == 0
    ensures Overshoot(s, interval, now, immediate) > 0
            <==> immediate || now > (if interval == 0 then s.fixed else interval) + s.backoff
  {
  }

  // Whether a reset, or an expedite with 0, is among the operations.
  ghost predicate Woken(ops: seq<Op>) {
    Restart in ops || Hasten(0) in ops
  }

  // The back-off in force after the operations, if none of them fired.
  function Delay(backoff: int, ops: seq<Op>): int
    decreases ops
  {
    if ops == [] then backoff
    else
      Delay(match ops[0]
            case Poll(_, _, _) => backoff
            case BackOff(us) => us
            case Hasten(us) => if us == 0 then backoff else -us
            case Restart => 0, ops[1..])
  }

  // An `int` of the source.
  ghost predicate IsInt(us: int) {
    -0x8000_0000 <= us < 0x8000_0000
  }

  // Back-offs are ints, and no poll comes near the far time of a disabled interval.
  ghost predicate InTime(s: State, ops: seq<Op>) {
    forall i :: 0 <= i < |ops| ==>
      match ops[i]
      case Poll(t, _, _) => t + 0x8000_0000 <= DISABLED + Gap(s.fixed, ops[i])
      case BackOff(us) => IsInt(us)
      case Hasten(us) => IsInt(us)
      case Restart => true
  }

  // A poll that fires if no poll before it does.
  ghost predicate FiresAt(s: State, ops: seq<Op>, i: nat)
    requires i < |ops|
  {
    && ops[i].Poll? && (Woken(ops[..i]) || s.last == 0)
    && (ops[i].immediate || ops[i].now > Gap(s.fixed, ops[i]) + Delay(s.backoff, ops[..i]))
  }

  // A disabled interval fires, in any run, if and only if some poll after a reset or after
  // an expedite with 0 is immediate, or past its interval and the back-off then in force.
  lemma {:induction false} DisabledFiresIff(s: State, ops: seq<Op>)
    requires s.last == DISABLED || s.last == 0
    requires -0x8000_0000 <= s.backoff <= 0x8000_0000 && InTime(s, ops)
    ensures Firings(s, ops) != [] <==> exists i :: 0 <= i < |ops| && FiresAt(s, ops, i)
    decreases ops
  {
    if ops != [] {
      var t := After(s, ops[0]);
      assert ops[..0] == [];
      assert FiresAt(s, ops, 0) <==> Fires(s, ops[0]);
      if !FiresAt(s, ops, 0) {
        DisabledFiresIff(t, ops[1..]);
        forall i | 0 <= i < |ops| - 1
          ensures FiresAt(t, ops[1..], i) <==> FiresAt(s, ops, i + 1)
        {
          FiresLater(s, ops, i);
        }
        if exists i :: 0 <= i < |ops| && FiresAt(s, ops, i) {
          var i :| 0 <= i < |ops| && FiresAt(s, ops, i);
          assert FiresAt(t, ops[1..], i - 1);
        }
      }
    }
  }

  lemma FiresLater(s: State, ops: seq<Op>, i: nat)
    requires i + 1 < |ops| && (ops[0].Poll? ==> After(s, ops[0]) == s)
    ensures FiresAt(After(s, ops[0]), ops[1..], i) <==> FiresAt(s, ops, i + 1)
  {
    assert ops[..i + 1][1..] == ops[1..][..i];
    assert ops[..i + 1] == [ops[0]] + ops[1..][..i];
  }

  // So the promise that a disabled interval stays disabled until reset holds in every run
  // without an expedite with 0.
  lemma DisabledNeverFires(s: State, ops: seq<Op>)
    requires s.last == DISABLED && IsInt(s.backoff) && InTime(s, ops)
    requires Restart !in ops && Hasten(0) !in ops
    ensures Firings(s, ops) == []
  {
    DisabledFiresIff(s, ops);
  }

  // And not in others: here it fires although it was not reset.
  lemma ExpediteEndsDisabling(fixed: int, t: int)
    requires fixed < t <= DISABLED - 0x8000_0000
    ensures Firings(State(DISABLED, fixed, 0), [Hasten(0), Poll(t, 0, false)]) == [Poll(t, 0, false)]
  {
    var poll := Poll(t, 0, false);
    assert [Hasten(0), poll][1..] == [poll];
    assert [poll][1..] == [];
    assert Firings(State(0, fixed, 0), [poll]) == [poll] + Firings(State(t, fixed, 0), []);
  }
}
