// rd_avg_t of common/include/kafka/rdavg.h: a statistics window that is rolled over.
module Average {
  import opened Arithmetic

  // ra_v without `avg` and `start`.
  datatype Window = Window(maxv: int, minv: int, sum: int, cnt: nat)

  const EMPTY := Window(0, 0, 0, 0)

  // rd_avg_add.  A minv of zero counts as unset.
  function Added(w: Window, v: int): Window {
    Window(
      if v > w.maxv then v else w.maxv,
      if w.minv == 0 || v < w.minv then v else w.minv,
      w.sum + v,
      w.cnt + 1)
  }

  // Division as in C, toward zero.
  function Quotient(a: int, b: int): int
    requires b > 0
  {
    if a >= 0 then a / b else -(-a / b)
  }

  // The average that rd_avg_calc computes for a gauge.
  function GaugeAvg(w: Window): int {
    if w.cnt > 0 then Quotient(w.sum, w.cnt) else 0
  }

  class RdAvg {
    var maxv: int
    var minv: int
    var avg: int
    var sum: int
    var cnt: nat
    var start: int
    var enabled: bool

    function Get(): Window
      reads this
    {
      Window(maxv, minv, sum, cnt)
    }

    // rd_avg_init for a gauge.
    constructor (enable: bool, clock: int)
      ensures Get() == EMPTY && enabled == enable
    {
      maxv, minv, avg, sum, cnt := 0, 0, 0, 0, 0;
      enabled := enable;
      start := if enable then clock else 0;
    }

    method Add(v: int)
      modifies this
      ensures enabled == old(enabled) && start == old(start) && avg == old(avg)
      ensures Get() == if enabled then Added(old(Get()), v) else old(Get())
    {
      if !enabled {
        return;
      }
      if v > maxv {
        maxv := v;
      }
      if minv == 0 || v < minv {
        minv := v;
      }
      sum := sum + v;
      cnt := cnt + 1;
    }

    // rd_avg_rollover into `dst`, for a gauge.
    method Rollover(dst: RdAvg, clock: int)
      requires dst != this
      modifies this, dst
      ensures enabled == old(enabled)
      ensures enabled ==> dst.Get() == old(Get()) && dst.avg == GaugeAvg(old(Get())) && Get() == EMPTY && start == clock
      ensures !enabled ==> dst.Get() == EMPTY && dst.avg == 0 && Get() == old(Get())
      ensures old(cnt) == 0 ==> dst.avg == 0
    {
      if !enabled {
        dst.maxv, dst.minv, dst.avg, dst.sum, dst.cnt, dst.start, dst.enabled := 0, 0, 0, 0, 0, 0, false;
        return;
      }
      dst.maxv, dst.minv, dst.avg, dst.sum, dst.cnt, dst.start := maxv, minv, avg, sum, cnt, start;
      maxv, minv, avg, sum, cnt, start := 0, 0, 0, 0, 0, 0;
      start := clock;
      dst.Calc();
    }

    // rd_avg_calc for a gauge.
    method Calc()
      modifies this`avg
      ensures avg == GaugeAvg(Get())
    {
      if cnt != 0 {
        avg := Quotient(sum, cnt);
      } else {
        avg := 0;
      }
    }
  }

  // ----- histories -----

  datatype Event = Sample(v: int) | Roll

  // What an enabled averager has rolled out, and its live window, after a history.
  function RolledOut(h: seq<Event>): seq<Window> {
    if h == [] then []
    else match h[|h| - 1]
      case Sample(_) => RolledOut(h[..|h| - 1])
      case Roll => RolledOut(h[..|h| - 1]) + [Live(h[..|h| - 1])]
  }

  function Live(h: seq<Event>): Window {
    if h == [] then EMPTY
    else match h[|h| - 1]
      case Sample(v) => Added(Live(h[..|h| - 1]), v)
      case Roll => EMPTY
  }

  // The samples of a history, cut at the rollovers: the windows, and the live one.
  function Closed(h: seq<Event>): seq<seq<int>> {
    if h == [] then []
    else match h[|h| - 1]
      case Sample(_) => Closed(h[..|h| - 1])
      case Roll => Closed(h[..|h| - 1]) + [Open(h[..|h| - 1])]
  }

  function Open(h: seq<Event>): seq<int> {
    if h == [] then []
    else match h[|h| - 1]
      case Sample(v) => Open(h[..|h| - 1]) + [v]
      case Roll => []
  }

  function Samples(h: seq<Event>): seq<int> {
    if h == [] then []
    else match h[|h| - 1]
      case Sample(v) => Samples(h[..|h| - 1]) + [v]
      case Roll => Samples(h[..|h| - 1])
  }

  function Flatten(ws: seq<seq<int>>): seq<int> {
    if ws == [] then [] else Flatten(ws[..|ws| - 1]) + ws[|ws| - 1]
  }

  function Sum(s: seq<int>): int {
    if s == [] then 0 else Sum(s[..|s| - 1]) + s[|s| - 1]
  }

  // The statistics of a list of samples, one added after the other.
  function Summary(s: seq<int>): Window {
    if s == [] then EMPTY else Added(Summary(s[..|s| - 1]), s[|s| - 1])
  }

  function Summaries(ws: seq<seq<int>>): (r: seq<Window>)
    ensures |r| == |ws|
  {
    if ws == [] then [] else Summaries(ws[..|ws| - 1]) + [Summary(ws[|ws| - 1])]
  }

  // Every sample is in exactly one window, in its place, and every window holds the
  // statistics of its own samples.
  lemma {:induction false} WindowsPartitionSamples(h: seq<Event>)
    ensures Flatten(Closed(h)) + Open(h) == Samples(h)
    ensures RolledOut(h) == Summaries(Closed(h)) && Live(h) == Summary(Open(h))
  {
    if h != [] {
      var g := h[..|h| - 1];
      WindowsPartitionSamples(g);
      match h[|h| - 1]
      case Sample(v) =>
        assert (Open(g) + [v])[..|Open(g)|] == Open(g);
      case Roll =>
        var ws := Closed(g) + [Open(g)];
        assert ws[..|ws| - 1] == Closed(g);
    }
  }

  lemma {:induction false} SumAppend(s: seq<int>, t: seq<int>)
    ensures Sum(s + t) == Sum(s) + Sum(t)
  {
    if t == [] {
      assert s + t == s;
    } else {
      assert (s + t)[..|s + t| - 1] == s + t[..|t| - 1];
      SumAppend(s, t[..|t| - 1]);
    }
  }

  lemma {:induction false} SummaryTotals(s: seq<int>)
    ensures Summary(s).sum == Sum(s) && Summary(s).cnt == |s|
  {
    if s != [] {
      SummaryTotals(s[..|s| - 1]);
    }
  }

  function Totals(ws: seq<Window>): (t: (int, nat)) {
    if ws == [] then (0, 0)
    else var t := Totals(ws[..|ws| - 1]); (t.0 + ws[|ws| - 1].sum, t.1 + ws[|ws| - 1].cnt)
  }

  lemma TotalsSnoc(ws: seq<Window>, w: Window)
    ensures Totals(ws + [w]) == (Totals(ws).0 + w.sum, Totals(ws).1 + w.cnt)
  {
    assert (ws + [w])[..|ws|] == ws;
  }

  lemma {:induction false} SummariesTotals(ws: seq<seq<int>>)
    ensures Totals(Summaries(ws)) == (Sum(Flatten(ws)), |Flatten(ws)|)
  {
    if ws != [] {
      var init, last := ws[..|ws| - 1], ws[|ws| - 1];
      hide Summary, Sum, Totals;
      SummariesTotals(init);
      SummaryTotals(last);
      SumAppend(Flatten(init), last);
      TotalsSnoc(Summaries(init), Summary(last));
    }
  }

  // The calls of a history, made one after the other: the windows rolled out and the live
  // one are those of the samples between the rollovers, and no sample is lost.
  method Play(ra: RdAvg, h: seq<Event>) returns (windows: seq<Window>, avgs: seq<int>)
    requires ra.enabled && ra.Get() == EMPTY
    modifies ra
    ensures ra.enabled && windows == Summaries(Closed(h)) && ra.Get() == Summary(Open(h))
    ensures |avgs| == |windows| && forall i :: 0 <= i < |avgs| ==> avgs[i] == GaugeAvg(windows[i])
    ensures Totals(windows).0 + ra.sum == Sum(Samples(h)) && Totals(windows).1 + ra.cnt == |Samples(h)|
  {
    hide Added, GaugeAvg, Summaries, Closed, Open, Summary, Samples;
    windows, avgs := [], [];
    var i := 0;
    while i < |h|
      invariant 0 <= i <= |h| && ra.enabled
      invariant windows == RolledOut(h[..i]) && ra.Get() == Live(h[..i])
      invariant |avgs| == |windows| && forall j :: 0 <= j < |avgs| ==> avgs[j] == GaugeAvg(windows[j])
    {
      assert h[..i + 1][..i] == h[..i];
      match h[i] {
        case Sample(v) => ra.Add(v);
        case Roll =>
          var dst := new RdAvg(true, 0);
          ra.Rollover(dst, 0);
          windows, avgs := windows + [dst.Get()], avgs + [dst.avg];
      }
      i := i + 1;
    }
    assert h[..i] == h;
    WindowsPartitionSamples(h);
    TotalsAreConserved(h);
  }

  // Sums and counts of all rolled-out windows and the live one are those of all samples.
  lemma TotalsAreConserved(h: seq<Event>)
    ensures var t := Totals(RolledOut(h));
            t.0 + Live(h).sum == Sum(Samples(h)) && t.1 + Live(h).cnt == |Samples(h)|
  {
    WindowsPartitionSamples(h);
    SummariesTotals(Closed(h));
    SummaryTotals(Open(h));
    SumAppend(Flatten(Closed(h)), Open(h));
  }

  // ----- one window -----

  function Min(s: seq<int>): (m: int)
    requires s != []
    ensures m in s && forall x :: x in s ==> m <= x
  {
    if |s| == 1 then s[0] else
      assert s == s[..|s| - 1] + [s[|s| - 1]];
      var m := Min(s[..|s| - 1]);
      if s[|s| - 1] < m then s[|s| - 1] else m
  }

  function Max(s: seq<int>): (m: int)
    requires s != []
    ensures m in s && forall x :: x in s ==> x <= m
  {
    if |s| == 1 then s[0] else
      assert s == s[..|s| - 1] + [s[|s| - 1]];
      var m := Max(s[..|s| - 1]);
      if s[|s| - 1] > m then s[|s| - 1] else m
  }

  // The recorded minimum is right unless the true one is zero and more samples came
  // after it.
  lemma {:induction false} MinIsRight(s: seq<int>)
    requires s != []
    ensures Summary(s).minv == Min(s) <==> Min(s) != 0 || s[|s| - 1] == 0
    ensures Summary(s).minv == 0 ==> s[|s| - 1] == 0
    ensures Summary(s).minv >= Min(s)
  {
    if |s| > 1 {
      MinIsRight(s[..|s| - 1]);
    }
  }

  // The recorded maximum is right unless all samples are negative.
  lemma {:induction false} MaxIsRight(s: seq<int>)
    requires s != []
    ensures Summary(s).maxv == if Max(s) > 0 then Max(s) else 0
  {
    if |s| > 1 {
      MaxIsRight(s[..|s| - 1]);
    }
  }

  lemma {:induction false} SumBounds(s: seq<int>)
    requires s != []
    ensures |s| * Min(s) <= Sum(s) <= |s| * Max(s)
  {
    if |s| > 1 {
      var init, n := s[..|s| - 1], |s| - 1;
      SumBounds(init);
      MulMono(n, Min(s), Min(init));
      MulMono(n, Max(init), Max(s));
      assert |s| * Min(s) == n * Min(s) + Min(s) && |s| * Max(s) == n * Max(s) + Max(s);
    }
  }

  lemma MulMono(n: nat, a: int, b: int)
    requires a <= b
    ensures n * a <= n * b
  {
  }

  lemma QuotientBounds(a: int, b: int, lo: int, hi: int)
    requires 0 < b && b * lo <= a <= b * hi
    ensures lo <= Quotient(a, b) <= hi
    ensures a >= 0 ==> Quotient(a, b) * b <= a < (Quotient(a, b) + 1) * b
    ensures a <= 0 ==> (Quotient(a, b) - 1) * b < a <= Quotient(a, b) * b
  {
    if a >= 0 {
      FloorBounds(a, b, lo, hi);
      if a == 0 {
        DivModUnique(0, b, 0, 0);
      }
    } else {
      assert b * -hi == -(b * hi) && b * -lo == -(b * lo);
      FloorBounds(-a, b, -hi, -lo);
    }
  }

  lemma FloorBounds(a: nat, b: nat, lo: int, hi: int)
    requires 0 < b && b * lo <= a <= b * hi
    ensures lo <= a / b <= hi
    ensures a / b * b <= a < (a / b + 1) * b
  {
    var q := a / b;
    assert a == q * b + a % b;
    if q < lo {
      MulSub(lo, q, b);
      MulAtLeast(lo - q, b);
    }
    if hi < q {
      MulSub(q, hi, b);
      MulAtLeast(q - hi, b);
    }
  }

  // The average of a gauge window lies between the smallest and the largest sample; it
  // is the sum divided by the count, rounded toward zero.
  lemma GaugeBounds(s: seq<int>)
    requires s != []
    ensures var w := Summary(s); var avg := GaugeAvg(w);
            && Min(s) <= avg <= Max(s)
            && (w.sum >= 0 ==> avg * w.cnt <= w.sum < (avg + 1) * w.cnt)
            && (w.sum <= 0 ==> (avg - 1) * w.cnt < w.sum <= avg * w.cnt)
  {
    SummaryTotals(s);
    SumBounds(s);
    QuotientBounds(Sum(s), |s|, Min(s), Max(s));
  }

  // For positive samples the recorded bounds are the true ones, with the average between.
  lemma PositiveWindow(s: seq<int>)
    requires s != [] && forall x :: x in s ==> x > 0
    ensures var w := Summary(s); var avg := GaugeAvg(w);
            && w.minv == Min(s) && w.maxv == Max(s) && w.minv <= avg <= w.maxv
            && avg * w.cnt <= w.sum < (avg + 1) * w.cnt
  {
    MinIsRight(s);
    MaxIsRight(s);
    GaugeBounds(s);
    SummaryTotals(s);
    SumBounds(s);
    MulMono(|s|, 0, Min(s));
  }
}
