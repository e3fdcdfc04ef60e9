/** Why the load generator needs its open loop: in a closed loop, slowing a call can improve
    the figures that are reported.
 */
module ClosedLoop {
  import opened Common
  import opened Sorting
  import opened Signature
  import opened Stats
  import opened LoadLoop
  import opened LoadLaws

  // --- Runs of plain calls ---------------------------------------------------------

  /** A call that answers after the given time, with none lost around it. */
  ghost function Call<C>(seconds: real): Event<C> {
    Event(0.0, 0.0, seconds, 0.0, Answered(Sig(0, [], [])))
  }

  ghost function Calls<C>(times: seq<real>): (r: seq<Event<C>>)
    ensures |r| == |times| && forall i | 0 <= i < |r| :: r[i] == Call<C>(times[i])
  {
    if times == [] then [] else [Call<C>(times[0])] + Calls<C>(times[1..])
  }

  /** When the calls start, the first at `at`: each when the one before it has answered, as
      long as that is before the deadline. */
  function CallStarts(at: real, limit: real, times: seq<real>): seq<real>
    decreases |times|
  {
    if times == [] || at >= limit then [] else [at] + CallStarts(at + times[0], limit, times[1..])
  }

  function CallLatencies(at: real, limit: real, times: seq<real>): (r: seq<real>)
    ensures |r| == |CallStarts(at, limit, times)|
    decreases |times|
  {
    if times == [] || at >= limit then []
    else [times[0] * 1000.0] + CallLatencies(at + times[0], limit, times[1..])
  }

  lemma {:induction false} RunCalls<C>(setup: Setup<C>, st: Loop, times: seq<real>, at: real)
    requires setup.requests != [] && !setup.Open() && !st.stopped && at == st.clock - setup.origin
    ensures Run(setup, st, Calls(times)).starts == st.starts + CallStarts(at, setup.config.duration, times)
    ensures Run(setup, st, Calls(times)).latencies == st.latencies + CallLatencies(at, setup.config.duration, times)
    decreases |times|
  {
    if times != [] {
      var trace: seq<Event<C>> := Calls(times);
      var next := Step(setup, st, trace[0]);
      assert trace[1..] == Calls<C>(times[1..]);
      if at >= setup.config.duration {
        RunEnds(setup, next, trace[1..]);
      } else {
        RunCalls(setup, next, times[1..], at + times[0]);
        Appended(st.starts, at, CallStarts(at + times[0], setup.config.duration, times[1..]));
        Appended(st.latencies, times[0] * 1000.0, CallLatencies(at + times[0], setup.config.duration, times[1..]));
      }
    }
  }

  lemma Appended(s: seq<real>, x: real, rest: seq<real>)
    ensures (s + [x]) + rest == s + ([x] + rest)
  {
  }

  /** What a client reports of its calls. */
  lemma CallsReported<C>(setup: Setup<C>, times: seq<real>, starts: seq<real>, latencies: seq<real>)
    requires setup.requests != [] && !setup.Open() && |starts| == |latencies|
    requires starts == CallStarts(setup.lag, setup.config.duration, times)
    requires latencies == CallLatencies(setup.lag, setup.config.duration, times)
    ensures Report(setup, Calls(times), 0.0).latenciesMs
         == SplitOf(starts, latencies, setup.config.warmup, setup.config.cooldown).steady
  {
    RunCalls(setup, Start(setup), times, setup.lag);
    assert [] + starts == starts && [] + latencies == latencies;
  }

  // --- The reported figure ---------------------------------------------------------

  /** The 99th percentile of a sweep point with this one client. */
  function ReportedP99<C(==)>(setup: Setup<C>, trace: seq<Event<C>>): real
    requires setup.requests != []
  {
    Summarize([Report(setup, trace, 0.0)], None).p99
  }

  lemma FigureOf<C>(setup: Setup<C>, trace: seq<Event<C>>, steady: seq<real>)
    requires setup.requests != [] && steady == Report(setup, trace, 0.0).latenciesMs
    ensures ReportedP99(setup, trace) == if steady == [] then 0.0 else Percentile(steady, 99.0).value
  {
    var c := Report(setup, trace, 0.0);
    assert [c][1..] == [] && Pooled([c]) == c.latenciesMs + Pooled([]);
    assert Pooled([c]) == steady;
  }

  lemma OneSample(x: real)
    ensures Percentile([x], 99.0) == Ok(x)
  {
    assert [x][1..] == [] && Sort(RealLe, [x]) == [x];
  }

  lemma TwoSamples(y: real)
    requires 0.0 <= y
    ensures Percentile([0.0, y], 99.0) == Ok(0.99 * y)
  {
    RealOrder();
    SortFixpoint(RealLe, [0.0, y]);
    assert Position(2, 99.0) == 0.99;
  }

  lemma ZeroZero(y: real)
    requires 0.0 <= y
    ensures Percentile([0.0, 0.0, y], 99.0) == Ok(0.98 * y)
  {
    RealOrder();
    SortFixpoint(RealLe, [0.0, 0.0, y]);
    assert Position(3, 99.0) == 1.98;
  }

  lemma Swapped(x: real, y: real)
    ensures multiset([x, y, x]) == multiset([x, x, y])
  {
    assert [x, y, x] == [x] + [y, x] && [x, x, y] == [x] + [x, y];
  }

  lemma {:induction false} ThreeSamples(y: real, z: real)
    requires 0.0 <= y && 0.0 <= z
    ensures Percentile([0.0, y, z], 99.0).value >= 0.98 * y
  {
    var some, sorted, all := [0.0, y, 0.0], [0.0, 0.0, y], [0.0, y, z];
    ZeroZero(y);
    Swapped(0.0, y);
    PercentileOrderFree(some, sorted, 99.0);
    PercentileMonotone(some, all, 99.0);
  }

  // --- Steady samples, call by call ------------------------------------------------

  lemma {:induction false} KeepCons<T>(b: bool, mask: seq<bool>, x: T, xs: seq<T>)
    requires |mask| == |xs|
    ensures Keep([b] + mask, [x] + xs) == (if b then [x] else []) + Keep(mask, xs)
  {
    var n := |xs|;
    assert ([b] + mask)[..0] == [] && ([x] + xs)[..0] == [];
    if n > 0 {
      KeepCons(b, mask[..n - 1], x, xs[..n - 1]);
      assert ([b] + mask)[..n] == [b] + mask[..n - 1] && ([x] + xs)[..n] == [x] + xs[..n - 1];
    }
  }

  lemma SteadyCons(a: real, starts: seq<real>, x: real, xs: seq<real>, warmup: real, cut: real)
    requires |starts| == |xs|
    ensures SteadyOf([a] + starts, [x] + xs, warmup, cut)
         == (if warmup <= a <= cut then [x] else []) + SteadyOf(starts, xs, warmup, cut)
  {
    var mask := SteadyMask(starts, warmup, cut);
    assert ([a] + starts)[0] == a && ([a] + starts)[1..] == starts;
    assert SteadyMask([a] + starts, warmup, cut) == [warmup <= a <= cut] + mask;
    KeepCons(warmup <= a <= cut, mask, x, xs);
  }

  /** The latencies of the calls that start from the warm-up on and not after `cut`. */
  function SteadyCalls(at: real, limit: real, times: seq<real>, warmup: real, cut: real): seq<real>
    decreases |times|
  {
    if times == [] || at >= limit then []
    else
      (if warmup <= at <= cut then [times[0] * 1000.0] else [])
      + SteadyCalls(at + times[0], limit, times[1..], warmup, cut)
  }

  /** When the last of the calls starts. */
  function LastStart(at: real, limit: real, times: seq<real>): real
    decreases |times|
  {
    if |times| <= 1 || at + times[0] >= limit then at else LastStart(at + times[0], limit, times[1..])
  }

  /** No call returns before it starts. */
  ghost predicate Forward(times: seq<real>) {
    forall i | 0 <= i < |times| :: 0.0 <= times[i]
  }

  /** A sequence and its steady part, one call longer. */
  lemma {:induction false} SteadyStep(
    a: real, starts: seq<real>, x: real, xs: seq<real>, warmup: real, cut: real, tail: seq<real>,
    starts': seq<real>, xs': seq<real>)
    requires |starts| == |xs| && starts' == [a] + starts && xs' == [x] + xs
    requires SteadyOf(starts, xs, warmup, cut) == tail
    ensures SteadyOf(starts', xs', warmup, cut) == (if warmup <= a <= cut then [x] else []) + tail
  {
    SteadyCons(a, starts, x, xs, warmup, cut);
  }

  lemma {:induction false} SteadyIsCalls(
    at: real, limit: real, times: seq<real>, warmup: real, cut: real, starts: seq<real>, latencies: seq<real>)
    requires starts == CallStarts(at, limit, times) && latencies == CallLatencies(at, limit, times)
    requires |starts| == |latencies|
    ensures SteadyOf(starts, latencies, warmup, cut) == SteadyCalls(at, limit, times, warmup, cut)
    decreases |times|
  {
    if times != [] && at < limit {
      var next, rest := at + times[0], times[1..];
      var starts', latencies' := CallStarts(next, limit, rest), CallLatencies(next, limit, rest);
      var tail := SteadyCalls(next, limit, rest, warmup, cut);
      SteadyIsCalls(next, limit, rest, warmup, cut, starts', latencies');
      SteadyStep(at, starts', times[0] * 1000.0, latencies', warmup, cut, tail, starts, latencies);
    }
  }

  /** The starts go up to the last one, which is one of them. */
  ghost predicate UpTo(starts: seq<real>, last: real) {
    last in starts && forall s | s in starts :: s <= last
  }

  lemma UpToCons(a: real, starts: seq<real>, last: real)
    requires a <= last && UpTo(starts, last)
    ensures UpTo([a] + starts, last)
  {
  }

  lemma {:induction false} StartsUpTo(at: real, limit: real, times: seq<real>, starts: seq<real>, last: real)
    requires Forward(times) && times != [] && at < limit
    requires starts == CallStarts(at, limit, times) && last == LastStart(at, limit, times)
    ensures at <= last && UpTo(starts, last)
    decreases |times|
  {
    var next, rest := at + times[0], times[1..];
    if rest != [] && next < limit {
      StartsUpTo(next, limit, rest, CallStarts(next, limit, rest), last);
      UpToCons(at, CallStarts(next, limit, rest), last);
    } else {
      assert starts == [at];
    }
  }

  // --- Omission in every closed loop -----------------------------------------------

  /** A closed loop in which a call can be steady: there is time between the warm-up, or the
      first start if that is later, and the cool-down. */
  ghost predicate Measures<C>(setup: Setup<C>) {
    && setup.requests != [] && !setup.Open()
    && 0.0 <= setup.lag && 0.0 <= setup.config.warmup && 0.0 <= setup.config.cooldown
    && Max(setup.lag, setup.config.warmup) + setup.config.cooldown < setup.config.duration
  }

  lemma {:induction false} LatestStart(at: real, limit: real, times: seq<real>, starts: seq<real>, last: real)
    requires Forward(times) && times != [] && at < limit
    requires starts == CallStarts(at, limit, times) && last == LastStart(at, limit, times)
    ensures starts != [] && Latest(starts) == last
  {
    StartsUpTo(at, limit, times, starts, last);
    LatestIs(starts, last);
  }

  lemma LatestIs(starts: seq<real>, last: real)
    requires UpTo(starts, last)
    ensures starts != [] && Latest(starts) == last
  {
  }

  lemma {:induction false} SplitAt(
    starts: seq<real>, latencies: seq<real>, warmup: real, cooldown: real, last: real, steady: seq<real>)
    requires |starts| == |latencies| && starts != [] && Latest(starts) == last
    requires SteadyOf(starts, latencies, warmup, last - cooldown) == steady
    ensures SplitOf(starts, latencies, warmup, cooldown).steady == steady
  {
  }

  /** One call after the other. */
  lemma FirstCall(at: real, limit: real, x: real, rest: seq<real>, warmup: real, cut: real)
    requires at < limit
    ensures SteadyCalls(at, limit, [x] + rest, warmup, cut)
         == (if warmup <= at <= cut then [x * 1000.0] else []) + SteadyCalls(at + x, limit, rest, warmup, cut)
    ensures LastStart(at, limit, [x] + rest)
         == if rest == [] || at + x >= limit then at else LastStart(at + x, limit, rest)
  {
    assert ([x] + rest)[0] == x && ([x] + rest)[1..] == rest;
  }

  /** A call that fills the warm-up is not steady. */
  lemma WarmupCall(lag: real, w: real, limit: real, times: seq<real>, cut: real)
    requires lag < w < limit && times != []
    ensures SteadyCalls(lag, limit, [w - lag] + times, w, cut) == SteadyCalls(w, limit, times, w, cut)
    ensures LastStart(lag, limit, [w - lag] + times) == LastStart(w, limit, times)
  {
    FirstCall(lag, limit, w - lag, times, w, cut);
    assert lag + (w - lag) == w;
  }

  lemma TwoCalls(at: real, limit: real, x: real, y: real, warmup: real, cut: real)
    requires at < limit && at + x < limit
    ensures SteadyCalls(at, limit, [x, y], warmup, cut)
         == (if warmup <= at <= cut then [x * 1000.0] else [])
            + (if warmup <= at + x <= cut then [y * 1000.0] else [])
    ensures LastStart(at, limit, [x, y]) == at + x
  {
    assert [x, y] == [x] + [y] && [y] == [y] + [];
    FirstCall(at, limit, x, [y], warmup, cut);
    FirstCall(at + x, limit, y, [], warmup, cut);
  }

  /** Without a cool-down: an instant call and one twice the time that is left, against the
      first slowed until it takes all of it. */
  lemma Uncooled(at: real, left: real, w: real)
    requires w <= at && 0.0 < left
    ensures LastStart(at, at + left, [0.0, 2.0 * left]) == at
    ensures SteadyCalls(at, at + left, [0.0, 2.0 * left], w, at) == [0.0, 2.0 * left * 1000.0]
    ensures LastStart(at, at + left, [left, 2.0 * left]) == at
    ensures SteadyCalls(at, at + left, [left, 2.0 * left], w, at) == [left * 1000.0]
  {
    TwoCalls(at, at + left, 0.0, 2.0 * left, w, at);
    assert [left, 2.0 * left] == [left] + [2.0 * left];
    FirstCall(at, at + left, left, [2.0 * left], w, at);
  }

  /** With a cool-down: an instant call, one a little shorter than the cool-down and one that
      takes the rest, the last starting just in time. */
  lemma Cooled(at: real, limit: real, w: real, cut: real, long: real, rest: real)
    requires w <= at <= cut < at + long + rest < limit && 0.0 <= long && 0.0 <= rest
    ensures LastStart(at, limit, [0.0, long, rest, 0.0]) == at + long + rest
    ensures
      SteadyCalls(at, limit, [0.0, long, rest, 0.0], w, cut)
      == [0.0, long * 1000.0] + (if at + long <= cut then [rest * 1000.0] else [])
  {
    assert [0.0, long, rest, 0.0] == [0.0] + [long, rest, 0.0] && [long, rest, 0.0] == [long] + [rest, 0.0];
    FirstCall(at, limit, 0.0, [long, rest, 0.0], w, cut);
    FirstCall(at, limit, long, [rest, 0.0], w, cut);
    TwoCalls(at + long, limit, rest, 0.0, w, cut);
    var late := if at + long <= cut then [rest * 1000.0] else [];
    assert late + [] == late;
    assert [0.0] + ([long * 1000.0] + late) == [0.0, long * 1000.0] + late;
  }

  /** Slowing the instant call to a fraction of the cool-down: the last call is never issued,
      and of the others only the first is steady. */
  lemma CooledSlow(at: real, limit: real, w: real, cut: real, s: real, long: real, rest: real)
    requires w <= at <= cut < at + s && 0.0 <= long && at + s + long < limit <= at + s + long + rest
    ensures LastStart(at, limit, [s, long, rest, 0.0]) == at + s + long
    ensures SteadyCalls(at, limit, [s, long, rest, 0.0], w, cut) == [s * 1000.0]
  {
    assert [s, long, rest, 0.0] == [s] + [long, rest, 0.0] && [long, rest, 0.0] == [long] + [rest, 0.0];
    assert [rest, 0.0] == [rest] + [0.0];
    FirstCall(at, limit, s, [long, rest, 0.0], w, cut);
    FirstCall(at + s, limit, long, [rest, 0.0], w, cut);
    FirstCall(at + s + long, limit, rest, [0.0], w, cut);
  }

  lemma TwoOrThree(y: real, z: real, late: seq<real>)
    requires 0.0 <= y && 0.0 <= z && (late == [] || late == [z])
    ensures Percentile([0.0, y] + late, 99.0).value >= 0.98 * y
  {
    if late == [z] {
      assert [0.0, y] + late == [0.0, y, z];
      ThreeSamples(y, z);
    } else {
      assert [0.0, y] + late == [0.0, y];
      TwoSamples(y);
    }
  }

  /** Calls and their steady sample, when the first of them starts at `at`. */
  ghost predicate Yields(
    times: seq<real>, at: real, limit: real, warmup: real, cooldown: real, steady: seq<real>)
  {
    && times != [] && Forward(times)
    && steady == SteadyCalls(at, limit, times, warmup, LastStart(at, limit, times) - cooldown)
  }

  /** A slower row of calls with a better figure, from the moment a call can be steady. */
  lemma SlowedCalls(at: real, limit: real, w: real, cool: real)
    returns (x: real, y: real, rest: seq<real>, steady: seq<real>, steady': seq<real>)
    requires w <= at && 0.0 <= cool && at + cool < limit
    ensures 0.0 <= x <= y && Yields([x] + rest, at, limit, w, cool, steady)
    ensures Yields([y] + rest, at, limit, w, cool, steady')
    ensures steady != [] && steady' != [] && Percentile(steady', 99.0).value < Percentile(steady, 99.0).value
  {
    if cool == 0.0 {
      var left := limit - at;
      x, y, rest := 0.0, left, [2.0 * left];
      steady, steady' := [0.0, 2.0 * left * 1000.0], [left * 1000.0];
      assert [x] + rest == [0.0, 2.0 * left] && [y] + rest == [left, 2.0 * left];
      Uncooled(at, left, w);
      TwoSamples(2.0 * left * 1000.0);
      OneSample(left * 1000.0);
    } else {
      x, y, rest, steady, steady' := CooledCalls(at, limit, w, cool, limit - at - cool);
    }
  }

  lemma CooledCalls(at: real, limit: real, w: real, cool: real, last: real)
    returns (x: real, y: real, rest: seq<real>, steady: seq<real>, steady': seq<real>)
    requires w <= at && 0.0 < cool && last == limit - at - cool && 0.0 < last
    ensures 0.0 <= x <= y && Yields([x] + rest, at, limit, w, cool, steady)
    ensures Yields([y] + rest, at, limit, w, cool, steady')
    ensures steady != [] && steady' != [] && Percentile(steady', 99.0).value < Percentile(steady, 99.0).value
  {
    var s := if cool <= last then cool / 2.0 else last / 2.0;
    var long := cool - s / 2.0;
    var cut := at + long + last - cool;
    var late := if at + long <= cut then [last * 1000.0] else [];
    x, y, rest := 0.0, s, [long, last, 0.0];
    steady, steady' := [0.0, long * 1000.0] + late, [s * 1000.0];
    assert [x] + rest == [0.0, long, last, 0.0] && [y] + rest == [s, long, last, 0.0];
    Cooled(at, limit, w, cut, long, last);
    CooledSlow(at, limit, w, at + s + long - cool, s, long, last);
    FigureFalls(cool, s, long, last, late);
  }

  lemma FigureFalls(cool: real, s: real, long: real, last: real, late: seq<real>)
    requires 0.0 < s <= cool / 2.0 && long == cool - s / 2.0 && 0.0 <= last
    requires late == [] || late == [last * 1000.0]
    ensures Percentile([s * 1000.0], 99.0).value < Percentile([0.0, long * 1000.0] + late, 99.0).value
  {
    TwoOrThree(long * 1000.0, last * 1000.0, late);
    OneSample(s * 1000.0);
  }

  /** The same calls after one that fills the warm-up. */
  lemma AfterWarmup(times: seq<real>, lag: real, w: real, limit: real, cool: real, steady: seq<real>)
    requires lag < w < limit && Yields(times, w, limit, w, cool, steady)
    ensures Yields([w - lag] + times, lag, limit, w, cool, steady)
  {
    WarmupCall(lag, w, limit, times, LastStart(w, limit, times) - cool);
  }

  lemma {:induction false} CallsMeasured<C>(
    setup: Setup<C>, times: seq<real>, starts: seq<real>, latencies: seq<real>, last: real, steady: seq<real>)
    requires Measures(setup) && |starts| == |latencies| && starts != [] && Latest(starts) == last
    requires starts == CallStarts(setup.lag, setup.config.duration, times)
    requires latencies == CallLatencies(setup.lag, setup.config.duration, times)
    requires steady == SteadyOf(starts, latencies, setup.config.warmup, last - setup.config.cooldown)
    ensures Report(setup, Calls(times), 0.0).latenciesMs == steady
  {
    SplitAt(starts, latencies, setup.config.warmup, setup.config.cooldown, last, steady);
    CallsReported(setup, times, starts, latencies);
  }

  /** The samples of some calls, from which a report takes the steady ones. */
  ghost predicate SampledAs(
    lag: real, limit: real, w: real, cool: real, times: seq<real>, starts: seq<real>, latencies: seq<real>,
    steady: seq<real>)
  {
    && starts == CallStarts(lag, limit, times) && latencies == CallLatencies(lag, limit, times)
    && |starts| == |latencies| && starts != [] && steady == SteadyOf(starts, latencies, w, Latest(starts) - cool)
  }

  lemma {:induction false} YieldsSteady(
    times: seq<real>, lag: real, limit: real, w: real, cool: real, steady: seq<real>)
    returns (starts: seq<real>, latencies: seq<real>)
    requires Yields(times, lag, limit, w, cool, steady) && lag < limit
    ensures SampledAs(lag, limit, w, cool, times, starts, latencies, steady)
  {
    var last := LastStart(lag, limit, times);
    starts, latencies := CallStarts(lag, limit, times), CallLatencies(lag, limit, times);
    LatestStart(lag, limit, times, starts, last);
    SteadyIsCalls(lag, limit, times, w, last - cool, starts, latencies);
  }

  lemma {:induction false} YieldsReported<C>(setup: Setup<C>, times: seq<real>, steady: seq<real>)
    requires Measures(setup)
    requires Yields(times, setup.lag, setup.config.duration, setup.config.warmup, setup.config.cooldown, steady)
    ensures Report(setup, Calls(times), 0.0).latenciesMs == steady
  {
    var starts, latencies :=
      YieldsSteady(times, setup.lag, setup.config.duration, setup.config.warmup, setup.config.cooldown, steady);
    CallsMeasured(setup, times, starts, latencies, Latest(starts), steady);
  }

  /** The steady sample a client reports of its calls, and the figure. */
  lemma {:induction false} Figured<C>(setup: Setup<C>, times: seq<real>, steady: seq<real>)
    requires Measures(setup) && steady != []
    requires Yields(times, setup.lag, setup.config.duration, setup.config.warmup, setup.config.cooldown, steady)
    ensures Report(setup, Calls(times), 0.0).latenciesMs == steady
    ensures ReportedP99(setup, Calls(times)) == Percentile(steady, 99.0).value
  {
    YieldsReported(setup, times, steady);
    FigureOf(setup, Calls(times), steady);
  }

  /** Making one call take longer is slower. */
  lemma OneSlower<C>(lead: seq<real>, x: real, y: real, rest: seq<real>)
    requires x <= y
    ensures Slower(Calls<C>(lead + ([x] + rest)), Calls<C>(lead + ([y] + rest)))
  {
    var a, b := lead + ([x] + rest), lead + ([y] + rest);
    assert forall i | 0 <= i < |a| :: a[i] <= b[i];
  }

  /** In every closed loop that can measure anything, slowing a call can improve the figure,
      with a steady sample in both runs: the slower run does not get to ask the question whose
      answer was slow. Without the open loop the law that slower never looks better fails for
      every such setup. */
  lemma ClosedLoopOmits<C>(setup: Setup<C>) returns (trace: seq<Event<C>>, slow: seq<Event<C>>)
    requires Measures(setup)
    ensures Slower(trace, slow)
    ensures Report(setup, trace, 0.0).latenciesMs != [] && Report(setup, slow, 0.0).latenciesMs != []
    ensures ReportedP99(setup, slow) < ReportedP99(setup, trace)
  {
    var lag, w, limit, cool := setup.lag, setup.config.warmup, setup.config.duration, setup.config.cooldown;
    var at := if lag < w then w else lag;
    var x, y, rest, steady, steady' := SlowedCalls(at, limit, w, cool);
    var lead := if lag < w then [w - lag] else [];
    var times, times' := lead + ([x] + rest), lead + ([y] + rest);
    if lag < w {
      AfterWarmup([x] + rest, lag, w, limit, cool, steady);
      AfterWarmup([y] + rest, lag, w, limit, cool, steady');
    } else {
      assert times == [x] + rest && times' == [y] + rest;
    }
    trace, slow := Calls(times), Calls(times');
    OneSlower<C>(lead, x, y, rest);
    Figured(setup, times, steady);
    Figured(setup, times', steady');
  }
}
