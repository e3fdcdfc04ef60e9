/** One load-generating client: the timed request loop of the concurrency benchmark.

    Everything the loop cannot decide for itself is an `Event`: the arrival gap drawn for
    the request, the time lost before the call starts, the time the engine takes, the time
    spent checking the answer, and how the call ended. A trace of events is one run; a run
    cut short by the end of its trace is a prefix of a longer one.
 */
module LoadLoop {
  import opened Common
  import opened Signature
  import opened Stats

  datatype Outcome<C> = Raised(text: string) | Answered(actual: Sig<C>)

  datatype Event<C> = Event(gap: real, slack: real, service: real, verify: real, outcome: Outcome<C>)

  datatype Request<C> = Request(name: string, expected: Sig<C>)

  /** `rate` is present in an open loop and absent in a closed one. */
  datatype Config = Config(
    clientId: int,
    duration: real,
    warmup: real,
    cooldown: real,
    rate: Option<real>,
    maxConsecutiveErrors: int)

  datatype Setup<C> = Setup(config: Config, requests: seq<Request<C>>, origin: real, lag: real)
  {
    predicate Open() { config.rate.Some? }

    function Deadline(): real { origin + config.duration }

    function RequestFor(k: nat): Request<C>
      requires requests != []
    {
      requests[k % |requests|]
    }
  }

  datatype Loop = Loop(
    clock: real,
    nextArrival: real,
    index: nat,
    consecutive: nat,
    starts: seq<real>,
    latencies: seq<real>,
    errors: seq<ErrorNote>,
    stopped: bool)

  function Start<C>(setup: Setup<C>): Loop {
    Loop(setup.origin + setup.lag, setup.origin, 0, 0, [], [], [], false)
  }

  function Why(v: Verdict): string {
    match v
    case Match => "ok"
    case RowCount => "row count"
    case FirstRows => "first rows differ"
    case LastRows => "last rows differ"
    case Unexplained => "expected"
  }

  /** Request `k` answered, with the fingerprint expected of it. */
  ghost predicate RightAt<C>(setup: Setup<C>, k: nat, ev: Event<C>)
    requires setup.requests != []
  {
    ev.outcome.Answered? && setup.RequestFor(k).expected == ev.outcome.actual
  }

  /** The note request `k` leaves in the error list: one for an exception, one for a
      wrong answer, none for a right one. */
  function NoteOf<C(==)>(setup: Setup<C>, k: nat, ev: Event<C>): (r: seq<ErrorNote>)
    requires setup.requests != []
    ensures |r| <= 1
    ensures r == [] <==> RightAt(setup, k, ev)
  {
    var request := setup.RequestFor(k);
    match ev.outcome
    case Raised(text) => [Exception(request.name, text)]
    case Answered(actual) =>
      var verdict := SignaturesMatch(request.expected, actual);
      if verdict == Match then [] else [WrongAnswer(request.name, Why(verdict))]
  }

  /** One pass through the loop body. */
  function Step<C(==)>(setup: Setup<C>, st: Loop, ev: Event<C>): Loop
    requires setup.requests != []
  {
    var arrival := if setup.Open() then st.nextArrival + ev.gap else st.nextArrival;
    var issued := if setup.Open() then arrival else st.clock;
    if issued >= setup.Deadline() then
      st.(nextArrival := arrival, stopped := true)
    else
      var begin := (if issued > st.clock then issued else st.clock) + ev.slack;
      var finish := begin + ev.service;
      var next := st.(
        clock := finish + ev.verify,
        nextArrival := arrival,
        index := st.index + 1,
        errors := st.errors + NoteOf(setup, st.index, ev));
      if ev.outcome.Raised? then
        next.(consecutive := st.consecutive + 1,
              stopped := st.consecutive + 1 >= setup.config.maxConsecutiveErrors)
      else
        next.(consecutive := 0,
              starts := st.starts + [issued - setup.origin],
              latencies := st.latencies + [(finish - issued) * 1000.0])
  }

  function Run<C(==)>(setup: Setup<C>, st: Loop, trace: seq<Event<C>>): Loop
    requires setup.requests != []
    decreases |trace|
  {
    if trace == [] || st.stopped then st
    else Run(setup, Step(setup, st, trace[0]), trace[1..])
  }

  function SteadySeconds(config: Config): (r: real)
    ensures 0.0 <= r
  {
    var s := config.duration - config.warmup - config.cooldown;
    if s > 0.0 then s else 0.0
  }

  /** The statistics a finished loop is handed off as. */
  function StatsOf(config: Config, st: Loop, rss: real): ClientStats
    requires |st.starts| == |st.latencies|
  {
    var split := SplitOf(st.starts, st.latencies, config.warmup, config.cooldown);
    ClientStats(config.clientId, |st.latencies|, |split.steady|, SteadySeconds(config),
                split.steady, split.warm, rss, st.errors)
  }

  lemma {:induction false} RunAligned<C>(setup: Setup<C>, st: Loop, trace: seq<Event<C>>)
    requires setup.requests != [] && |st.starts| == |st.latencies|
    ensures |Run(setup, st, trace).starts| == |Run(setup, st, trace).latencies|
    decreases |trace|
  {
    if trace != [] && !st.stopped {
      RunAligned(setup, Step(setup, st, trace[0]), trace[1..]);
    }
  }

  /** What one client reports for a whole run. */
  function Report<C(==)>(setup: Setup<C>, trace: seq<Event<C>>, rss: real): ClientStats
    requires setup.requests != []
  {
    RunAligned(setup, Start(setup), trace);
    StatsOf(setup.config, Run(setup, Start(setup), trace), rss)
  }

  lemma RunUnfolds<C>(setup: Setup<C>, st: Loop, trace: seq<Event<C>>, position: nat)
    requires setup.requests != [] && position < |trace| && !st.stopped
    ensures Run(setup, st, trace[position..]) == Run(setup, Step(setup, st, trace[position]), trace[position + 1..])
  {
    assert trace[position..][0] == trace[position] && trace[position..][1..] == trace[position + 1..];
  }

  lemma RunEnds<C>(setup: Setup<C>, st: Loop, trace: seq<Event<C>>)
    requires setup.requests != [] && (trace == [] || st.stopped)
    ensures Run(setup, st, trace) == st
  {
  }

  /** One pass through the loop of `run_client`, over its local variables. */
  method Turn<C(==)>(setup: Setup<C>, st: Loop, ev: Event<C>) returns (after: Loop)
    requires setup.requests != [] && !st.stopped
    ensures after == Step(setup, st, ev)
  {
    var Loop(clock, nextArrival, index, consecutive, starts, latencies, errors, _) := st;
    var issuedAt;
    if setup.config.rate.Some? {
      nextArrival := nextArrival + ev.gap;
      if nextArrival >= setup.Deadline() {
        return Loop(clock, nextArrival, index, consecutive, starts, latencies, errors, true);
      }
      if nextArrival > clock {
        clock := nextArrival;
      }
      issuedAt := nextArrival;
    } else {
      issuedAt := clock;
      if issuedAt >= setup.Deadline() {
        return Loop(clock, nextArrival, index, consecutive, starts, latencies, errors, true);
      }
    }
    errors := errors + NoteOf(setup, index, ev);
    index := index + 1;
    clock := clock + ev.slack + ev.service;
    var elapsed := (clock - issuedAt) * 1000.0;
    clock := clock + ev.verify;
    var giveUp := false;
    if ev.outcome.Answered? {
      starts := starts + [issuedAt - setup.origin];
      latencies := latencies + [elapsed];
      consecutive := 0;
    } else {
      consecutive := consecutive + 1;
      giveUp := consecutive >= setup.config.maxConsecutiveErrors;
    }
    after := Loop(clock, nextArrival, index, consecutive, starts, latencies, errors, giveUp);
  }

  /** The loop of `run_client`, up to the hand-off of its samples. */
  method Drive<C(==)>(setup: Setup<C>, trace: seq<Event<C>>) returns (st: Loop)
    requires setup.requests != []
    ensures st == Run(setup, Start(setup), trace)
    ensures |st.starts| == |st.latencies| <= |trace|
  {
    st := Start(setup);
    var position := 0;
    ghost var final := Run(setup, st, trace);
    assert trace[0..] == trace;
    while position < |trace| && !st.stopped
      invariant 0 <= position <= |trace|
      invariant |st.starts| == |st.latencies| <= position
      invariant final == Run(setup, st, trace[position..])
    {
      RunUnfolds(setup, st, trace, position);
      st := Turn(setup, st, trace[position]);
      position := position + 1;
    }
    RunEnds(setup, st, trace[position..]);
  }

  /** `run_client`. */
  method RunClient<C(==)>(setup: Setup<C>, trace: seq<Event<C>>, rss: real)
    returns (stats: ClientStats)
    requires setup.requests != []
    ensures stats == Report(setup, trace, rss)
    ensures stats.requests <= |trace| && stats.steadyRequests + |stats.coldMs| <= stats.requests
  {
    var st := Drive(setup, trace);
    var split := SteadyState(st.starts, st.latencies, setup.config.warmup, setup.config.cooldown);
    SplitSizes(st.starts, st.latencies, setup.config.warmup, setup.config.cooldown);
    var steadySeconds := setup.config.duration - setup.config.warmup - setup.config.cooldown;
    stats := ClientStats(setup.config.clientId, |st.latencies|, |split.value.steady|,
                         if steadySeconds > 0.0 then steadySeconds else 0.0,
                         split.value.steady, split.value.warm, rss, st.errors);
  }

  lemma SplitSizes(starts: seq<real>, latencies: seq<real>, warmup: real, cooldown: real)
    requires |starts| == |latencies|
    ensures
      var split := SplitOf(starts, latencies, warmup, cooldown);
      |split.warm| + |split.steady| <= |latencies|
  {
    if starts != [] {
      WindowSizes(starts, latencies, warmup, Latest(starts) - cooldown);
    }
  }

  lemma WindowSizes(starts: seq<real>, latencies: seq<real>, warmup: real, cut: real)
    requires |starts| == |latencies|
    ensures |WarmOf(starts, latencies, warmup)| + |SteadyOf(starts, latencies, warmup, cut)| <= |latencies|
  {
    var warm, steady := WarmOf(starts, latencies, warmup), SteadyOf(starts, latencies, warmup, cut);
    var tail := TailOf(starts, latencies, warmup, cut);
    assert multiset(warm) + multiset(steady) + multiset(tail) == multiset(latencies) by {
      WindowsConserve(starts, latencies, warmup, cut);
    }
    ThreeParts(warm, steady, tail, latencies);
  }

  lemma ThreeParts(a: seq<real>, b: seq<real>, c: seq<real>, all: seq<real>)
    requires multiset(a) + multiset(b) + multiset(c) == multiset(all)
    ensures |a| + |b| + |c| == |all|
  {
    var joined := a + b + c;
    assert multiset(joined) == multiset(a + b) + multiset(c) == multiset(all);
    assert |joined| == |multiset(joined)| && |all| == |multiset(all)|;
  }
}
