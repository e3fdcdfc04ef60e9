/** What every run of the load loop keeps, and why its open-loop figures are honest. */
module LoadLaws {
  import opened Common
  import opened Signature
  import opened Stats
  import opened LoadLoop

  function Max(a: real, b: real): (r: real)
    ensures r >= a && r >= b && (r == a || r == b)
  {
    if a > b then a else b
  }

  // --- An independent account of a run ---------------------------------------------

  /** When request `k` was meant to arrive. */
  function ArrivalAt<C>(origin: real, trace: seq<Event<C>>, k: nat): real
    requires k < |trace|
  {
    trace[k].gap + if k == 0 then origin else ArrivalAt(origin, trace, k - 1)
  }

  /** The clock when the loop turns to request `k`. */
  function ClockAt<C>(setup: Setup<C>, trace: seq<Event<C>>, k: nat): real
    requires k <= |trace|
  {
    if k == 0 then setup.origin + setup.lag
    else
      var before := ClockAt(setup, trace, k - 1);
      var issued := if setup.Open() then ArrivalAt(setup.origin, trace, k - 1) else before;
      Max(issued, before) + trace[k - 1].slack + trace[k - 1].service + trace[k - 1].verify
  }

  /** The instant the latency of request `k` is measured from. */
  function IssuedAt<C>(setup: Setup<C>, trace: seq<Event<C>>, k: nat): real
    requires k < |trace|
  {
    if setup.Open() then ArrivalAt(setup.origin, trace, k) else ClockAt(setup, trace, k)
  }

  function FinishAt<C>(setup: Setup<C>, trace: seq<Event<C>>, k: nat): real
    requires k < |trace|
  {
    Max(IssuedAt(setup, trace, k), ClockAt(setup, trace, k)) + trace[k].slack + trace[k].service
  }

  function StartsOf<C>(setup: Setup<C>, trace: seq<Event<C>>, n: nat): seq<real>
    requires n <= |trace|
  {
    if n == 0 then []
    else
      StartsOf(setup, trace, n - 1) +
      if trace[n - 1].outcome.Answered? then [IssuedAt(setup, trace, n - 1) - setup.origin] else []
  }

  function LatenciesOf<C>(setup: Setup<C>, trace: seq<Event<C>>, n: nat): seq<real>
    requires n <= |trace|
  {
    if n == 0 then []
    else
      LatenciesOf(setup, trace, n - 1) +
      if trace[n - 1].outcome.Answered?
      then [(FinishAt(setup, trace, n - 1) - IssuedAt(setup, trace, n - 1)) * 1000.0] else []
  }

  ghost function ErrorsOf<C>(setup: Setup<C>, trace: seq<Event<C>>, n: nat): seq<ErrorNote>
    requires setup.requests != [] && n <= |trace|
  {
    if n == 0 then [] else ErrorsOf(setup, trace, n - 1) + NoteOf(setup, n - 1, trace[n - 1])
  }

  function RaisesUpto<C>(trace: seq<Event<C>>, n: nat): nat
    requires n <= |trace|
  {
    if n == 0 then 0 else RaisesUpto(trace, n - 1) + if trace[n - 1].outcome.Raised? then 1 else 0
  }

  /** Request `k` answered with another fingerprint than its case, `k mod n`, expects. */
  ghost predicate WrongAt<C>(setup: Setup<C>, trace: seq<Event<C>>, k: nat)
    requires setup.requests != [] && k < |trace|
  {
    trace[k].outcome.Answered? && setup.requests[k % |setup.requests|].expected != trace[k].outcome.actual
  }

  /** How many of the first `n` answers differed from the expected fingerprint. */
  ghost function WrongUpto<C>(setup: Setup<C>, trace: seq<Event<C>>, n: nat): nat
    requires setup.requests != [] && n <= |trace|
  {
    if n == 0 then 0 else WrongUpto(setup, trace, n - 1) + if WrongAt(setup, trace, n - 1) then 1 else 0
  }

  /** The requests that raised or answered wrongly, in order. */
  ghost function FaultsUpto<C>(setup: Setup<C>, trace: seq<Event<C>>, n: nat): (r: seq<nat>)
    requires setup.requests != [] && n <= |trace|
    ensures forall i | 0 <= i < |r| :: r[i] < n && (trace[r[i]].outcome.Raised? || WrongAt(setup, trace, r[i]))
    ensures forall k | 0 <= k < n && (trace[k].outcome.Raised? || WrongAt(setup, trace, k)) :: k in r
  {
    if n == 0 then []
    else
      FaultsUpto(setup, trace, n - 1)
      + if trace[n - 1].outcome.Raised? || WrongAt(setup, trace, n - 1) then [n - 1] else []
  }

  /** What the note left by request `k` says: the case, and the exception's text or the first
      part in which the fingerprints differ. */
  ghost predicate Explains<C>(setup: Setup<C>, trace: seq<Event<C>>, k: nat, note: ErrorNote)
    requires setup.requests != [] && k < |trace|
  {
    var request := setup.requests[k % |setup.requests|];
    match trace[k].outcome
    case Raised(text) => note == Exception(request.name, text)
    case Answered(actual) =>
      && note.WrongAnswer? && note.name == request.name
      && (request.expected.count != actual.count ==> note.why == "row count")
      && (request.expected.count == actual.count && request.expected.head != actual.head ==>
            note.why == "first rows differ")
      && (request.expected.count == actual.count && request.expected.head == actual.head ==>
            note.why == "last rows differ")
  }

  /** The notes explain the faults, one by one and in order. */
  ghost predicate AllExplained<C>(setup: Setup<C>, trace: seq<Event<C>>, faults: seq<nat>, notes: seq<ErrorNote>) {
    && setup.requests != [] && |faults| == |notes|
    && forall i | 0 <= i < |notes| :: faults[i] < |trace| && Explains(setup, trace, faults[i], notes[i])
  }

  lemma ExplainedSnoc<C>(
    setup: Setup<C>, trace: seq<Event<C>>, faults: seq<nat>, notes: seq<ErrorNote>, k: nat, note: seq<ErrorNote>)
    requires AllExplained(setup, trace, faults, notes) && k < |trace|
    requires |note| <= 1 && (note != [] ==> Explains(setup, trace, k, note[0]))
    ensures AllExplained(setup, trace, faults + (if note == [] then [] else [k]), notes + note)
  {
  }

  lemma {:induction false} FaultsExplained<C>(setup: Setup<C>, trace: seq<Event<C>>, n: nat)
    requires setup.requests != [] && n <= |trace|
    ensures AllExplained(setup, trace, FaultsUpto(setup, trace, n), ErrorsOf(setup, trace, n))
  {
    if n > 0 {
      FaultsExplained(setup, trace, n - 1);
      NoteExplains(setup, trace, n - 1);
      ExplainedSnoc(setup, trace, FaultsUpto(setup, trace, n - 1), ErrorsOf(setup, trace, n - 1), n - 1,
                    NoteOf(setup, n - 1, trace[n - 1]));
    }
  }

  lemma NoteExplains<C>(setup: Setup<C>, trace: seq<Event<C>>, k: nat)
    requires setup.requests != [] && k < |trace|
    ensures
      var note := NoteOf(setup, k, trace[k]);
      && (note == [] <==> !trace[k].outcome.Raised? && !WrongAt(setup, trace, k))
      && (note != [] ==> |note| == 1 && Explains(setup, trace, k, note[0]))
  {
  }

  /** So the reported errors are exactly the exceptions and the wrong answers of the requests
      that were issued, each explained. */
  lemma ErrorsExplained<C>(setup: Setup<C>, trace: seq<Event<C>>, fin: Loop)
    requires setup.requests != [] && fin == Run(setup, Start(setup), trace)
    ensures fin.index <= |trace| && AllExplained(setup, trace, FaultsUpto(setup, trace, fin.index), fin.errors)
  {
    EveryRunAccounts(setup, trace, fin);
    FaultsExplained(setup, trace, fin.index);
  }

  /** The length of the run of exceptions that ends at request `n`. */
  function TrailingRaises<C>(trace: seq<Event<C>>, n: nat): nat
    requires n <= |trace|
  {
    if n == 0 || trace[n - 1].outcome.Answered? then 0 else 1 + TrailingRaises(trace, n - 1)
  }

  /** The clock and the schedule agree with the account. */
  ghost predicate OnTime<C>(setup: Setup<C>, trace: seq<Event<C>>, st: Loop) {
    && st.index <= |trace|
    && st.clock == ClockAt(setup, trace, st.index)
    && (setup.Open() && !st.stopped ==>
          st.nextArrival == if st.index == 0 then setup.origin else ArrivalAt(setup.origin, trace, st.index - 1))
  }

  /** Every issued request was issued before the deadline. */
  ghost predicate InTime<C>(setup: Setup<C>, trace: seq<Event<C>>, st: Loop) {
    && st.index <= |trace|
    && forall k | 0 <= k < st.index :: IssuedAt(setup, trace, k) < setup.Deadline()
  }

  /** The samples are those of the requests that answered. */
  ghost predicate Sampled<C>(setup: Setup<C>, trace: seq<Event<C>>, st: Loop) {
    && st.index <= |trace|
    && st.starts == StartsOf(setup, trace, st.index)
    && st.latencies == LatenciesOf(setup, trace, st.index)
  }

  ghost predicate Noted<C>(setup: Setup<C>, trace: seq<Event<C>>, st: Loop) {
    && setup.requests != [] && st.index <= |trace|
    && st.errors == ErrorsOf(setup, trace, st.index)
  }

  /** The failure counter is the trailing run of raises, below its cap while the loop
      goes on and never past it. */
  ghost predicate Counted<C>(config: Config, trace: seq<Event<C>>, st: Loop) {
    && st.index <= |trace|
    && st.consecutive == TrailingRaises(trace, st.index)
    && (st.consecutive <= 1 || st.consecutive <= config.maxConsecutiveErrors)
    && (!st.stopped && st.consecutive > 0 ==> st.consecutive < config.maxConsecutiveErrors)
  }

  ghost predicate Accounts<C>(setup: Setup<C>, trace: seq<Event<C>>, st: Loop) {
    && OnTime(setup, trace, st) && InTime(setup, trace, st) && Sampled(setup, trace, st)
    && Noted(setup, trace, st) && Counted(setup.config, trace, st)
  }

  lemma {:induction false} StepOnTime<C>(setup: Setup<C>, trace: seq<Event<C>>, st: Loop, next: Loop)
    requires setup.requests != []
    requires OnTime(setup, trace, st) && st.index < |trace| && !st.stopped
    requires next == Step(setup, st, trace[st.index])
    ensures OnTime(setup, trace, next)
    ensures st.index <= next.index <= st.index + 1
    ensures next.index == st.index + 1 <==> IssuedAt(setup, trace, st.index) < setup.Deadline()
    ensures next.index == st.index ==> next == st.(nextArrival := next.nextArrival, stopped := true)
  {
    IssuedNow(setup, trace, st);
  }

  lemma IssuedNow<C>(setup: Setup<C>, trace: seq<Event<C>>, st: Loop)
    requires OnTime(setup, trace, st) && st.index < |trace| && !st.stopped
    ensures IssuedAt(setup, trace, st.index) == if setup.Open() then st.nextArrival + trace[st.index].gap else st.clock
  {
  }

  lemma {:induction false} StepSampled<C>(setup: Setup<C>, trace: seq<Event<C>>, st: Loop, next: Loop)
    requires setup.requests != []
    requires OnTime(setup, trace, st) && Sampled(setup, trace, st) && st.index < |trace| && !st.stopped
    requires next == Step(setup, st, trace[st.index]) && next.index == st.index + 1
    ensures Sampled(setup, trace, next)
  {
    IssuedNow(setup, trace, st);
  }

  lemma {:induction false} StepTallied<C>(setup: Setup<C>, trace: seq<Event<C>>, st: Loop, next: Loop)
    requires Noted(setup, trace, st) && Counted(setup.config, trace, st) && st.index < |trace| && !st.stopped
    requires next == Step(setup, st, trace[st.index]) && next.index == st.index + 1
    ensures Noted(setup, trace, next) && Counted(setup.config, trace, next)
  {
  }

  lemma {:induction false} StepAccounts<C>(setup: Setup<C>, trace: seq<Event<C>>, st: Loop, next: Loop)
    requires Accounts(setup, trace, st) && st.index < |trace| && !st.stopped
    requires next == Step(setup, st, trace[st.index])
    ensures Accounts(setup, trace, next) && (next.stopped || next.index == st.index + 1)
  {
    StepOnTime(setup, trace, st, next);
    if next.index == st.index + 1 {
      StepSampled(setup, trace, st, next);
      StepTallied(setup, trace, st, next);
    }
  }

  /** The state a run that has reached `st` ends in. */
  ghost function Final<C>(setup: Setup<C>, trace: seq<Event<C>>, st: Loop): Loop
    requires setup.requests != [] && st.index <= |trace|
  {
    Run(setup, st, trace[st.index..])
  }

  lemma {:induction false} RunAccounts<C>(setup: Setup<C>, trace: seq<Event<C>>, st: Loop)
    requires Accounts(setup, trace, st) && !st.stopped
    ensures Accounts(setup, trace, Final(setup, trace, st))
    ensures Final(setup, trace, st).stopped || Final(setup, trace, st).index == |trace|
    decreases |trace| - st.index
  {
    if st.index < |trace| {
      var next := Step(setup, st, trace[st.index]);
      StepAccounts(setup, trace, st, next);
      RunUnfolds(setup, st, trace, st.index);
      if next.stopped {
        RunEnds(setup, next, trace[st.index + 1..]);
        assert Final(setup, trace, st) == next;
      } else {
        assert Final(setup, trace, st) == Final(setup, trace, next);
        RunAccounts(setup, trace, next);
      }
    } else {
      RunEnds(setup, st, trace[st.index..]);
      assert Final(setup, trace, st) == st;
    }
  }

  // --- When the loop ends ----------------------------------------------------------

  /** Request `n` would be issued at the end of the run or later. */
  ghost predicate OutOfTime<C>(setup: Setup<C>, trace: seq<Event<C>>, n: nat) {
    n < |trace| && IssuedAt(setup, trace, n) >= setup.origin + setup.config.duration
  }

  /** The last requests before `n` all raised, as many of them as the cap says, and at least
      one. */
  ghost predicate GaveUp<C>(setup: Setup<C>, trace: seq<Event<C>>, n: nat) {
    var cap := if setup.config.maxConsecutiveErrors > 1 then setup.config.maxConsecutiveErrors else 1;
    cap <= n <= |trace| && forall k | n - cap <= k < n :: trace[k].outcome.Raised?
  }

  lemma {:induction false} TrailingMeans<C>(trace: seq<Event<C>>, n: nat, m: nat)
    requires n <= |trace|
    ensures TrailingRaises(trace, n) <= n
    ensures m <= n ==> (m <= TrailingRaises(trace, n) <==> forall k | n - m <= k < n :: trace[k].outcome.Raised?)
  {
    if n > 0 && m > 0 {
      TrailingMeans(trace, n - 1, m - 1);
      if m <= n && forall k | n - m <= k < n :: trace[k].outcome.Raised? {
        assert trace[n - 1].outcome.Raised?;
      }
    } else if n > 0 {
      TrailingMeans(trace, n - 1, 0);
    }
  }

  lemma GaveUpMeans<C>(setup: Setup<C>, trace: seq<Event<C>>, n: nat)
    requires n <= |trace|
    ensures GaveUp(setup, trace, n) <==>
            TrailingRaises(trace, n) >= 1 && TrailingRaises(trace, n) >= setup.config.maxConsecutiveErrors
  {
    TrailingMeans(trace, n, if setup.config.maxConsecutiveErrors > 1 then setup.config.maxConsecutiveErrors else 1);
  }

  /** One step ends the loop exactly where the trace says so. */
  lemma {:induction false} StepStops<C>(setup: Setup<C>, trace: seq<Event<C>>, st: Loop, next: Loop)
    requires Accounts(setup, trace, st) && st.index < |trace| && !st.stopped && !GaveUp(setup, trace, st.index)
    requires next == Step(setup, st, trace[st.index])
    ensures next.index == st.index <==> OutOfTime(setup, trace, st.index)
    ensures next.index == st.index ==> next.stopped
    ensures next.index == st.index + 1 ==> (next.stopped <==> GaveUp(setup, trace, next.index))
  {
    StepOnTime(setup, trace, st, next);
    if next.index == st.index + 1 {
      GaveUpMeans(setup, trace, next.index);
    }
  }

  lemma {:induction false} RunStops<C>(setup: Setup<C>, trace: seq<Event<C>>, st: Loop, fin: Loop)
    requires Accounts(setup, trace, st) && !st.stopped && !GaveUp(setup, trace, st.index)
    requires fin == Final(setup, trace, st)
    ensures st.index <= fin.index <= |trace|
    ensures fin.stopped <==> OutOfTime(setup, trace, fin.index) || GaveUp(setup, trace, fin.index)
    ensures !fin.stopped ==> fin.index == |trace|
    ensures forall n | st.index <= n < fin.index :: !OutOfTime(setup, trace, n) && !GaveUp(setup, trace, n)
    decreases |trace| - st.index
  {
    if st.index < |trace| {
      var next := Step(setup, st, trace[st.index]);
      StepAccounts(setup, trace, st, next);
      StepStops(setup, trace, st, next);
      RunUnfolds(setup, st, trace, st.index);
      if next.stopped {
        RunEnds(setup, next, trace[st.index + 1..]);
      } else {
        RunStops(setup, trace, next, fin);
      }
    } else {
      RunEnds(setup, st, trace[st.index..]);
    }
  }

  /** Over every trace the loop issues the requests before the first one that would come at
      the end of the run or later, or after as many exceptions in a row as the cap says, and
      it is stopped exactly there; a run that is not stopped has issued every request. */
  lemma StopsExactly<C>(setup: Setup<C>, trace: seq<Event<C>>, fin: Loop)
    requires setup.requests != [] && fin == Run(setup, Start(setup), trace)
    ensures fin.index <= |trace|
    ensures fin.stopped <==> OutOfTime(setup, trace, fin.index) || GaveUp(setup, trace, fin.index)
    ensures !fin.stopped ==> fin.index == |trace|
    ensures forall n | 0 <= n < fin.index :: !OutOfTime(setup, trace, n) && !GaveUp(setup, trace, n)
  {
    assert trace[0..] == trace;
    assert Final(setup, trace, Start(setup)) == fin;
    RunStops(setup, trace, Start(setup), fin);
  }

  lemma {:induction false} SampleCounts<C>(setup: Setup<C>, trace: seq<Event<C>>, n: nat)
    requires n <= |trace|
    ensures |StartsOf(setup, trace, n)| == |LatenciesOf(setup, trace, n)|
    ensures n == |LatenciesOf(setup, trace, n)| + RaisesUpto(trace, n)
  {
    if n > 0 {
      SampleCounts(setup, trace, n - 1);
    }
  }

  lemma {:induction false} ErrorCounts<C>(setup: Setup<C>, trace: seq<Event<C>>, n: nat)
    requires setup.requests != [] && n <= |trace|
    ensures |ErrorsOf(setup, trace, n)| == RaisesUpto(trace, n) + WrongUpto(setup, trace, n)
  {
    if n > 0 {
      ErrorCounts(setup, trace, n - 1);
    }
  }

  lemma Counts<C>(setup: Setup<C>, trace: seq<Event<C>>, n: nat)
    requires setup.requests != [] && n <= |trace|
    ensures |StartsOf(setup, trace, n)| == |LatenciesOf(setup, trace, n)|
    ensures n == |LatenciesOf(setup, trace, n)| + RaisesUpto(trace, n)
    ensures |ErrorsOf(setup, trace, n)| == RaisesUpto(trace, n) + WrongUpto(setup, trace, n)
  {
    SampleCounts(setup, trace, n);
    ErrorCounts(setup, trace, n);
  }

  /** Every run, however it ends, adds up: the samples are exactly those of the requests
      that answered, each measured from the instant it was issued and issued before the
      deadline; every issued request was recorded or raised; the errors are the raises
      plus the wrong answers, in request order and under the name of case
      `k mod |requests|`; the failure counter is the trailing run of raises and never
      passes its cap. */
  lemma {:induction false} EveryRunAccounts<C>(setup: Setup<C>, trace: seq<Event<C>>, fin: Loop)
    requires setup.requests != []
    requires fin == Run(setup, Start(setup), trace)
    ensures Accounts(setup, trace, fin)
    ensures fin.stopped || fin.index == |trace|
    ensures |fin.starts| == |fin.latencies|
    ensures fin.index == |fin.latencies| + RaisesUpto(trace, fin.index)
    ensures |fin.errors| == RaisesUpto(trace, fin.index) + WrongUpto(setup, trace, fin.index)
  {
    assert trace[0..] == trace;
    assert Final(setup, trace, Start(setup)) == fin;
    RunAccounts(setup, trace, Start(setup));
    Counts(setup, trace, fin.index);
  }

  // --- What a report says of its run -------------------------------------------------

  /** The answered requests among the first `n`, in order. */
  ghost function AnsweredUpto<C>(trace: seq<Event<C>>, n: nat): (r: seq<nat>)
    requires n <= |trace|
    ensures Increasing(r) && forall k: nat :: k in r <==> k < n && trace[k].outcome.Answered?
  {
    if n == 0 then []
    else
      var front := AnsweredUpto(trace, n - 1);
      assert forall i | 0 <= i < |front| :: front[i] in front;
      assert forall k: nat :: k in front + [n - 1] <==> k in front || k == n - 1;
      front + if trace[n - 1].outcome.Answered? then [n - 1] else []
  }

  /** How long request `k` took, in milliseconds, from the instant it was issued. */
  ghost function Took<C>(setup: Setup<C>, trace: seq<Event<C>>, k: nat): real
    requires k < |trace|
  {
    (FinishAt(setup, trace, k) - IssuedAt(setup, trace, k)) * 1000.0
  }

  /** Request `k` answered and was issued in the warm-up. */
  ghost predicate IsCold<C>(setup: Setup<C>, trace: seq<Event<C>>, n: nat, k: nat) {
    && k < n <= |trace| && trace[k].outcome.Answered?
    && IssuedAt(setup, trace, k) - setup.origin < setup.config.warmup
  }

  /** Request `k` answered, was issued after the warm-up, and at least the cool-down before
      some other that answered. */
  ghost predicate IsSteady<C>(setup: Setup<C>, trace: seq<Event<C>>, n: nat, k: nat) {
    && k < n <= |trace| && trace[k].outcome.Answered?
    && IssuedAt(setup, trace, k) - setup.origin >= setup.config.warmup
    && LaterOneAnswered(setup, trace, n, k)
  }

  ghost predicate LaterOneAnswered<C>(setup: Setup<C>, trace: seq<Event<C>>, n: nat, k: nat)
    requires k < n <= |trace|
  {
    exists j | 0 <= j < n && trace[j].outcome.Answered? ::
      IssuedAt(setup, trace, k) + setup.config.cooldown <= IssuedAt(setup, trace, j)
  }

  /** The times of these requests, in order. */
  ghost predicate TimesOf<C>(setup: Setup<C>, trace: seq<Event<C>>, ks: seq<nat>, times: seq<real>) {
    && |times| == |ks| && Increasing(ks)
    && forall i | 0 <= i < |ks| :: ks[i] < |trace| && times[i] == Took(setup, trace, ks[i])
  }

  ghost predicate ColdRequests<C>(setup: Setup<C>, trace: seq<Event<C>>, n: nat, ks: seq<nat>) {
    forall k: nat :: k in ks <==> IsCold(setup, trace, n, k)
  }

  ghost predicate SteadyRequests<C>(setup: Setup<C>, trace: seq<Event<C>>, n: nat, ks: seq<nat>) {
    forall k: nat :: k in ks <==> IsSteady(setup, trace, n, k)
  }

  /** The two lists of times are those of all cold and of all steady requests. */
  ghost predicate ReportsWindow<C>(
    setup: Setup<C>, trace: seq<Event<C>>, n: nat, cold: seq<nat>, steady: seq<nat>, c: ClientStats)
  {
    && ColdRequests(setup, trace, n, cold) && TimesOf(setup, trace, cold, c.coldMs)
    && SteadyRequests(setup, trace, n, steady) && TimesOf(setup, trace, steady, c.latenciesMs)
  }

  lemma {:induction false} SamplesAre<C>(setup: Setup<C>, trace: seq<Event<C>>, n: nat)
    requires n <= |trace|
    ensures
      var ks := AnsweredUpto(trace, n);
      && |StartsOf(setup, trace, n)| == |LatenciesOf(setup, trace, n)| == |ks|
      && forall i | 0 <= i < |ks| ::
        && ks[i] < |trace|
        && StartsOf(setup, trace, n)[i] == IssuedAt(setup, trace, ks[i]) - setup.origin
        && LatenciesOf(setup, trace, n)[i] == Took(setup, trace, ks[i])
  {
    if n > 0 {
      SamplesAre(setup, trace, n - 1);
      var front, ks := AnsweredUpto(trace, n - 1), AnsweredUpto(trace, n);
      assert forall i | 0 <= i < |front| :: ks[i] == front[i];
    }
  }

  ghost function TookIn<C>(setup: Setup<C>, trace: seq<Event<C>>): nat -> real {
    (k: nat) => if k < |trace| then Took(setup, trace, k) else 0.0
  }

  /** What a mask over the samples selects of the requests. */
  lemma MaskedTimes<C>(setup: Setup<C>, trace: seq<Event<C>>, n: nat, mask: seq<bool>)
    requires n <= |trace| && |mask| == |AnsweredUpto(trace, n)|
    ensures |LatenciesOf(setup, trace, n)| == |mask|
    ensures TimesOf(setup, trace, Keep<nat>(mask, AnsweredUpto(trace, n)), Keep(mask, LatenciesOf(setup, trace, n)))
  {
    var ks := AnsweredUpto(trace, n);
    SamplesAre(setup, trace, n);
    KeepsIncreasing(mask, ks);
    KeepsBeside<nat, real>(mask, ks, LatenciesOf(setup, trace, n), TookIn(setup, trace));
    var kept := Keep<nat>(mask, ks);
    forall i | 0 <= i < |kept| ensures kept[i] < |trace| {
      KeepsFlagged<nat>(mask, ks, kept[i]);
      assert kept[i] in kept;
      var j :| 0 <= j < |ks| && ks[j] == kept[i];
      assert ks[j] in ks;
    }
  }

  lemma WarmPositions<C>(setup: Setup<C>, trace: seq<Event<C>>, n: nat, starts: seq<real>, k: nat)
    requires n <= |trace| && starts == StartsOf(setup, trace, n) && |starts| == |AnsweredUpto(trace, n)|
    ensures k in Keep<nat>(WarmMask(starts, setup.config.warmup), AnsweredUpto(trace, n))
       <==> IsCold(setup, trace, n, k)
  {
    var ks, mask := AnsweredUpto(trace, n), WarmMask(starts, setup.config.warmup);
    SamplesAre(setup, trace, n);
    KeepsFlagged<nat>(mask, ks, k);
    if IsCold(setup, trace, n, k) {
      var i :| 0 <= i < |ks| && ks[i] == k;
      assert mask[i];
    }
    if i :| 0 <= i < |ks| && mask[i] && ks[i] == k {
      assert ks[i] in ks;
    }
  }

  /** Being the cool-down before the latest start is being it before some start. */
  lemma BeforeLatest<C>(setup: Setup<C>, trace: seq<Event<C>>, n: nat, starts: seq<real>, k: nat)
    requires n <= |trace| && starts == StartsOf(setup, trace, n) && |starts| == |AnsweredUpto(trace, n)|
    requires starts != [] && k < n
    ensures IssuedAt(setup, trace, k) - setup.origin <= Latest(starts) - setup.config.cooldown <==>
      LaterOneAnswered(setup, trace, n, k)
  {
    var ks, last := AnsweredUpto(trace, n), Latest(starts);
    SamplesAre(setup, trace, n);
    var i :| 0 <= i < |starts| && starts[i] == last;
    assert ks[i] in ks;
    forall j | 0 <= j < n && trace[j].outcome.Answered? ensures IssuedAt(setup, trace, j) - setup.origin <= last {
      var i' :| 0 <= i' < |ks| && ks[i'] == j;
      assert starts[i'] in starts;
    }
  }

  lemma SteadyPositions<C>(
    setup: Setup<C>, trace: seq<Event<C>>, n: nat, starts: seq<real>, mask: seq<bool>, ks: seq<nat>, k: nat)
    requires n <= |trace| && starts == StartsOf(setup, trace, n) && starts != []
    requires ks == AnsweredUpto(trace, n) && |starts| == |mask| == |ks|
    requires mask == SteadyMask(starts, setup.config.warmup, Latest(starts) - setup.config.cooldown)
    ensures k in Keep<nat>(mask, ks) <==> IsSteady(setup, trace, n, k)
  {
    KeepsFlagged<nat>(mask, ks, k);
    if k in Keep<nat>(mask, ks) {
      var i :| 0 <= i < |ks| && mask[i] && ks[i] == k;
      SteadyAt(setup, trace, n, starts, mask, ks, i);
    }
    if IsSteady(setup, trace, n, k) {
      var i :| 0 <= i < |ks| && ks[i] == k;
      SteadyAt(setup, trace, n, starts, mask, ks, i);
    }
  }

  lemma SteadyAt<C>(
    setup: Setup<C>, trace: seq<Event<C>>, n: nat, starts: seq<real>, mask: seq<bool>, ks: seq<nat>, i: nat)
    requires n <= |trace| && starts == StartsOf(setup, trace, n) && i < |starts|
    requires ks == AnsweredUpto(trace, n) && |starts| == |mask| == |ks|
    requires mask == SteadyMask(starts, setup.config.warmup, Latest(starts) - setup.config.cooldown)
    ensures mask[i] <==> IsSteady(setup, trace, n, ks[i])
  {
    SamplesAre(setup, trace, n);
    assert ks[i] in ks;
    BeforeLatest(setup, trace, n, starts, ks[i]);
  }

  lemma ColdReported<C>(setup: Setup<C>, trace: seq<Event<C>>, n: nat, starts: seq<real>, ks: seq<nat>, cold: seq<nat>)
    requires n <= |trace| && starts == StartsOf(setup, trace, n)
    requires ks == AnsweredUpto(trace, n) && |starts| == |ks|
    requires cold == Keep<nat>(WarmMask(starts, setup.config.warmup), ks)
    ensures ColdRequests(setup, trace, n, cold)
    ensures |LatenciesOf(setup, trace, n)| == |starts|
    ensures TimesOf(setup, trace, cold, WarmOf(starts, LatenciesOf(setup, trace, n), setup.config.warmup))
  {
    MaskedTimes(setup, trace, n, WarmMask(starts, setup.config.warmup));
    forall k: nat ensures k in cold <==> IsCold(setup, trace, n, k) {
      WarmPositions(setup, trace, n, starts, k);
    }
  }

  lemma SteadyReported<C>(
    setup: Setup<C>, trace: seq<Event<C>>, n: nat, starts: seq<real>, ks: seq<nat>, steady: seq<nat>)
    requires n <= |trace| && starts == StartsOf(setup, trace, n) && starts != []
    requires ks == AnsweredUpto(trace, n) && |starts| == |ks|
    requires steady == Keep<nat>(SteadyMask(starts, setup.config.warmup, Latest(starts) - setup.config.cooldown), ks)
    ensures SteadyRequests(setup, trace, n, steady)
    ensures |LatenciesOf(setup, trace, n)| == |starts|
    ensures TimesOf(setup, trace, steady, SteadyOf(starts, LatenciesOf(setup, trace, n), setup.config.warmup,
                                                   Latest(starts) - setup.config.cooldown))
  {
    var mask := SteadyMask(starts, setup.config.warmup, Latest(starts) - setup.config.cooldown);
    MaskedTimes(setup, trace, n, mask);
    forall k: nat ensures k in steady <==> IsSteady(setup, trace, n, k) {
      SteadyPositions(setup, trace, n, starts, mask, ks, k);
    }
  }

  lemma NothingReported<C>(setup: Setup<C>, trace: seq<Event<C>>, n: nat)
    requires n <= |trace| && AnsweredUpto(trace, n) == []
    ensures ColdRequests(setup, trace, n, []) && SteadyRequests(setup, trace, n, [])
    ensures TimesOf(setup, trace, [], [])
  {
    forall k: nat ensures !IsCold(setup, trace, n, k) && !IsSteady(setup, trace, n, k) {
      assert k !in AnsweredUpto(trace, n);
    }
  }

  lemma SomeReported<C>(
    setup: Setup<C>, trace: seq<Event<C>>, n: nat, starts: seq<real>, latencies: seq<real>, c: ClientStats)
    returns (cold: seq<nat>, steady: seq<nat>)
    requires n <= |trace| && starts == StartsOf(setup, trace, n) && latencies == LatenciesOf(setup, trace, n)
    requires |starts| == |latencies| == |AnsweredUpto(trace, n)| && starts != []
    requires c.coldMs == WarmOf(starts, latencies, setup.config.warmup)
    requires
      c.latenciesMs == SteadyOf(starts, latencies, setup.config.warmup, Latest(starts) - setup.config.cooldown)
    ensures ReportsWindow(setup, trace, n, cold, steady, c)
  {
    var ks := AnsweredUpto(trace, n);
    cold := Keep<nat>(WarmMask(starts, setup.config.warmup), ks);
    ColdReported(setup, trace, n, starts, ks, cold);
    steady := Keep<nat>(SteadyMask(starts, setup.config.warmup, Latest(starts) - setup.config.cooldown), ks);
    SteadyReported(setup, trace, n, starts, ks, steady);
  }

  lemma NoneReported<C>(setup: Setup<C>, trace: seq<Event<C>>, n: nat, c: ClientStats)
    requires n <= |trace| && AnsweredUpto(trace, n) == [] && c.coldMs == [] && c.latenciesMs == []
    ensures ReportsWindow(setup, trace, n, [], [], c)
  {
    NothingReported(setup, trace, n);
  }

  /** The selections a report is made of. */
  lemma WindowReported<C>(
    setup: Setup<C>, trace: seq<Event<C>>, n: nat, starts: seq<real>, latencies: seq<real>, c: ClientStats)
    returns (cold: seq<nat>, steady: seq<nat>)
    requires n <= |trace| && starts == StartsOf(setup, trace, n) && latencies == LatenciesOf(setup, trace, n)
    requires |starts| == |latencies|
    requires Split(c.coldMs, c.latenciesMs)
          == SplitOf(starts, latencies, setup.config.warmup, setup.config.cooldown)
    ensures ReportsWindow(setup, trace, n, cold, steady, c)
  {
    assert |starts| == |AnsweredUpto(trace, n)| by {
      SamplesAre(setup, trace, n);
    }
    if starts == [] {
      cold, steady := [], [];
      NoneReported(setup, trace, n, c);
    } else {
      cold, steady := SomeReported(setup, trace, n, starts, latencies, c);
    }
  }

  /** What every report says of its run: the cold and the steady figures are the times of
      the answered requests in their windows, in order; every answered request is counted,
      and every error listed. */
  lemma ReportMeans<C>(setup: Setup<C>, trace: seq<Event<C>>, rss: real, fin: Loop, c: ClientStats)
    returns (cold: seq<nat>, steady: seq<nat>)
    requires setup.requests != [] && fin == Run(setup, Start(setup), trace) && c == Report(setup, trace, rss)
    ensures fin.index <= |trace| && ReportsWindow(setup, trace, fin.index, cold, steady, c)
    ensures c.requests + RaisesUpto(trace, fin.index) == fin.index && c.steadyRequests == |steady|
    ensures c.errors == fin.errors && c.clientId == setup.config.clientId && c.rssPeakMb == rss
    ensures c.steadySeconds == Max(0.0, setup.config.duration - setup.config.warmup - setup.config.cooldown)
  {
    EveryRunAccounts(setup, trace, fin);
    cold, steady := WindowReported(setup, trace, fin.index, fin.starts, fin.latencies, c);
  }

  // --- Every answer is checked -----------------------------------------------------

  lemma {:induction false} NoErrorsMeansAllRight<C>(setup: Setup<C>, trace: seq<Event<C>>, n: nat, k: nat)
    requires setup.requests != [] && k < n <= |trace|
    requires |ErrorsOf(setup, trace, n)| == 0
    ensures RightAt(setup, k, trace[k])
  {
    if k < n - 1 {
      NoErrorsMeansAllRight(setup, trace, n - 1, k);
    }
  }

  /** An error-free run proves every answer it received. When the expected fingerprints
      were taken from `oracle` and request `k` returned `answers[k]`, each answer has as
      many rows as its oracle result, and up to ten rows it is the oracle result, as a
      multiset of canonical rows. */
  lemma {:induction false} ErrorFreeRunIsCorrect<V(!new), C(!new)>(
    codec: Codec<V, C>, setup: Setup<C>, oracle: seq<Table<V>>, answers: seq<Table<V>>,
    trace: seq<Event<C>>, fin: Loop, k: nat)
    requires setup.requests != [] && Faithful(codec)
    requires |oracle| == |setup.requests| && |answers| == |trace|
    requires forall i | 0 <= i < |oracle| ::
      Valid(oracle[i]) && setup.requests[i].expected == ResultSignature(codec, oracle[i])
    requires forall i | 0 <= i < |trace| && trace[i].outcome.Answered? ::
      Valid(answers[i]) && trace[i].outcome.actual == ResultSignature(codec, answers[i])
    requires fin == Run(setup, Start(setup), trace)
    requires fin.errors == [] && k < fin.index
    ensures fin.index <= |trace| && trace[k].outcome.Answered?
    ensures answers[k].numRows == oracle[k % |oracle|].numRows
    ensures answers[k].numRows <= 10 ==>
      multiset(CanonRows(codec.canon, answers[k])) == multiset(CanonRows(codec.canon, oracle[k % |oracle|]))
  {
    EveryRunAccounts(setup, trace, fin);
    NoErrorsMeansAllRight(setup, trace, fin.index, k);
    SameFingerprint(codec, answers[k], oracle[k % |oracle|]);
  }

  lemma SameFingerprint<V(!new), C(!new)>(codec: Codec<V, C>, got: Table<V>, right: Table<V>)
    requires Faithful(codec) && Valid(got) && Valid(right)
    requires ResultSignature(codec, got) == ResultSignature(codec, right)
    ensures got.numRows == right.numRows
    ensures got.numRows <= 10 ==>
      multiset(CanonRows(codec.canon, got)) == multiset(CanonRows(codec.canon, right))
  {
    assert ResultSignature(codec, got).count == got.numRows;
    assert ResultSignature(codec, right).count == right.numRows;
    if got.numRows <= 10 {
      SignatureLossless(codec, got, right);
    }
  }

  // --- Open loop: the whole backlog is in the latency ------------------------------

  /** The time the client is kept busy by requests `j` to `k`, up to the answer of `k`. */
  function Work<C>(trace: seq<Event<C>>, j: nat, k: nat): real
    requires j <= k < |trace|
    decreases k
  {
    if j == k then trace[k].slack + trace[k].service
    else Work(trace, j, k - 1) + trace[k - 1].verify + trace[k].slack + trace[k].service
  }

  /** However early request `j` was due, all the work since then delays request `k`. */
  lemma {:induction false} BacklogIsCounted<C>(setup: Setup<C>, trace: seq<Event<C>>, j: nat, k: nat)
    requires setup.Open() && j <= k < |trace|
    ensures FinishAt(setup, trace, k) >= ArrivalAt(setup.origin, trace, j) + Work(trace, j, k)
    decreases k
  {
    if j < k {
      BacklogIsCounted(setup, trace, j, k - 1);
    }
  }

  /** And nothing else does: the finish time is the arrival of some request, or the start
      of the run, plus exactly the work since. */
  lemma {:induction false} BacklogIsExact<C>(setup: Setup<C>, trace: seq<Event<C>>, k: nat) returns (j: nat)
    requires setup.Open() && k < |trace|
    ensures j <= k
    ensures FinishAt(setup, trace, k) == ArrivalAt(setup.origin, trace, j) + Work(trace, j, k)
         || FinishAt(setup, trace, k) == setup.origin + setup.lag + Work(trace, 0, k)
    decreases k
  {
    if ArrivalAt(setup.origin, trace, k) > ClockAt(setup, trace, k) || k == 0 {
      j := k;
    } else {
      j := BacklogIsExact(setup, trace, k - 1);
    }
  }

  // --- Open loop: slowing the engine never improves a figure -----------------------

  /** The same arrivals and failures, with no step faster. */
  ghost predicate Slower<C>(trace: seq<Event<C>>, slow: seq<Event<C>>) {
    && |trace| == |slow|
    && forall i | 0 <= i < |trace| ::
         && trace[i].gap == slow[i].gap
         && trace[i].outcome.Raised? == slow[i].outcome.Raised?
         && trace[i].slack <= slow[i].slack
         && trace[i].service <= slow[i].service
         && trace[i].verify <= slow[i].verify
  }

  ghost predicate Behind(st: Loop, slow: Loop) {
    && st.clock <= slow.clock
    && st.nextArrival == slow.nextArrival
    && st.index == slow.index
    && st.consecutive == slow.consecutive
    && st.starts == slow.starts
    && Dominated(st.latencies, slow.latencies)
    && st.stopped == slow.stopped
  }

  lemma {:induction false} RunBehind<C>(
    setup: Setup<C>, st: Loop, st': Loop, trace: seq<Event<C>>, slow: seq<Event<C>>)
    requires setup.requests != []
    requires setup.Open() && Slower(trace, slow) && Behind(st, st')
    ensures Behind(Run(setup, st, trace), Run(setup, st', slow))
    decreases |trace|
  {
    if trace != [] && !st.stopped {
      var next, next' := Step(setup, st, trace[0]), Step(setup, st', slow[0]);
      assert Behind(next, next');
      RunBehind(setup, next, next', trace[1..], slow[1..]);
    }
  }

  /** The same requests in the same windows, each taking at least as long. */
  ghost predicate NoFaster(c: ClientStats, slow: ClientStats) {
    && c.requests == slow.requests
    && c.steadyRequests == slow.steadyRequests
    && c.steadySeconds == slow.steadySeconds
    && Dominated(c.latenciesMs, slow.latenciesMs)
    && Dominated(c.coldMs, slow.coldMs)
  }

  lemma {:induction false} ReportNoFaster<C>(
    setup: Setup<C>, trace: seq<Event<C>>, slow: seq<Event<C>>, rss: real, rss': real)
    requires setup.requests != []
    requires setup.Open() && Slower(trace, slow)
    ensures NoFaster(Report(setup, trace, rss), Report(setup, slow, rss'))
  {
    RunBehind(setup, Start(setup), Start(setup), trace, slow);
    RunAligned(setup, Start(setup), trace);
    var st, st' := Run(setup, Start(setup), trace), Run(setup, Start(setup), slow);
    SplitDominated(st.starts, st.latencies, st'.latencies, setup.config.warmup, setup.config.cooldown);
  }

  lemma SplitDominated(starts: seq<real>, a: seq<real>, b: seq<real>, warmup: real, cooldown: real)
    requires |starts| == |a| && Dominated(a, b)
    ensures Dominated(SplitOf(starts, a, warmup, cooldown).warm, SplitOf(starts, b, warmup, cooldown).warm)
    ensures Dominated(SplitOf(starts, a, warmup, cooldown).steady, SplitOf(starts, b, warmup, cooldown).steady)
  {
    if starts != [] {
      KeepDominated(WarmMask(starts, warmup), a, b);
      KeepDominated(SteadyMask(starts, warmup, Latest(starts) - cooldown), a, b);
    }
  }

  ghost predicate AllNoFaster(clients: seq<ClientStats>, slow: seq<ClientStats>) {
    |clients| == |slow| && forall i | 0 <= i < |clients| :: NoFaster(clients[i], slow[i])
  }

  lemma {:induction false} PoolNoFaster(clients: seq<ClientStats>, slow: seq<ClientStats>)
    requires AllNoFaster(clients, slow)
    ensures Dominated(Pooled(clients), Pooled(slow))
    ensures Dominated(PooledCold(clients), PooledCold(slow))
    ensures Rates(clients) == Rates(slow)
    ensures SteadyTotal(clients) == SteadyTotal(slow)
  {
    if clients != [] {
      PoolNoFaster(clients[1..], slow[1..]);
    }
  }

  lemma {:induction false} SweepNoFaster(clients: seq<ClientStats>, slow: seq<ClientStats>, baseline: Option<real>)
    requires AllNoFaster(clients, slow)
    ensures
      var p, p' := Summarize(clients, baseline), Summarize(slow, baseline);
      && p.p50 <= p'.p50 && p.p90 <= p'.p90 && p.p99 <= p'.p99 && p.p999 <= p'.p999
      && p.maxMs <= p'.maxMs && p.coldMs <= p'.coldMs
      && p.qps == p'.qps && p.fairness == p'.fairness
      && p.scalingEfficiency == p'.scalingEfficiency && p.steadyRequests == p'.steadyRequests
  {
    PoolNoFaster(clients, slow);
    var pooled, pooled' := Pooled(clients), Pooled(slow);
    if pooled != [] {
      PercentileMonotone(pooled, pooled', 50.0);
      PercentileMonotone(pooled, pooled', 90.0);
      PercentileMonotone(pooled, pooled', 99.0);
      PercentileMonotone(pooled, pooled', 99.9);
      MaxDominated(pooled, pooled');
    }
    if PooledCold(clients) != [] {
      PercentileMonotone(PooledCold(clients), PooledCold(slow), 50.0);
    }
  }

  /** One client of a sweep: its setup, its run and its memory peak. */
  datatype Session<C> = Session(setup: Setup<C>, trace: seq<Event<C>>, rss: real)

  ghost predicate ValidSession<C>(s: Session<C>) {
    s.setup.requests != []
  }

  ghost predicate AllValid<C>(sessions: seq<Session<C>>) {
    forall i | 0 <= i < |sessions| :: ValidSession(sessions[i])
  }

  function Reports<C(==)>(sessions: seq<Session<C>>): (r: seq<ClientStats>)
    requires AllValid(sessions)
    ensures |r| == |sessions|
    ensures forall i | 0 <= i < |r| ::
      r[i] == Report(sessions[i].setup, sessions[i].trace, sessions[i].rss)
  {
    if sessions == [] then []
    else [Report(sessions[0].setup, sessions[0].trace, sessions[0].rss)] + Reports(sessions[1..])
  }

  /** Coordinated omission cannot happen in an open loop. Take any number of clients, any
      arrival schedules and any pattern of failures, and slow any part of any request:
      every throughput figure of the sweep point is unchanged, and no percentile, maximum
      or cold-start figure goes down. */
  lemma {:induction false} SlowerNeverLooksBetter<C>(
    fast: seq<Session<C>>, slow: seq<Session<C>>, baseline: Option<real>)
    requires |fast| == |slow|
    requires AllValid(fast) && AllValid(slow)
    requires forall i | 0 <= i < |fast| ::
      fast[i].setup == slow[i].setup && fast[i].setup.Open() && Slower(fast[i].trace, slow[i].trace)
    ensures
      var p, p' := Summarize(Reports(fast), baseline), Summarize(Reports(slow), baseline);
      && p.p50 <= p'.p50 && p.p90 <= p'.p90 && p.p99 <= p'.p99 && p.p999 <= p'.p999
      && p.maxMs <= p'.maxMs && p.coldMs <= p'.coldMs
      && p.qps == p'.qps && p.fairness == p'.fairness
      && p.scalingEfficiency == p'.scalingEfficiency && p.steadyRequests == p'.steadyRequests
  {
    forall i | 0 <= i < |fast| ensures NoFaster(Reports(fast)[i], Reports(slow)[i]) {
      ReportNoFaster(fast[i].setup, fast[i].trace, slow[i].trace, fast[i].rss, slow[i].rss);
    }
    SweepNoFaster(Reports(fast), Reports(slow), baseline);
  }

  // --- Closed loop: what its throughput can and cannot say -------------------------

  /** Consecutive entries are at least `m` apart. */
  ghost predicate Spaced(s: seq<real>, m: real) {
    forall i, j | 0 <= i < |s| && j == i + 1 < |s| :: s[i] + m <= s[j]
  }

  /** `n` gaps of `m` seconds. */
  function Gaps(n: nat, m: real): real {
    if n == 0 then 0.0 else Gaps(n - 1, m) + m
  }

  lemma {:induction false} GapsMeaning(n: nat, m: real)
    ensures Gaps(n, m) == n as real * m
  {
    if n > 0 {
      GapsMeaning(n - 1, m);
      assert n as real * m == (n - 1) as real * m + m;
    }
  }

  lemma {:induction false} SpacedSpan(s: seq<real>, m: real)
    requires Spaced(s, m) && s != []
    ensures s[0] + Gaps(|s| - 1, m) <= s[|s| - 1]
  {
    if |s| > 1 {
      var n := |s| - 1;
      SpacedSpan(s[..n], m);
      assert s[n - 1] + m <= s[n - 1 + 1];
    }
  }

  /** Dropping entries only widens the gaps. */
  lemma {:induction false} KeepSpaced(mask: seq<bool>, s: seq<real>, x: real, m: real)
    requires |mask| == |s| && 0.0 <= m && Spaced(s + [x], m)
    ensures Spaced(Keep(mask, s) + [x], m)
    decreases |s|
  {
    if s != [] {
      var n := |s| - 1;
      assert (s + [x])[n] + m <= (s + [x])[n + 1];
      assert n > 0 ==> (s + [x])[n - 1] + m <= (s + [x])[n - 1 + 1];
      assert forall i | 0 <= i < n :: (s + [x])[i] == s[i];
      if mask[n] {
        assert s[..n] + [s[n]] == s;
        assert forall i | 0 <= i < n :: (s + [x])[i] + m <= (s + [x])[i + 1];
        KeepSpaced(mask[..n], s[..n], s[n], m);
        var kept := Keep(mask[..n], s[..n]) + [s[n]];
        assert Keep(mask, s) == kept;
        assert kept[|kept| - 1] == s[n];
      } else {
        assert Spaced(s[..n] + [x], m) by {
          var t := s[..n] + [x];
          forall i | 0 <= i < |t| - 1 ensures t[i] + m <= t[i + 1] {
            assert (s + [x])[i] + m <= (s + [x])[i + 1];
          }
        }
        KeepSpaced(mask[..n], s[..n], x, m);
        assert Keep(mask, s) == Keep(mask[..n], s[..n]);
      }
    }
  }

  /** Every call that answers takes at least `m` seconds, and no time runs backwards. */
  ghost predicate AtLeast<C>(trace: seq<Event<C>>, m: real) {
    forall i | 0 <= i < |trace| ::
      && 0.0 <= trace[i].slack && 0.0 <= trace[i].service && 0.0 <= trace[i].verify
      && (trace[i].outcome.Answered? ==> m <= trace[i].service)
  }

  lemma {:induction false} ClosedStartsSpaced<C>(setup: Setup<C>, trace: seq<Event<C>>, n: nat, m: real)
    requires !setup.Open() && 0.0 <= m && AtLeast(trace, m) && n <= |trace|
    ensures Spaced(StartsOf(setup, trace, n), m)
    ensures
      var s := StartsOf(setup, trace, n);
      s != [] ==> s[|s| - 1] + m <= ClockAt(setup, trace, n) - setup.origin
  {
    if n > 0 {
      ClosedStartsSpaced(setup, trace, n - 1, m);
      assert ClockAt(setup, trace, n - 1) + trace[n - 1].service <= ClockAt(setup, trace, n);
      assert IssuedAt(setup, trace, n - 1) == ClockAt(setup, trace, n - 1);
    }
  }

  lemma {:induction false} StartsBeforeDeadline<C>(setup: Setup<C>, trace: seq<Event<C>>, n: nat)
    requires n <= |trace| && forall k | 0 <= k < n :: IssuedAt(setup, trace, k) < setup.Deadline()
    ensures forall i | 0 <= i < |StartsOf(setup, trace, n)| ::
      StartsOf(setup, trace, n)[i] < setup.config.duration
  {
    if n > 0 {
      StartsBeforeDeadline(setup, trace, n - 1);
    }
  }

  lemma {:induction false} KeptWithin(mask: seq<bool>, s: seq<real>, lo: real, hi: real)
    requires |mask| == |s|
    requires forall i | 0 <= i < |s| && mask[i] :: lo <= s[i] <= hi
    ensures forall i | 0 <= i < |Keep(mask, s)| :: lo <= Keep(mask, s)[i] <= hi
  {
    if s != [] {
      KeptWithin(mask[..|s| - 1], s[..|s| - 1], lo, hi);
    }
  }

  lemma {:induction false} KeepLength<A, B>(mask: seq<bool>, a: seq<A>, b: seq<B>)
    requires |mask| == |a| == |b|
    ensures |Keep(mask, a)| == |Keep(mask, b)|
  {
    if mask != [] {
      var n := |mask| - 1;
      KeepLength(mask[..n], a[..n], b[..n]);
    }
  }

  lemma SpacedCount(kept: seq<real>, m: real, lo: real, hi: real)
    requires kept != [] && Spaced(kept, m)
    requires forall i | 0 <= i < |kept| :: lo <= kept[i] <= hi
    ensures lo <= hi && Gaps(|kept| - 1, m) <= hi - lo
  {
    SpacedSpan(kept, m);
    assert lo <= kept[0] && kept[|kept| - 1] <= hi;
  }

  lemma SteadyFits(starts: seq<real>, latencies: seq<real>, config: Config, m: real, steady: seq<real>)
    requires |starts| == |latencies| && 0.0 <= m && Spaced(starts, m) && AllBelow(starts, config.duration)
    requires steady == SplitOf(starts, latencies, config.warmup, config.cooldown).steady
    ensures |steady| > 0 ==> 0.0 < SteadySeconds(config) && Gaps(|steady| - 1, m) < SteadySeconds(config)
  {
    if starts != [] {
      var end := SteadyCut(starts, latencies, config, steady);
      EndedBy(starts, latencies, config, m, end, steady);
    }
  }

  lemma SteadyCut(starts: seq<real>, latencies: seq<real>, config: Config, steady: seq<real>) returns (end: real)
    requires |starts| == |latencies| && starts != [] && AllBelow(starts, config.duration)
    requires steady == SplitOf(starts, latencies, config.warmup, config.cooldown).steady
    ensures end < config.duration && steady == SteadyOf(starts, latencies, config.warmup, end - config.cooldown)
  {
    end := Latest(starts);
    LatestBelow(starts, config.duration);
  }

  ghost predicate AllBelow(s: seq<real>, limit: real) {
    forall i | 0 <= i < |s| :: s[i] < limit
  }

  lemma LatestBelow(starts: seq<real>, limit: real)
    requires starts != [] && AllBelow(starts, limit)
    ensures Latest(starts) < limit
  {
    assert Latest(starts) in starts;
  }

  lemma EndedBy(starts: seq<real>, latencies: seq<real>, config: Config, m: real, end: real, steady: seq<real>)
    requires |starts| == |latencies| && starts != [] && 0.0 <= m && Spaced(starts, m) && end < config.duration
    requires steady == SteadyOf(starts, latencies, config.warmup, end - config.cooldown)
    ensures |steady| > 0 ==> 0.0 < SteadySeconds(config) && Gaps(|steady| - 1, m) < SteadySeconds(config)
  {
    WindowFits(starts, latencies, config.warmup, end - config.cooldown, m);
    if |steady| > 0 {
      WithinSeconds(config, end, Gaps(|steady| - 1, m));
    }
  }

  lemma WithinSeconds(config: Config, end: real, gaps: real)
    requires end < config.duration && config.warmup <= end - config.cooldown
    requires gaps <= end - config.cooldown - config.warmup
    ensures 0.0 < SteadySeconds(config) && gaps < SteadySeconds(config)
  {
  }

  lemma WindowFits(starts: seq<real>, latencies: seq<real>, warmup: real, cut: real, m: real)
    requires |starts| == |latencies| && starts != [] && 0.0 <= m && Spaced(starts, m)
    ensures
      var count := |SteadyOf(starts, latencies, warmup, cut)|;
      count > 0 ==> warmup <= cut && Gaps(count - 1, m) <= cut - warmup
  {
    var mask := SteadyMask(starts, warmup, cut);
    var kept := Keep(mask, starts);
    KeepLength(mask, starts, latencies);
    if kept != [] {
      var x := starts[|starts| - 1] + m;
      KeepSpaced(mask, starts, x, m);
      assert Spaced(kept, m) by {
        forall i | 0 <= i < |kept| - 1 ensures kept[i] + m <= kept[i + 1] {
          assert (kept + [x])[i] + m <= (kept + [x])[i + 1];
        }
      }
      KeptWithin(mask, starts, warmup, cut);
      SpacedCount(kept, m, warmup, cut);
    }
  }

  lemma {:induction false} ClosedRunFits<C>(setup: Setup<C>, trace: seq<Event<C>>, fin: Loop, m: real)
    requires setup.requests != [] && !setup.Open() && 0.0 <= m && AtLeast(trace, m)
    requires fin == Run(setup, Start(setup), trace)
    ensures |fin.starts| == |fin.latencies|
    ensures
      var count := |SplitOf(fin.starts, fin.latencies, setup.config.warmup, setup.config.cooldown).steady|;
      count > 0 ==> 0.0 < SteadySeconds(setup.config) && Gaps(count - 1, m) < SteadySeconds(setup.config)
  {
    EveryRunAccounts(setup, trace, fin);
    StartsBeforeDeadline(setup, trace, fin.index);
    ClosedStartsSpaced(setup, trace, fin.index, m);
    assert AllBelow(fin.starts, setup.config.duration);
    SteadyFits(fin.starts, fin.latencies, setup.config, m,
               SplitOf(fin.starts, fin.latencies, setup.config.warmup, setup.config.cooldown).steady);
  }

  lemma {:induction false} ClosedLoopGaps<C>(setup: Setup<C>, trace: seq<Event<C>>, m: real, rss: real, c: ClientStats)
    requires setup.requests != [] && !setup.Open() && 0.0 <= m && AtLeast(trace, m)
    requires c == Report(setup, trace, rss) && c.steadyRequests > 0
    ensures 0.0 < c.steadySeconds && Gaps(c.steadyRequests - 1, m) < c.steadySeconds
  {
    var fin := Run(setup, Start(setup), trace);
    ClosedRunFits(setup, trace, fin, m);
    ReportedSteady(setup, trace, rss, c, fin);
  }

  /** In a closed loop whose answered calls each take at least `m` seconds, a client's
      steady requests fit the window: a non-empty steady sample has a window of positive
      length, and there are fewer than `steadySeconds / m + 1` of them. */
  lemma {:induction false} ClosedLoopBound<C>(setup: Setup<C>, trace: seq<Event<C>>, m: real, rss: real, c: ClientStats)
    requires setup.requests != [] && !setup.Open() && 0.0 <= m && AtLeast(trace, m)
    requires c == Report(setup, trace, rss) && c.steadyRequests > 0
    ensures 0.0 < c.steadySeconds && Fit(c.steadyRequests - 1, m, c.steadySeconds)
  {
    ClosedLoopGaps(setup, trace, m, rss, c);
    GapsBelow(c.steadyRequests - 1, m, c.steadySeconds);
  }

  /** So many gaps of `m` seconds take less time than there is. */
  predicate Fit(n: nat, m: real, seconds: real) {
    n as real * m < seconds
  }

  lemma GapsBelow(n: nat, m: real, seconds: real)
    requires Gaps(n, m) < seconds
    ensures Fit(n, m, seconds)
  {
    GapsMeaning(n, m);
  }

  lemma {:induction false} ReportedSteady<C>(
    setup: Setup<C>, trace: seq<Event<C>>, rss: real, c: ClientStats, fin: Loop)
    requires setup.requests != [] && c == Report(setup, trace, rss)
    requires fin == Run(setup, Start(setup), trace) && |fin.starts| == |fin.latencies|
    ensures c.steadySeconds == SteadySeconds(setup.config)
    ensures c.steadyRequests == |SplitOf(fin.starts, fin.latencies, setup.config.warmup, setup.config.cooldown).steady|
  {
  }
}
