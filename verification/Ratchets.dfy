/** The suppression ratchet: counts of switched-off gates that may only shrink. */
module SuppressionRatchet {
  import opened Common

  type Counts = map<string, nat>

  datatype Mode = Check | Update | Report

  /** One invocation of the tool on the tree of the moment. */
  datatype Invocation = Invocation(mode: Mode, counts: Counts)

  /** A recorded category is now larger. */
  predicate Grew(budget: Counts, counts: Counts) {
    exists k | k in counts :: k in budget && counts[k] > budget[k]
  }

  predicate Shrank(budget: Counts, counts: Counts) {
    exists k | k in counts :: k in budget && counts[k] < budget[k]
  }

  predicate Unrecorded(budget: Counts, counts: Counts) {
    exists k | k in counts :: k !in budget
  }

  /** The record after one invocation. */
  function Next(record: Option<Counts>, inv: Invocation): Option<Counts> {
    match inv.mode
    case Report => record
    case Check => if record.None? then Some(inv.counts) else record
    case Update => if record.Some? && Grew(record.value, inv.counts) then record else Some(inv.counts)
  }

  function After(record: Option<Counts>, run: seq<Invocation>): (r: Option<Counts>)
    ensures record.Some? ==> r.Some?
    decreases |run|
  {
    if run == [] then record else After(Next(record, run[0]), run[1..])
  }

  /** The recorded file and the tool that reads and rewrites it. */
  class Ratchet {
    var record: Option<Counts>

    constructor ()
      ensures record == None
    {
      record := None;
    }

    /** `main`. */
    method Invoke(inv: Invocation) returns (code: int)
      modifies this
      ensures record == Next(old(record), inv)
      ensures inv.mode == Report ==> code == 0
      ensures old(record).None? ==> code == 0
      ensures inv.mode == Update && old(record).Some? ==> (code == 0 <==> !Grew(old(record).value, inv.counts))
      ensures inv.mode == Check && old(record).Some? ==> (code == 0 <==> Passes(old(record).value, inv.counts))
    {
      if inv.mode == Report {
        return 0;
      }
      if record.None? || inv.mode == Update {
        if record.Some? && Grew(record.value, inv.counts) {
          return 1;
        }
        record := Some(inv.counts);
        return 0;
      }
      var budget := record.value;
      PassesExactly(budget, inv.counts);
      if Unrecorded(budget, inv.counts) || Grew(budget, inv.counts) || Shrank(budget, inv.counts) {
        return 1;
      }
      return 0;
    }

    /** Any number of invocations, the tree changing freely in between. */
    method Replay(run: seq<Invocation>)
      modifies this
      ensures record == After(old(record), run)
    {
      assert run[0..] == run;
      for i := 0 to |run|
        invariant After(old(record), run) == After(record, run[i..])
      {
        assert run[i..][0] == run[i] && run[i..][1..] == run[i + 1..];
        var _ := Invoke(run[i]);
      }
    }
  }

  /** Every measured category stands at its recorded count. */
  ghost predicate Passes(budget: Counts, counts: Counts) {
    forall k | k in counts :: k in budget && counts[k] == budget[k]
  }

  lemma PassesExactly(budget: Counts, counts: Counts)
    ensures Passes(budget, counts) <==>
            !Unrecorded(budget, counts) && !Grew(budget, counts) && !Shrank(budget, counts)
  {
  }

  /** With the category set unchanged, the gate passes exactly when tree and record are
      equal. */
  lemma PassIsEquality(budget: Counts, counts: Counts)
    requires budget.Keys == counts.Keys
    ensures Passes(budget, counts) <==> counts == budget
  {
    if Passes(budget, counts) {
      assert forall k | k in budget :: k in counts;
    }
  }

  /** Category `k` is measured every time the record is rewritten. */
  ghost predicate Measured(run: seq<Invocation>, k: string) {
    forall i | 0 <= i < |run| && run[i].mode == Update :: k in run[i].counts
  }

  /** Over any run in which a category stays measured, its recorded count never grows. */
  lemma {:induction false} NeverGrows(record: Option<Counts>, run: seq<Invocation>, k: string)
    requires record.Some? && k in record.value && Measured(run, k)
    ensures After(record, run).Some? && k in After(record, run).value
    ensures After(record, run).value[k] <= record.value[k]
    decreases |run|
  {
    if run != [] {
      NeverGrows(Next(record, run[0]), run[1..], k);
    }
  }

  /** So a tree that passes at the end of a run holds no more suppressions of that kind than
      any record made along the way allowed. */
  lemma PassingTreeIsNoLarger(record: Option<Counts>, run: seq<Invocation>, counts: Counts, k: string)
    requires record.Some? && k in record.value && Measured(run, k) && k in counts
    requires Passes(After(record, run).value, counts)
    ensures counts[k] <= record.value[k]
  {
    NeverGrows(record, run, k);
  }

  /** Hence with one fixed category set nothing recorded ever grows. */
  lemma FixedCategoriesNeverGrow(record: Option<Counts>, run: seq<Invocation>, categories: set<string>)
    requires record.Some? && record.value.Keys == categories
    requires forall i | 0 <= i < |run| :: run[i].counts.Keys == categories
    ensures After(record, run).Some? && After(record, run).value.Keys == categories
    ensures forall k | k in categories :: After(record, run).value[k] <= record.value[k]
    decreases |run|
  {
    if run != [] {
      FixedCategoriesNeverGrow(Next(record, run[0]), run[1..], categories);
    }
  }

  /** The condition is needed: a category that one update does not measure is forgotten, and
      the next update accepts any count for it. */
  lemma ForgottenCategoryGrows(budget: Counts, k: string, more: nat)
    requires k in budget && more > budget[k]
    ensures
      var without := map c | c in budget && c != k :: budget[c];
      var run := [Invocation(Update, without), Invocation(Update, budget[k := more])];
      After(Some(budget), run) == Some(budget[k := more])
  {
    var without := map c | c in budget && c != k :: budget[c];
    var last := Invocation(Update, budget[k := more]);
    assert !Grew(budget, without) && !Grew(without, budget[k := more]);
    var run := [Invocation(Update, without), last];
    assert run[1..] == [last] && [last][1..] == [];
    assert After(Some(without), [last]) == Some(budget[k := more]);
  }

  /** What an invocation measures, whatever it counts. */
  datatype Shape = Shape(mode: Mode, categories: set<string>)

  ghost predicate Realizes(run: seq<Invocation>, shapes: seq<Shape>) {
    && |run| == |shapes|
    && forall i | 0 <= i < |run| :: run[i].mode == shapes[i].mode && run[i].counts.Keys == shapes[i].categories
  }

  predicate Measures(s: Shape, k: string) {
    s.mode == Update && k in s.categories
  }

  predicate Omits(s: Shape, k: string) {
    s.mode == Update && k !in s.categories
  }

  /** Some update omits the category and a later one measures it. */
  ghost predicate ForgetsAndMeasures(shapes: seq<Shape>, k: string) {
    exists i, j | 0 <= i < j < |shapes| :: Omits(shapes[i], k) && Measures(shapes[j], k)
  }

  ghost predicate Exceeds(record: Option<Counts>, k: string, bound: nat) {
    record.Some? && k in record.value && record.value[k] > bound
  }

  /** Some counts make the recorded one exceed its first record along the way. */
  ghost predicate CanGrow(budget: Counts, shapes: seq<Shape>, k: string)
    requires k in budget
  {
    exists run | |run| <= |shapes| && Realizes(run, shapes[..|run|]) :: Exceeds(After(Some(budget), run), k, budget[k])
  }

  /** Every category counted zero, but for the one. */
  function CountsOf(s: Shape, k: string, count: nat): Counts {
    map c | c in s.categories :: if c == k then count else 0
  }

  function Zeros(shapes: seq<Shape>): (run: seq<Invocation>)
    ensures |run| == |shapes|
    ensures forall i | 0 <= i < |run| :: run[i] == Invocation(shapes[i].mode, CountsOf(shapes[i], "", 0))
  {
    if shapes == [] then []
    else
      var n := |shapes| - 1;
      Zeros(shapes[..n]) + [Invocation(shapes[n].mode, CountsOf(shapes[n], "", 0))]
  }

  lemma {:induction false} AfterSnoc(record: Option<Counts>, run: seq<Invocation>, last: Invocation)
    ensures After(record, run + [last]) == Next(After(record, run), last)
    decreases |run|
  {
    if run == [] {
      assert [] + [last] == [last] && [last][1..] == [];
    } else {
      assert (run + [last])[0] == run[0] && (run + [last])[1..] == run[1..] + [last];
      AfterSnoc(Next(record, run[0]), run[1..], last);
    }
  }

  /** An invocation rewrites the record: the first one that does not only report, and later
      on an update that counts no recorded category higher. */
  ghost predicate Writes(record: Option<Counts>, inv: Invocation) {
    match record
    case None => inv.mode != Report
    case Some(budget) => inv.mode == Update && forall k | k in budget && k in inv.counts :: inv.counts[k] <= budget[k]
  }

  ghost predicate WritesAt(record: Option<Counts>, run: seq<Invocation>, i: nat)
    requires i < |run|
  {
    Writes(After(record, run[..i]), run[i])
  }

  /** The record at the end of a run is what its last rewriting invocation counted, or the one
      it began with. */
  lemma {:induction false} RecordIsLastWritten(record: Option<Counts>, run: seq<Invocation>)
    ensures forall i | 0 <= i < |run| && LastWrite(record, run, i) :: After(record, run) == Some(run[i].counts)
    ensures (forall i | 0 <= i < |run| :: !WritesAt(record, run, i)) ==> After(record, run) == record
    decreases |run|
  {
    if run != [] {
      var n := |run| - 1;
      var front := run[..n];
      assert run == front + [run[n]];
      AfterSnoc(record, front, run[n]);
      RecordIsLastWritten(record, front);
      NextWrites(After(record, front), run[n]);
      forall i | 0 <= i < n ensures WritesAt(record, front, i) == WritesAt(record, run, i) {
        assert front[..i] == run[..i];
      }
      if !WritesAt(record, run, n) {
        forall i | 0 <= i < n && LastWrite(record, run, i) ensures LastWrite(record, front, i) {
        }
      }
    }
  }

  /** The invocation at `i` rewrites the record, and none after it does. */
  ghost predicate LastWrite(record: Option<Counts>, run: seq<Invocation>, i: nat)
    requires i < |run|
  {
    WritesAt(record, run, i) && forall j | i < j < |run| :: !WritesAt(record, run, j)
  }

  lemma NextWrites(record: Option<Counts>, inv: Invocation)
    ensures Next(record, inv) == if Writes(record, inv) then Some(inv.counts) else record
  {
  }

  /** A count of zero has never grown. */
  lemma ZeroNeverGrew(budget: Counts, s: Shape, k: string, count: nat)
    requires count == 0 || k !in budget
    ensures !Grew(budget, CountsOf(s, k, count))
  {
  }

  /** Zeros forget a category that is not measured from some update on. */
  lemma {:induction false} ZerosForget(record: Counts, shapes: seq<Shape>, k: string, i: nat)
    requires i < |shapes| && Omits(shapes[i], k)
    requires forall m | i <= m < |shapes| :: !Measures(shapes[m], k)
    ensures k !in After(Some(record), Zeros(shapes)).value
    decreases |shapes|
  {
    var n := |shapes| - 1;
    var before := After(Some(record), Zeros(shapes[..n]));
    AfterSnoc(Some(record), Zeros(shapes[..n]), Zeros(shapes)[n]);
    ZeroNeverGrew(before.value, shapes[n], "", 0);
    assert !Measures(shapes[n], k);
    if i < n {
      ZerosForget(record, shapes[..n], k, i);
    }
  }

  /** The next update after `i` that measures the category. */
  lemma {:induction false} FirstMeasured(shapes: seq<Shape>, k: string, i: nat, j: nat) returns (m: nat)
    requires i < j < |shapes| && Measures(shapes[j], k) && !Measures(shapes[i], k)
    ensures i < m <= j && Measures(shapes[m], k) && forall n | i <= n < m :: !Measures(shapes[n], k)
    decreases j
  {
    if n :| i < n < j && Measures(shapes[n], k) {
      m := FirstMeasured(shapes, k, i, n);
    } else {
      m := j;
    }
  }

  /** Without such a pair the count stays within its first record, whatever is counted. */
  lemma {:induction false} NeverExceeds(record: Counts, run: seq<Invocation>, shapes: seq<Shape>, k: string, bound: nat)
    requires Realizes(run, shapes) && !ForgetsAndMeasures(shapes, k)
    requires k in record ==> record[k] <= bound
    requires k !in record ==> forall i | 0 <= i < |shapes| :: !Measures(shapes[i], k)
    ensures !Exceeds(After(Some(record), run), k, bound)
    decreases |run|
  {
    if run != [] {
      var next := Next(Some(record), run[0]).value;
      var rest := shapes[1..];
      assert Omits(shapes[0], k) ==> forall j | 0 < j < |shapes| :: !Measures(shapes[j], k);
      assert forall i | 0 <= i < |rest| :: rest[i] == shapes[i + 1];
      assert !ForgetsAndMeasures(rest, k);
      NeverExceeds(next, run[1..], rest, k, bound);
    }
  }

  /** The run that forgets the category and counts one more when it is next measured. */
  lemma ForgottenGrows(budget: Counts, shapes: seq<Shape>, k: string, i: nat, m: nat) returns (run: seq<Invocation>)
    requires k in budget && i < m < |shapes| && Omits(shapes[i], k) && Measures(shapes[m], k)
    requires forall n | i <= n < m :: !Measures(shapes[n], k)
    ensures |run| == m + 1 && Realizes(run, shapes[..m + 1])
    ensures Exceeds(After(Some(budget), run), k, budget[k])
  {
    var last := Invocation(Update, CountsOf(shapes[m], k, budget[k] + 1));
    run := Zeros(shapes[..m]) + [last];
    ZerosForget(budget, shapes[..m], k, i);
    AfterSnoc(Some(budget), Zeros(shapes[..m]), last);
    ZeroNeverGrew(After(Some(budget), Zeros(shapes[..m])).value, shapes[m], k, budget[k] + 1);
  }

  /** A recorded count can exceed its first record if and only if some update omits its
      category and a later one measures it. */
  lemma GrowthExactly(budget: Counts, shapes: seq<Shape>, k: string)
    requires k in budget
    ensures CanGrow(budget, shapes, k) <==> ForgetsAndMeasures(shapes, k)
  {
    if ForgetsAndMeasures(shapes, k) {
      var i, j :| 0 <= i < j < |shapes| && Omits(shapes[i], k) && Measures(shapes[j], k);
      var m := FirstMeasured(shapes, k, i, j);
      var run := ForgottenGrows(budget, shapes, k, i, m);
    } else {
      forall run | |run| <= |shapes| && Realizes(run, shapes[..|run|])
        ensures !Exceeds(After(Some(budget), run), k, budget[k])
      {
        NoPairBefore(shapes, k, |run|);
        NeverExceeds(budget, run, shapes[..|run|], k, budget[k]);
      }
    }
  }

  lemma NoPairBefore(shapes: seq<Shape>, k: string, n: nat)
    requires n <= |shapes| && !ForgetsAndMeasures(shapes, k)
    ensures !ForgetsAndMeasures(shapes[..n], k)
  {
  }
}

/** The layering-exemption ratchet: a set of entries that may only shrink. */
module LayerDebt {
  import opened Common

  /** One invocation, with the exemptions the project file lists at that moment. */
  datatype Invocation = Invocation(update: bool, exemptions: set<string>)

  function Next(record: Option<set<string>>, inv: Invocation): Option<set<string>> {
    match record
    case None => Some(inv.exemptions)
    case Some(r) => if inv.update && inv.exemptions <= r then Some(inv.exemptions) else record
  }

  function After(record: Option<set<string>>, run: seq<Invocation>): (r: Option<set<string>>)
    ensures record.Some? ==> r.Some?
    decreases |run|
  {
    if run == [] then record else After(Next(record, run[0]), run[1..])
  }

  class Debt {
    var record: Option<set<string>>

    constructor ()
      ensures record == None
    {
      record := None;
    }

    /** `main`: a check passes exactly when the list is the recorded one, and an update
        succeeds exactly when nothing was added. */
    method Invoke(inv: Invocation) returns (code: int)
      modifies this
      ensures record == Next(old(record), inv)
      ensures old(record).None? ==> code == 0
      ensures old(record).Some? && inv.update ==> (code == 0 <==> inv.exemptions <= old(record).value)
      ensures old(record).Some? && !inv.update ==> (code == 0 <==> inv.exemptions == old(record).value)
    {
      if record.None? {
        record := Some(inv.exemptions);
        return 0;
      }
      var recorded := record.value;
      var added := inv.exemptions - recorded;
      var removed := recorded - inv.exemptions;
      if inv.update {
        if added != {} {
          return 1;
        }
        assert forall e | e in inv.exemptions :: e in added || e in recorded;
        record := Some(inv.exemptions);
        return 0;
      }
      if added != {} {
        return 1;
      }
      if removed != {} {
        return 1;
      }
      return 0;
    }
  }

  /** Over any run the recorded exemptions only shrink. */
  lemma {:induction false} NeverGrows(record: Option<set<string>>, run: seq<Invocation>)
    requires record.Some?
    ensures After(record, run).Some? && After(record, run).value <= record.value
    decreases |run|
  {
    if run != [] {
      NeverGrows(Next(record, run[0]), run[1..]);
    }
  }

  /** An invocation rewrites the record: the first one, and later on an update that adds no
      exemption. */
  ghost predicate Writes(record: Option<set<string>>, inv: Invocation) {
    match record
    case None => true
    case Some(r) => inv.update && forall e | e in inv.exemptions :: e in r
  }

  ghost predicate WritesAt(record: Option<set<string>>, run: seq<Invocation>, i: nat)
    requires i < |run|
  {
    Writes(After(record, run[..i]), run[i])
  }

  lemma {:induction false} AfterSnoc(record: Option<set<string>>, run: seq<Invocation>, last: Invocation)
    ensures After(record, run + [last]) == Next(After(record, run), last)
    decreases |run|
  {
    if run == [] {
      assert [] + [last] == [last] && [last][1..] == [];
    } else {
      assert (run + [last])[0] == run[0] && (run + [last])[1..] == run[1..] + [last];
      AfterSnoc(Next(record, run[0]), run[1..], last);
    }
  }

  /** The record at the end of a run is what its last rewriting invocation listed, or the one
      it began with. */
  lemma {:induction false} RecordIsLastWritten(record: Option<set<string>>, run: seq<Invocation>)
    ensures forall i | 0 <= i < |run| && LastWrite(record, run, i) :: After(record, run) == Some(run[i].exemptions)
    ensures (forall i | 0 <= i < |run| :: !WritesAt(record, run, i)) ==> After(record, run) == record
    decreases |run|
  {
    if run != [] {
      var n := |run| - 1;
      var front := run[..n];
      assert run == front + [run[n]];
      AfterSnoc(record, front, run[n]);
      RecordIsLastWritten(record, front);
      NextWrites(After(record, front), run[n]);
      forall i | 0 <= i < n ensures WritesAt(record, front, i) == WritesAt(record, run, i) {
        assert front[..i] == run[..i];
      }
      if !WritesAt(record, run, n) {
        forall i | 0 <= i < n && LastWrite(record, run, i) ensures LastWrite(record, front, i) {
        }
      }
    }
  }

  /** The invocation at `i` rewrites the record, and none after it does. */
  ghost predicate LastWrite(record: Option<set<string>>, run: seq<Invocation>, i: nat)
    requires i < |run|
  {
    WritesAt(record, run, i) && forall j | i < j < |run| :: !WritesAt(record, run, j)
  }

  lemma NextWrites(record: Option<set<string>>, inv: Invocation)
    ensures Next(record, inv) == if Writes(record, inv) then Some(inv.exemptions) else record
  {
  }

  /** An exemption paid off in one recorded state stays out of every later one, and a list
      that brings it back fails every later check. */
  lemma PaidOffStaysOut(record: Option<set<string>>, run: seq<Invocation>, entry: string, exemptions: set<string>)
    requires record.Some? && entry !in record.value && entry in exemptions
    ensures entry !in After(record, run).value && exemptions != After(record, run).value
    ensures !(exemptions <= After(record, run).value)
  {
    NeverGrows(record, run);
  }
}

/** The public-surface baseline: names that may only leave it by a recorded removal. */
module SurfaceBaseline {

  /** The committed baseline, the names the package has, and the removals on record. */
  datatype State = State(baseline: set<string>, current: set<string>, removals: set<string>)

  /** A change of the package, a removal put on record or taken off it, or a regeneration. */
  datatype Event = Edit(names: set<string>) | Record(name: string) | Unrecord(name: string) | Write

  /** `next_baseline`. */
  function NextBaseline(s: State): set<string> {
    s.current + ((s.baseline - s.current) - s.removals)
  }

  function Next(s: State, e: Event): State {
    match e
    case Edit(names) => s.(current := names)
    case Record(name) => s.(removals := s.removals + {name})
    case Unrecord(name) => s.(removals := s.removals - {name})
    case Write => s.(baseline := NextBaseline(s))
  }

  function After(s: State, run: seq<Event>): State
    decreases |run|
  {
    if run == [] then s else After(Next(s, run[0]), run[1..])
  }

  /** Names that were public, are gone, and whose removal is not on record. */
  function Vanished(s: State): set<string> {
    (s.baseline - s.current) - s.removals
  }

  /** Regenerating never changes the set of unrecorded vanished names, and doing it twice is
      doing it once. */
  lemma WritingHidesNothing(s: State)
    ensures Vanished(Next(s, Write)) == Vanished(s)
    ensures Next(Next(s, Write), Write) == Next(s, Write)
  {
    var t := Next(s, Write);
    assert Vanished(t) == Vanished(s);
    assert NextBaseline(t) == t.baseline;
  }

  /** The removal of `name`, once on record, stays on record. */
  ghost predicate AppendOnly(run: seq<Event>, name: string) {
    Unrecord(name) !in run
  }

  lemma {:induction false} BaselineKept(s: State, run: seq<Event>, name: string)
    requires name in s.baseline || name in s.removals
    requires AppendOnly(run, name)
    ensures name in After(s, run).baseline || name in After(s, run).removals
    decreases |run|
  {
    if run != [] {
      assert run[0] != Unrecord(name);
      BaselineKept(Next(s, run[0]), run[1..], name);
    }
  }

  /** Over every run of edits, recordings and regenerations, a name once in the baseline
      stays there or is a recorded removal; so if it is gone in the end without a record, it
      is among the names the gate reports. */
  lemma NoSilentRemoval(s: State, run: seq<Event>, name: string)
    requires name in s.baseline && AppendOnly(run, name)
    ensures name in After(s, run).baseline || name in After(s, run).removals
    ensures name !in After(s, run).current && name !in After(s, run).removals ==> name in Vanished(After(s, run))
  {
    BaselineKept(s, run, name);
  }

  /** Taking a removal off the record after a regeneration loses the name. */
  lemma UnrecordedRemovalIsSilent(s: State, name: string)
    requires name !in s.current
    ensures
      var end := After(s, [Record(name), Write, Unrecord(name)]);
      name !in end.baseline && name !in end.removals && name !in Vanished(end)
  {
    var run := [Record(name), Write, Unrecord(name)];
    assert run[1..] == [Write, Unrecord(name)] && run[1..][1..] == [Unrecord(name)];
    assert [Unrecord(name)][1..] == [];
    var t := Next(Next(s, Record(name)), Write);
    assert After(t, [Unrecord(name)]) == Next(t, Unrecord(name));
    assert After(s, run) == After(Next(s, Record(name)), [Write, Unrecord(name)]) == After(t, [Unrecord(name)]);
  }

  /** Gone without a trace: not in the baseline, not in the package and not on record. */
  predicate Lost(s: State, name: string) {
    name !in s.baseline && name !in s.current && name !in s.removals
  }

  /** The regeneration at `i` leaves the name out, because it is gone and on record. */
  ghost predicate LeavesOut(s: State, run: seq<Event>, i: nat, name: string)
    requires i < |run|
  {
    run[i] == Write && name !in After(s, run[..i]).current && name in After(s, run[..i]).removals
  }

  /** The regeneration at `i` takes the name in, because it is there. */
  ghost predicate TakesIn(s: State, run: seq<Event>, i: nat, name: string)
    requires i < |run|
  {
    run[i] == Write && name in After(s, run[..i]).current
  }

  /** Some regeneration leaves the name out and none after it takes it in again. */
  ghost predicate LeftOut(s: State, run: seq<Event>, name: string) {
    exists i | 0 <= i < |run| :: LeavesOut(s, run, i, name) && forall j | i < j < |run| :: !TakesIn(s, run, j, name)
  }

  lemma AfterLast(s: State, run: seq<Event>)
    requires run != []
    ensures After(s, run) == Next(After(s, run[..|run| - 1]), run[|run| - 1])
  {
    var n := |run| - 1;
    assert run == run[..n] + [run[n]];
    AfterConcat(s, run[..n], [run[n]]);
    assert [run[n]][1..] == [];
  }

  lemma {:induction false} LeftOutExactly(s: State, run: seq<Event>, name: string)
    requires name in s.baseline
    ensures name !in After(s, run).baseline <==> LeftOut(s, run, name)
    decreases |run|
  {
    if run != [] {
      var n := |run| - 1;
      var before := run[..n];
      AfterLast(s, run);
      LeftOutExactly(s, before, name);
      assert forall i | 0 <= i < n :: before[..i] == run[..i];
      assert forall i | 0 <= i < n :: LeavesOut(s, before, i, name) <==> LeavesOut(s, run, i, name);
      assert forall i | 0 <= i < n :: TakesIn(s, before, i, name) <==> TakesIn(s, run, i, name);
      if LeftOut(s, before, name) && !TakesIn(s, run, n, name) {
        var i :| 0 <= i < n && LeavesOut(s, before, i, name) && forall j | i < j < n :: !TakesIn(s, before, j, name);
        assert LeavesOut(s, run, i, name) && forall j | i < j < |run| :: !TakesIn(s, run, j, name);
      }
      if LeavesOut(s, run, n, name) {
        assert LeftOut(s, run, name);
      }
    }
  }

  /** Nothing in the run but events of these kinds decides what is in the package, on record
      and in the baseline: the last edit lists the package, the last entry about a name
      decides whether its removal is on record, and the last regeneration that took it in or
      left it out whether it is in the baseline. */
  lemma {:induction false} StateFollowsEvents(s: State, run: seq<Event>, name: string)
    ensures forall i | 0 <= i < |run| && run[i].Edit? ::
      (forall j | i < j < |run| :: !run[j].Edit?) ==> After(s, run).current == run[i].names
    ensures (forall i | 0 <= i < |run| :: !run[i].Edit?) ==> After(s, run).current == s.current
    ensures name in After(s, run).removals <==>
      || (name in s.removals && Unrecord(name) !in run)
      || exists i | 0 <= i < |run| :: run[i] == Record(name) && Unrecord(name) !in run[i..]
    ensures name in After(s, run).baseline <==>
      || (name in s.baseline && forall i | 0 <= i < |run| :: !LeavesOut(s, run, i, name))
      || exists i | 0 <= i < |run| ::
        TakesIn(s, run, i, name) && forall j | i < j < |run| :: !LeavesOut(s, run, j, name)
    decreases |run|
  {
    if run != [] {
      var n := |run| - 1;
      var front := run[..n];
      AfterLast(s, run);
      StateFollowsEvents(s, front, name);
      assert run == front + [run[n]];
      RecordFollows(s, run, front, n, name);
      BaselineFollows(s, run, front, n, name);
    }
  }

  lemma RecordFollows(s: State, run: seq<Event>, front: seq<Event>, n: nat, name: string)
    requires |run| == n + 1 && front == run[..n]
    ensures Unrecord(name) !in run <==> Unrecord(name) !in front && run[n] != Unrecord(name)
    ensures (exists i | 0 <= i < |run| :: run[i] == Record(name) && Unrecord(name) !in run[i..]) <==>
      || run[n] == Record(name)
      || (run[n] != Unrecord(name)
          && exists i | 0 <= i < n :: front[i] == Record(name) && Unrecord(name) !in front[i..])
  {
    assert run == front + [run[n]];
    assert run[n..] == [run[n]];
    forall i | 0 <= i < n ensures run[i..] == front[i..] + [run[n]] {
    }
  }

  lemma BaselineFollows(s: State, run: seq<Event>, front: seq<Event>, n: nat, name: string)
    requires |run| == n + 1 && front == run[..n]
    ensures forall i | 0 <= i < n ::
      && (LeavesOut(s, front, i, name) <==> LeavesOut(s, run, i, name))
      && (TakesIn(s, front, i, name) <==> TakesIn(s, run, i, name))
    ensures LeavesOut(s, run, n, name) <==>
      run[n] == Write && name !in After(s, front).current && name in After(s, front).removals
    ensures TakesIn(s, run, n, name) <==> run[n] == Write && name in After(s, front).current
  {
    forall i | 0 <= i < n ensures front[..i] == run[..i] {
    }
  }

  /** A name of the baseline is lost in the end if and only if it is neither there nor on
      record, and some regeneration left it out, when it was gone and on record, with none
      after it taking it in again. */
  lemma LostExactly(s: State, run: seq<Event>, name: string)
    requires name in s.baseline
    ensures Lost(After(s, run), name) <==>
            name !in After(s, run).current && name !in After(s, run).removals && LeftOut(s, run, name)
  {
    LeftOutExactly(s, run, name);
  }

  lemma {:induction false} AfterConcat(s: State, a: seq<Event>, b: seq<Event>)
    ensures After(s, a + b) == After(After(s, a), b)
    decreases |a|
  {
    if a == [] {
      assert a + b == b;
    } else {
      assert (a + b)[1..] == a[1..] + b;
      AfterConcat(Next(s, a[0]), a[1..], b);
    }
  }

  /** In particular every name that was public when the baseline was last written is
      accounted for, whatever happens afterwards. */
  lemma PublishedNamesAccountedFor(s: State, before: seq<Event>, after: seq<Event>, name: string)
    requires name in After(s, before).current && AppendOnly(after, name)
    ensures
      var end := After(s, before + [Write] + after);
      name in end.current || name in end.removals || name in Vanished(end)
  {
    var mid := After(s, before);
    AfterConcat(s, before, [Write]);
    assert [Write][0] == Write && [Write][1..] == [];
    assert After(mid, [Write]) == After(Next(mid, Write), []);
    AfterConcat(s, before + [Write], after);
    NoSilentRemoval(Next(mid, Write), after, name);
  }
}
