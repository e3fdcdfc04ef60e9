/** The structure gate's size limits and the audit of its allowlists: which exemptions can
    be deleted without failing the gate.
 */
module Allowlist {
  import opened Common

  const PY_HARD: nat := 500
  const INIT_MAX: nat := 120
  const RUST_HARD: nat := 800
  const DIR_MAX_FILES: nat := 12
  const DIR_MAX_DEPTH: nat := 5
  const BANNED_FILENAMES: set<string> := {"utils.py", "helpers.py", "common.py", "misc.py"}

  /** A file as the gate sees it: `code` counts the lines without docstrings or the trailing
      test module, and only means something for Python when the file parses. */
  datatype File = File(name: string, rust: bool, parses: bool, code: nat, lines: nat)

  datatype Directory = Directory(files: nat, depth: nat)

  /** What one governed thing is, in the order the gate visits them. */
  datatype Step = PyFile(path: string) | RustFile(path: string) | Dir(path: string)

  /** Everything that exists, and the part of it the gate visits. */
  datatype Tree = Tree(files: map<string, File>, dirs: map<string, Directory>, visits: seq<Step>)

  /** The exempted files, and the exempted directories with the count their reason states. */
  datatype Allow = Allow(files: seq<string>, dirs: seq<(string, Option<nat>)>)

  predicate Visitable(tree: Tree, step: Step) {
    match step
    case PyFile(p) => p in tree.files && !tree.files[p].rust
    case RustFile(p) => p in tree.files && tree.files[p].rust
    case Dir(p) => p in tree.dirs
  }

  ghost predicate Valid(tree: Tree) {
    forall i | 0 <= i < |tree.visits| :: Visitable(tree, tree.visits[i])
  }

  datatype Failure =
    | Banned(path: string)
    | TooLong(path: string, size: nat)
    | Syntax(path: string)
    | TooMany(path: string, size: nat)
    | TooDeep(path: string, depth: nat)

  /** The directory allowlist names `p`. */
  predicate Names(dirs: seq<(string, Option<nat>)>, p: string) {
    exists i | 0 <= i < |dirs| :: dirs[i].0 == p
  }

  function Limit(f: File): nat {
    if f.rust then RUST_HARD else if f.name == "__init__.py" then INIT_MAX else PY_HARD
  }

  /** The size that is held against the limit; a Python file that does not parse falls back
      to its raw lines. */
  function Size(f: File): nat {
    if f.rust || f.parses then f.code else f.lines
  }

  function When(b: bool, f: Failure): seq<Failure> {
    if b then [f] else []
  }

  function FileFailures(path: string, f: File, allow: Allow): seq<Failure> {
    When(f.name in BANNED_FILENAMES, Banned(path))
    + When(Size(f) > Limit(f) && path !in allow.files, TooLong(path, Size(f)))
    + When(!f.rust && !f.parses, Syntax(path))
  }

  function DirFailures(path: string, d: Directory, allow: Allow): seq<Failure> {
    When(d.files > DIR_MAX_FILES && !Names(allow.dirs, path), TooMany(path, d.files))
    + When(d.depth > DIR_MAX_DEPTH, TooDeep(path, d.depth))
  }

  function StepFailures(tree: Tree, allow: Allow, step: Step): seq<Failure>
    requires Visitable(tree, step)
  {
    match step
    case PyFile(p) => FileFailures(p, tree.files[p], allow)
    case RustFile(p) => FileFailures(p, tree.files[p], allow)
    case Dir(p) => DirFailures(p, tree.dirs[p], allow)
  }

  /** The hard failures of the gate, in the order they are found. */
  function Failures(tree: Tree, allow: Allow, visits: seq<Step>): seq<Failure>
    requires forall i | 0 <= i < |visits| :: Visitable(tree, visits[i])
  {
    if visits == [] then []
    else StepFailures(tree, allow, visits[0]) + Failures(tree, allow, visits[1..])
  }

  function Gate(tree: Tree, allow: Allow): seq<Failure>
    requires Valid(tree)
  {
    Failures(tree, allow, tree.visits)
  }

  /** The limit is 800 lines of Rust, 120 of a package's `__init__.py` and 500 of any other
      Python file. */
  ghost predicate OverLimit(f: File, size: nat) {
    if f.rust then size > 800 else if f.name == "__init__.py" then size > 120 else size > 500
  }

  /** What a visit fails for: a banned name; code over the limit without an exemption, where a
      Python file that does not parse counts by its lines; a file that does not parse; more
      than 12 files in a directory without an exemption; or more than 5 levels. */
  ghost predicate FailsFor(tree: Tree, allow: Allow, step: Step, f: Failure)
    requires Visitable(tree, step)
  {
    && step.path == f.path
    && match f
       case Banned(p) => !step.Dir? && tree.files[p].name in {"utils.py", "helpers.py", "common.py", "misc.py"}
       case TooLong(p, size) =>
         && !step.Dir? && p !in allow.files && OverLimit(tree.files[p], size)
         && size == if step.PyFile? && !tree.files[p].parses then tree.files[p].lines else tree.files[p].code
       case Syntax(p) => step.PyFile? && !tree.files[p].parses
       case TooMany(p, size) =>
         && step.Dir? && size == tree.dirs[p].files > 12
         && forall i | 0 <= i < |allow.dirs| :: allow.dirs[i].0 != p
       case TooDeep(p, depth) => step.Dir? && depth == tree.dirs[p].depth > 5
  }

  lemma StepFailsFor(tree: Tree, allow: Allow, step: Step, f: Failure)
    requires Visitable(tree, step)
    ensures f in StepFailures(tree, allow, step) <==> FailsFor(tree, allow, step, f)
  {
    if step.Dir? {
      assert DirFailures(step.path, tree.dirs[step.path], allow) == StepFailures(tree, allow, step);
    } else {
      assert FileFailures(step.path, tree.files[step.path], allow) == StepFailures(tree, allow, step);
    }
  }

  lemma {:induction false} FailuresAre(tree: Tree, allow: Allow, visits: seq<Step>, f: Failure)
    requires forall i | 0 <= i < |visits| :: Visitable(tree, visits[i])
    ensures f in Failures(tree, allow, visits) <==>
      exists i | 0 <= i < |visits| :: FailsFor(tree, allow, visits[i], f)
  {
    if visits != [] {
      var rest := visits[1..];
      FailuresAre(tree, allow, rest, f);
      StepFailsFor(tree, allow, visits[0], f);
      assert forall i | 0 <= i < |rest| :: rest[i] == visits[i + 1];
      if i :| 0 <= i < |visits| && FailsFor(tree, allow, visits[i], f) {
        assert i > 0 ==> rest[i - 1] == visits[i];
      }
    }
  }

  /** The gate reports exactly the failures of its visits. */
  lemma GateExactly(tree: Tree, allow: Allow, f: Failure)
    requires Valid(tree)
    ensures f in Gate(tree, allow) <==>
      exists i | 0 <= i < |tree.visits| :: FailsFor(tree, allow, tree.visits[i], f)
  {
    FailuresAre(tree, allow, tree.visits, f);
  }

  lemma NextVisit(tree: Tree, allow: Allow, i: nat, fails: seq<Failure>, all: seq<Failure>)
    requires Valid(tree) && i < |tree.visits| && all == fails + Failures(tree, allow, tree.visits[i..])
    ensures all == (fails + StepFailures(tree, allow, tree.visits[i])) + Failures(tree, allow, tree.visits[i + 1..])
  {
    assert tree.visits[i..][0] == tree.visits[i] && tree.visits[i..][1..] == tree.visits[i + 1..];
  }

  /** The checks append to one list of failures. */
  class Linter {
    var fails: seq<Failure>

    constructor ()
      ensures fails == []
    {
      fails := [];
    }

    method CheckPythonFile(path: string, f: File, allow: Allow)
      requires !f.rust
      modifies this
      ensures fails == old(fails) + FileFailures(path, f, allow)
    {
      var n := if f.parses then f.code else f.lines;
      if f.name in BANNED_FILENAMES {
        fails := fails + [Banned(path)];
      }
      if f.name == "__init__.py" {
        if n > INIT_MAX && path !in allow.files {
          fails := fails + [TooLong(path, n)];
        }
        if !f.parses {
          fails := fails + [Syntax(path)];
        }
        return;
      }
      if n > PY_HARD && path !in allow.files {
        fails := fails + [TooLong(path, n)];
      }
      if !f.parses {
        fails := fails + [Syntax(path)];
      }
    }

    method CheckRustFile(path: string, f: File, allow: Allow)
      requires f.rust
      modifies this
      ensures fails == old(fails) + FileFailures(path, f, allow)
    {
      if f.name in BANNED_FILENAMES {
        fails := fails + [Banned(path)];
      }
      if f.code > RUST_HARD && path !in allow.files {
        fails := fails + [TooLong(path, f.code)];
      }
    }

    method CheckDir(path: string, d: Directory, allow: Allow)
      modifies this
      ensures fails == old(fails) + DirFailures(path, d, allow)
    {
      if d.files > DIR_MAX_FILES && !Names(allow.dirs, path) {
        fails := fails + [TooMany(path, d.files)];
      }
      if d.depth > DIR_MAX_DEPTH {
        fails := fails + [TooDeep(path, d.depth)];
      }
    }

    /** The visits of `main` and its exit code. */
    method Run(tree: Tree, allow: Allow) returns (code: int)
      requires Valid(tree) && fails == []
      modifies this
      ensures fails == Gate(tree, allow)
      ensures code == if Gate(tree, allow) == [] then 0 else 1
    {
      ghost var all := Gate(tree, allow);
      assert tree.visits[0..] == tree.visits && [] + all == all;
      for i := 0 to |tree.visits|
        invariant all == fails + Failures(tree, allow, tree.visits[i..])
      {
        assert Visitable(tree, tree.visits[i]);
        NextVisit(tree, allow, i, fails, all);
        ghost var before := fails;
        match tree.visits[i]
        case PyFile(p) => CheckPythonFile(p, tree.files[p], allow);
        case RustFile(p) => CheckRustFile(p, tree.files[p], allow);
        case Dir(p) => CheckDir(p, tree.dirs[p], allow);
        assert fails == before + StepFailures(tree, allow, tree.visits[i]);
      }
      return if fails == [] then 0 else 1;
    }
  }

  // --- The audit -------------------------------------------------------------------

  datatype Entry =
    | NoSuchFile(path: string)
    | WithinLimit(path: string)
    | NoSuchDir(path: string)
    | WithinCap(path: string)
    | WrongCount(path: string, claimed: nat, actual: nat)

  /** What the audit says of one exempted file. */
  function FileEntry(tree: Tree, path: string): Option<Entry> {
    if path !in tree.files then Some(NoSuchFile(path))
    else
      var f := tree.files[path];
      if (f.rust || f.parses) && f.code <= Limit(f) then Some(WithinLimit(path)) else None
  }

  function DirEntry(tree: Tree, path: string, claimed: Option<nat>): Option<Entry> {
    if path !in tree.dirs then Some(NoSuchDir(path))
    else
      var n := tree.dirs[path].files;
      if n <= DIR_MAX_FILES then Some(WithinCap(path))
      else if claimed.Some? && claimed.value != n then Some(WrongCount(path, claimed.value, n))
      else None
  }

  /** `stale_allowlist_entries`: both loops over the allowlists. */
  method StaleEntries(tree: Tree, allow: Allow) returns (stale: seq<Entry>)
    ensures forall e :: e in stale <==> IsStale(tree, allow, e)
  {
    stale := [];
    for i := 0 to |allow.files|
      invariant forall e :: e in stale <==> exists k | 0 <= k < i :: FileEntry(tree, allow.files[k]) == Some(e)
    {
      var path := allow.files[i];
      if path !in tree.files {
        stale := stale + [NoSuchFile(path)];
        continue;
      }
      var f := tree.files[path];
      if f.rust {
        if f.code <= RUST_HARD {
          stale := stale + [WithinLimit(path)];
        }
        continue;
      }
      if !f.parses {
        continue;
      }
      var limit := if f.name == "__init__.py" then INIT_MAX else PY_HARD;
      if f.code <= limit {
        stale := stale + [WithinLimit(path)];
      }
    }
    ghost var first := stale;
    for i := 0 to |allow.dirs|
      invariant forall e :: e in stale <==>
        e in first || exists k | 0 <= k < i :: DirEntry(tree, allow.dirs[k].0, allow.dirs[k].1) == Some(e)
    {
      var (path, claimed) := allow.dirs[i];
      if path !in tree.dirs {
        stale := stale + [NoSuchDir(path)];
        continue;
      }
      var n := tree.dirs[path].files;
      if n <= DIR_MAX_FILES {
        stale := stale + [WithinCap(path)];
        continue;
      }
      if claimed.Some? && claimed.value != n {
        stale := stale + [WrongCount(path, claimed.value, n)];
      }
    }
    forall e ensures e in stale <==> IsStale(tree, allow, e) {
      ReportedIsStale(tree, allow, e);
    }
  }

  /** What makes an entry stale: an exempted file or directory that is not there, one that is
      within its limit (a Python file only if it parses), or a directory over the cap with
      another count of files than its reason states. */
  ghost predicate IsStale(tree: Tree, allow: Allow, e: Entry) {
    match e
    case NoSuchFile(p) => p in allow.files && p !in tree.files
    case WithinLimit(p) =>
      && p in allow.files && p in tree.files && (tree.files[p].rust || tree.files[p].parses)
      && !OverLimit(tree.files[p], tree.files[p].code)
    case NoSuchDir(p) => p !in tree.dirs && exists claimed :: (p, claimed) in allow.dirs
    case WithinCap(p) => p in tree.dirs && tree.dirs[p].files <= 12 && exists claimed :: (p, claimed) in allow.dirs
    case WrongCount(p, claimed, actual) =>
      p in tree.dirs && (p, Some(claimed)) in allow.dirs && claimed != actual == tree.dirs[p].files > 12
  }

  lemma ReportedIsStale(tree: Tree, allow: Allow, e: Entry)
    ensures Reported(tree, allow, e) <==> IsStale(tree, allow, e)
  {
    if e.NoSuchFile? || e.WithinLimit? {
      if e.path in allow.files {
        var k :| 0 <= k < |allow.files| && allow.files[k] == e.path;
      }
    } else {
      if claimed :| (e.path, claimed) in allow.dirs && DirEntry(tree, e.path, claimed) == Some(e) {
        var k :| 0 <= k < |allow.dirs| && allow.dirs[k] == (e.path, claimed);
      }
    }
  }

  ghost predicate Reported(tree: Tree, allow: Allow, e: Entry) {
    || (exists k | 0 <= k < |allow.files| :: FileEntry(tree, allow.files[k]) == Some(e))
    || (exists k | 0 <= k < |allow.dirs| :: DirEntry(tree, allow.dirs[k].0, allow.dirs[k].1) == Some(e))
  }

  // --- Deleting entries ------------------------------------------------------------

  function Without(paths: seq<string>, gone: set<string>): (r: seq<string>)
    ensures forall p :: p in r <==> p in paths && p !in gone
  {
    if paths == [] then []
    else (if paths[0] in gone then [] else [paths[0]]) + Without(paths[1..], gone)
  }

  function WithoutDirs(dirs: seq<(string, Option<nat>)>, gone: set<string>): (r: seq<(string, Option<nat>)>)
    ensures forall p :: Names(r, p) <==> Names(dirs, p) && p !in gone
  {
    if dirs == [] then []
    else
      var rest := WithoutDirs(dirs[1..], gone);
      var r := (if dirs[0].0 in gone then [] else [dirs[0]]) + rest;
      NamesConcat([dirs[0]], dirs[1..]);
      assert dirs == [dirs[0]] + dirs[1..];
      NamesConcat(if dirs[0].0 in gone then [] else [dirs[0]], rest);
      r
  }

  lemma NamesConcat(a: seq<(string, Option<nat>)>, b: seq<(string, Option<nat>)>)
    ensures forall p :: Names(a + b, p) <==> Names(a, p) || Names(b, p)
  {
    forall p ensures Names(a + b, p) <==> Names(a, p) || Names(b, p) {
      if Names(a, p) {
        var i :| 0 <= i < |a| && a[i].0 == p;
        assert (a + b)[i].0 == p;
      }
      if Names(b, p) {
        var i :| 0 <= i < |b| && b[i].0 == p;
        assert (a + b)[|a| + i].0 == p;
      }
    }
  }

  /** The allowlists with some files and directories taken out. */
  function Delete(allow: Allow, files: set<string>, dirs: set<string>): Allow {
    Allow(Without(allow.files, files), WithoutDirs(allow.dirs, dirs))
  }

  /** The failures of one visit do not depend on exemptions it does not need. */
  lemma StepUnaffected(tree: Tree, allow: Allow, less: Allow, step: Step)
    requires Visitable(tree, step)
    requires !step.Dir? ==>
      || Size(tree.files[step.path]) <= Limit(tree.files[step.path])
      || (step.path in allow.files <==> step.path in less.files)
    requires step.Dir? ==>
      || tree.dirs[step.path].files <= DIR_MAX_FILES
      || (Names(allow.dirs, step.path) <==> Names(less.dirs, step.path))
    ensures StepFailures(tree, allow, step) == StepFailures(tree, less, step)
  {
  }

  /** The exemption of every deleted path is one its visit does not need. */
  ghost predicate Unneeded(tree: Tree, files: set<string>, dirs: set<string>, step: Step)
    requires Visitable(tree, step)
  {
    && (!step.Dir? && step.path in files ==> Size(tree.files[step.path]) <= Limit(tree.files[step.path]))
    && (step.Dir? && step.path in dirs ==> tree.dirs[step.path].files <= DIR_MAX_FILES)
  }

  lemma {:induction false} FailuresUnaffected(
    tree: Tree, allow: Allow, files: set<string>, dirs: set<string>, visits: seq<Step>)
    requires forall i | 0 <= i < |visits| :: Visitable(tree, visits[i]) && Unneeded(tree, files, dirs, visits[i])
    ensures Failures(tree, Delete(allow, files, dirs), visits) == Failures(tree, allow, visits)
    decreases |visits|
  {
    if visits != [] {
      FailuresUnaffected(tree, allow, files, dirs, visits[1..]);
      assert Unneeded(tree, files, dirs, visits[0]);
      var less := Delete(allow, files, dirs);
      assert visits[0].path !in files ==> (visits[0].path in allow.files <==> visits[0].path in less.files);
      assert visits[0].path !in dirs ==> (Names(allow.dirs, visits[0].path) <==> Names(less.dirs, visits[0].path));
      StepUnaffected(tree, allow, less, visits[0]);
    }
  }

  lemma {:induction false} FailureFound(tree: Tree, allow: Allow, visits: seq<Step>, i: nat, f: Failure)
    requires forall k | 0 <= k < |visits| :: Visitable(tree, visits[k])
    requires i < |visits| && f in StepFailures(tree, allow, visits[i])
    ensures f in Failures(tree, allow, visits)
    decreases |visits|
  {
    if i > 0 {
      FailureFound(tree, allow, visits[1..], i - 1, f);
    }
  }

  /** An exempt file is never reported as too long, nor an exempt directory as too full. */
  lemma {:induction false} ExemptIsSilent(tree: Tree, allow: Allow, visits: seq<Step>, path: string, n: nat)
    requires forall k | 0 <= k < |visits| :: Visitable(tree, visits[k])
    ensures path in allow.files ==> TooLong(path, n) !in Failures(tree, allow, visits)
    ensures Names(allow.dirs, path) ==> TooMany(path, n) !in Failures(tree, allow, visits)
    decreases |visits|
  {
    if visits != [] {
      ExemptIsSilent(tree, allow, visits[1..], path, n);
      StepIsSilent(tree, allow, visits[0], path, n);
    }
  }

  lemma StepIsSilent(tree: Tree, allow: Allow, step: Step, path: string, n: nat)
    requires Visitable(tree, step)
    ensures path in allow.files ==> TooLong(path, n) !in StepFailures(tree, allow, step)
    ensures Names(allow.dirs, path) ==> TooMany(path, n) !in StepFailures(tree, allow, step)
  {
  }

  /** Deleting the exemption of an overlong file adds a failure. */
  lemma FileNeeded(tree: Tree, allow: Allow, path: string, i: nat)
    requires Valid(tree) && path in allow.files
    requires i < |tree.visits| && tree.visits[i].path == path && !tree.visits[i].Dir?
    requires Visitable(tree, tree.visits[i]) && Size(tree.files[path]) > Limit(tree.files[path])
    ensures
      var bad := TooLong(path, Size(tree.files[path]));
      bad !in Gate(tree, allow) && bad in Gate(tree, Delete(allow, {path}, {}))
  {
    var less := Delete(allow, {path}, {});
    var bad := TooLong(path, Size(tree.files[path]));
    assert path !in less.files;
    assert bad in StepFailures(tree, less, tree.visits[i]);
    FailureFound(tree, less, tree.visits, i, bad);
    ExemptIsSilent(tree, allow, tree.visits, path, bad.size);
  }

  /** Deleting the exemption of an overcrowded directory adds a failure. */
  lemma DirNeeded(tree: Tree, allow: Allow, path: string, i: nat)
    requires Valid(tree) && Names(allow.dirs, path)
    requires i < |tree.visits| && tree.visits[i] == Dir(path)
    requires Visitable(tree, tree.visits[i]) && tree.dirs[path].files > DIR_MAX_FILES
    ensures
      var bad := TooMany(path, tree.dirs[path].files);
      bad !in Gate(tree, allow) && bad in Gate(tree, Delete(allow, {}, {path}))
  {
    var less := Delete(allow, {}, {path});
    var bad := TooMany(path, tree.dirs[path].files);
    assert !Names(less.dirs, path);
    assert bad in StepFailures(tree, less, tree.visits[i]);
    FailureFound(tree, less, tree.visits, i, bad);
    ExemptIsSilent(tree, allow, tree.visits, path, bad.size);
  }

  /** For a visited file that parses, the audit reports its exemption as within the limit
      exactly when deleting the exemption leaves the gate's failures as they were. */
  lemma FileAuditMatchesGate(tree: Tree, allow: Allow, path: string, i: nat)
    requires Valid(tree) && path in allow.files
    requires i < |tree.visits| && tree.visits[i].path == path && !tree.visits[i].Dir?
    requires Visitable(tree, tree.visits[i]) && (tree.files[path].rust || tree.files[path].parses)
    ensures Reported(tree, allow, WithinLimit(path)) <==> Gate(tree, Delete(allow, {path}, {})) == Gate(tree, allow)
  {
    WithinLimitReported(tree, allow, path);
    if Size(tree.files[path]) <= Limit(tree.files[path]) {
      OneUnneeded(tree, allow, {path}, {});
    } else {
      FileNeeded(tree, allow, path, i);
    }
  }

  /** The same for a visited directory and the cap on its files. */
  lemma DirAuditMatchesGate(tree: Tree, allow: Allow, path: string, i: nat)
    requires Valid(tree) && Names(allow.dirs, path)
    requires i < |tree.visits| && tree.visits[i] == Dir(path) && Visitable(tree, tree.visits[i])
    ensures Reported(tree, allow, WithinCap(path)) <==> Gate(tree, Delete(allow, {}, {path})) == Gate(tree, allow)
  {
    WithinCapReported(tree, allow, path);
    if tree.dirs[path].files <= DIR_MAX_FILES {
      OneUnneeded(tree, allow, {}, {path});
    } else {
      DirNeeded(tree, allow, path, i);
    }
  }

  lemma WithinLimitReported(tree: Tree, allow: Allow, path: string)
    requires path in allow.files && path in tree.files && (tree.files[path].rust || tree.files[path].parses)
    ensures Reported(tree, allow, WithinLimit(path)) <==> Size(tree.files[path]) <= Limit(tree.files[path])
  {
    var k :| 0 <= k < |allow.files| && allow.files[k] == path;
    if Size(tree.files[path]) <= Limit(tree.files[path]) {
      assert FileEntry(tree, allow.files[k]) == Some(WithinLimit(path));
    }
  }

  lemma WithinCapReported(tree: Tree, allow: Allow, path: string)
    requires Names(allow.dirs, path) && path in tree.dirs
    ensures Reported(tree, allow, WithinCap(path)) <==> tree.dirs[path].files <= DIR_MAX_FILES
  {
    var k :| 0 <= k < |allow.dirs| && allow.dirs[k].0 == path;
    if tree.dirs[path].files <= DIR_MAX_FILES {
      assert DirEntry(tree, allow.dirs[k].0, allow.dirs[k].1) == Some(WithinCap(path));
    }
  }

  lemma OneUnneeded(tree: Tree, allow: Allow, files: set<string>, dirs: set<string>)
    requires Valid(tree)
    requires forall p | p in files :: p in tree.files && Size(tree.files[p]) <= Limit(tree.files[p])
    requires forall p | p in dirs :: p in tree.dirs && tree.dirs[p].files <= DIR_MAX_FILES
    ensures Gate(tree, Delete(allow, files, dirs)) == Gate(tree, allow)
  {
    forall i | 0 <= i < |tree.visits| ensures Unneeded(tree, files, dirs, tree.visits[i]) {
      assert Visitable(tree, tree.visits[i]);
    }
    FailuresUnaffected(tree, allow, files, dirs, tree.visits);
  }

  /** Entries whose target is gone or within its limit. */
  ghost predicate Deletable(tree: Tree, allow: Allow, files: set<string>, dirs: set<string>) {
    && (forall p | p in files :: Reported(tree, allow, NoSuchFile(p)) || Reported(tree, allow, WithinLimit(p)))
    && (forall p | p in dirs :: Reported(tree, allow, NoSuchDir(p)) || Reported(tree, allow, WithinCap(p)))
  }

  /** Any number of such entries can be deleted together, parsing or not, visited or not,
      and the gate's failures stay as they were. */
  lemma DeletingStaleIsSafe(tree: Tree, allow: Allow, files: set<string>, dirs: set<string>)
    requires Valid(tree) && Deletable(tree, allow, files, dirs)
    ensures Gate(tree, Delete(allow, files, dirs)) == Gate(tree, allow)
  {
    forall i | 0 <= i < |tree.visits| ensures Unneeded(tree, files, dirs, tree.visits[i]) {
      assert Visitable(tree, tree.visits[i]);
    }
    FailuresUnaffected(tree, allow, files, dirs, tree.visits);
  }

  /** The list is printed under one heading that says to delete the entries, and for a
      reason that states the wrong count that advice is wrong: such an entry is only
      reported for an overcrowded directory, and deleting it adds a failure. */
  lemma WrongCountIsStillNeeded(tree: Tree, allow: Allow, path: string, claimed: nat, actual: nat, i: nat)
    requires Valid(tree) && Reported(tree, allow, WrongCount(path, claimed, actual))
    requires i < |tree.visits| && tree.visits[i] == Dir(path)
    ensures TooMany(path, actual) !in Gate(tree, allow)
    ensures TooMany(path, actual) in Gate(tree, Delete(allow, {}, {path}))
  {
    assert Visitable(tree, tree.visits[i]);
    var entry := WrongCount(path, claimed, actual);
    var k :| 0 <= k < |allow.dirs| && DirEntry(tree, allow.dirs[k].0, allow.dirs[k].1) == Some(entry);
    assert allow.dirs[k].0 == path;
    DirNeeded(tree, allow, path, i);
  }
}
