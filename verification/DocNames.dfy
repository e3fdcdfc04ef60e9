/** Which spellings the documentation linker resolves: the index of unambiguous API
    spellings, the single-call test and the repository paths.
 */
module DocNames {
  import opened Common
  import opened Text

  // --- Exactly one call ------------------------------------------------------------

  /** Opening minus closing parentheses. */
  function Level(s: string): int {
    if s == [] then 0
    else Level(s[..|s| - 1]) + (if s[|s| - 1] == '(' then 1 else if s[|s| - 1] == ')' then -1 else 0)
  }

  /** Every parenthesis closes inside `args`. */
  predicate Balanced(args: string) {
    Level(args) == 0 && forall i | 0 <= i <= |args| :: Level(args[..i]) >= 0
  }

  predicate IsNameChar(c: char) { IsWord(c) || c == '.' }

  function NameEnd(s: string, from: nat): (k: nat)
    requires from <= |s|
    ensures from <= k <= |s|
    ensures forall j | from <= j < k :: IsNameChar(s[j])
    ensures k < |s| ==> !IsNameChar(s[k])
    decreases |s| - from
  {
    if from == |s| || !IsNameChar(s[from]) then from else NameEnd(s, from + 1)
  }

  predicate CallName(s: string) {
    s != "" && IsWord(s[0]) && !IsDigit(s[0]) && forall i | 0 <= i < |s| :: IsNameChar(s[i])
  }

  /** A name, an opening parenthesis, anything, and a closing parenthesis at the end. */
  predicate CallShape(s: string) {
    var k := NameEnd(s, 0);
    CallName(s[..k]) && k + 1 < |s| && s[k] == '(' && s[|s| - 1] == ')'
  }

  function SingleCall(s: string): Option<string> {
    if CallShape(s) && Balanced(s[NameEnd(s, 0) + 1..|s| - 1]) then Some(s[..NameEnd(s, 0)]) else None
  }

  /** `_single_call`: one pass over the arguments with a depth counter. */
  method FindSingleCall(s: string) returns (r: Option<string>)
    ensures r == SingleCall(s)
  {
    if !CallShape(s) {
      return None;
    }
    var k := NameEnd(s, 0);
    var args := s[k + 1..|s| - 1];
    var depth := 0;
    for i := 0 to |args|
      invariant depth == Level(args[..i])
      invariant forall j | 0 <= j <= i :: Level(args[..j]) >= 0
    {
      assert args[..i + 1][..i] == args[..i];
      if args[i] == '(' {
        depth := depth + 1;
      } else if args[i] == ')' {
        depth := depth - 1;
        if depth < 0 {
          assert Level(args[..i + 1]) < 0;
          return None;
        }
      }
    }
    assert args[..|args|] == args;
    return if depth == 0 then Some(s[..k]) else None;
  }

  lemma {:induction false} LevelFlat(s: string)
    requires forall i | 0 <= i < |s| :: IsNameChar(s[i])
    ensures Level(s) == 0
  {
    if s != [] {
      LevelFlat(s[..|s| - 1]);
    }
  }

  lemma {:induction false} LevelConcat(a: string, b: string)
    ensures Level(a + b) == Level(a) + Level(b)
    decreases |b|
  {
    if b == [] {
      assert a + b == a;
    } else {
      assert (a + b)[..|a + b| - 1] == a + b[..|b| - 1];
      LevelConcat(a, b[..|b| - 1]);
    }
  }

  lemma LevelOpened(name: string)
    requires CallName(name)
    ensures Level(name + "(") == 1
  {
    LevelFlat(name);
    assert (name + "(")[..|name|] == name;
  }

  lemma CallPrefix(name: string, args: string, i: nat)
    requires i <= |args|
    ensures (name + "(" + args + ")")[..|name| + 1 + i] == (name + "(") + args[..i]
    ensures (name + "(" + args + ")")[..|name| + 1 + |args|] == (name + "(") + args
  {
  }

  /** The level inside a call is one more than inside its arguments. */
  lemma LevelInCall(name: string, args: string, i: nat)
    requires CallName(name) && i <= |args|
    ensures Level((name + "(" + args + ")")[..|name| + 1 + i]) == 1 + Level(args[..i])
    ensures Level(name + "(" + args + ")") == Level(args)
  {
    LevelOpened(name);
    CallPrefix(name, args, i);
    LevelConcat(name + "(", args[..i]);
    LevelConcat(name + "(", args);
  }

  lemma {:induction false} NameEndIs(s: string, from: nat, k: nat)
    requires from <= k < |s| && !IsNameChar(s[k]) && forall j | from <= j < k :: IsNameChar(s[j])
    ensures NameEnd(s, from) == k
    decreases k - from
  {
    if from < k {
      NameEndIs(s, from + 1, k);
    }
  }

  /** A spelling is one call exactly when its parentheses, opened right after the name,
      balance to zero once, at the very end. */
  lemma SingleCallExactly(name: string, args: string)
    requires CallName(name)
    ensures
      var s := name + "(" + args + ")";
      SingleCall(s) == Some(name) <==>
        Level(s) == 0 && forall k | |name| < k < |s| :: Level(s[..k]) > 0
  {
    var s := name + "(" + args + ")";
    assert s[|name|] == '(' && s[|s| - 1] == ')';
    assert forall j | 0 <= j < |name| :: s[j] == name[j];
    NameEndIs(s, 0, |name|);
    assert s[..|name|] == name && s[|name| + 1..|s| - 1] == args;
    LevelInCall(name, args, 0);
    if SingleCall(s) == Some(name) {
      forall k | |name| < k < |s| ensures Level(s[..k]) > 0 {
        LevelInCall(name, args, k - |name| - 1);
      }
    }
    if Level(s) == 0 && forall k | |name| < k < |s| :: Level(s[..k]) > 0 {
      forall i | 0 <= i <= |args| ensures Level(args[..i]) >= 0 {
        LevelInCall(name, args, i);
        assert Level(s[..|name| + 1 + i]) > 0;
      }
    }
  }

  /** Nothing but a name followed by its arguments is a call. */
  lemma SingleCallShape(s: string)
    requires SingleCall(s).Some?
    ensures exists args :: CallName(SingleCall(s).value) && s == SingleCall(s).value + "(" + args + ")"
  {
    var k := NameEnd(s, 0);
    assert s == s[..k] + "(" + s[k + 1..|s| - 1] + ")";
  }

  // --- The index -------------------------------------------------------------------

  predicate Capital(s: string) {
    s != "" && IsUpper(s[0])
  }

  /** The class-qualified tails of a dotted name. */
  function Tails(parts: seq<string>): seq<string> {
    var n := |parts|;
    if n >= 2 && Capital(parts[n - 2]) then
      [Join(parts[n - 2..], '.')]
      + (if n >= 3 && Capital(parts[n - 3]) then [Join(parts[n - 3..], '.')] else [])
    else []
  }

  /** The short forms of a name that hangs directly off the root package. */
  function ShortForms(parts: seq<string>): seq<string> {
    if |parts| == 2 && parts[0] == "batcher" then
      ["bt." + parts[1], if Capital(parts[1]) then parts[1] else "bt." + parts[1]]
    else []
  }

  /** `_spellings`: the ways a page is likely to write a target. */
  function Spellings(target: string): (r: seq<string>)
    ensures target in r
  {
    var parts := Split(target, '.');
    [target] + Tails(parts) + ShortForms(parts)
  }

  // --- What a target answers to -------------------------------------------------------

  /** One component of a dotted name. */
  ghost predicate Plain(s: string) {
    '.' !in s
  }

  /** `s` is the member of a class. */
  ghost predicate IsMember(s: string, owner: string, member: string) {
    Plain(owner) && Plain(member) && Capital(owner) && s == owner + "." + member
  }

  /** `s` is the member of a class inside a class. */
  ghost predicate IsInnerMember(s: string, outer: string, owner: string, member: string) {
    Plain(outer) && Capital(outer) && exists tail :: IsMember(tail, owner, member) && s == outer + "." + tail
  }

  /** `s` is the target, or what is left of it after some leading components. */
  ghost predicate EndsIn(target: string, s: string) {
    target == s || exists front :: target == front + "." + s
  }

  /** `target` is the name of the root package called `name`. */
  ghost predicate AtRoot(target: string, name: string) {
    Plain(name) && target == "batcher." + name
  }

  ghost predicate MemberOfClass(s: string) {
    exists owner, member :: IsMember(s, owner, member)
  }

  ghost predicate MemberOfInner(s: string) {
    exists outer, owner, member :: IsInnerMember(s, outer, owner, member)
  }

  ghost predicate ShortForRoot(target: string, s: string) {
    exists name :: AtRoot(target, name) && (s == "bt." + name || (Capital(name) && s == name))
  }

  /** A target answers to itself; a class member also to the class and its name, and to the
      outer class in front of these where there is one; and a name of the root package to
      its `bt.` form, and alone when it is a class. */
  ghost predicate AnswersTo(target: string, s: string) {
    || s == target
    || (EndsIn(target, s) && (MemberOfClass(s) || MemberOfInner(s)))
    || ShortForRoot(target, s)
  }

  lemma SplitMember(s: string, owner: string, member: string)
    requires IsMember(s, owner, member)
    ensures Split(s, '.') == [owner, member]
  {
    assert s == owner + (['.'] + member);
    SplitConcat(owner, member, '.');
    SplitWhole(owner, '.');
    SplitWhole(member, '.');
  }

  lemma SplitInner(s: string, outer: string, owner: string, member: string)
    requires IsInnerMember(s, outer, owner, member)
    ensures Split(s, '.') == [outer, owner, member]
  {
    var tail :| IsMember(tail, owner, member) && s == outer + "." + tail;
    assert s == outer + (['.'] + tail);
    SplitMember(tail, owner, member);
    SplitConcat(outer, tail, '.');
    SplitWhole(outer, '.');
  }

  /** The components of the rest of a name are the last ones of the name. */
  lemma SplitEnding(target: string, s: string)
    requires EndsIn(target, s)
    ensures |Split(s, '.')| <= |Split(target, '.')|
    ensures Split(target, '.')[|Split(target, '.')| - |Split(s, '.')|..] == Split(s, '.')
  {
    if target != s {
      var front :| target == front + "." + s;
      assert target == front + (['.'] + s);
      SplitConcat(front, s, '.');
    }
  }

  /** And the last components of a name, joined, are the rest of it. */
  lemma JoinedEnding(target: string, k: nat)
    requires k < |Split(target, '.')|
    ensures EndsIn(target, Join(Split(target, '.')[k..], '.'))
    ensures Split(Join(Split(target, '.')[k..], '.'), '.') == Split(target, '.')[k..]
  {
    var parts := Split(target, '.');
    JoinSplit(target, '.');
    SplitWithout(target, '.');
    SplitJoin(parts[k..], '.');
    if k == 0 {
      assert parts[k..] == parts;
    } else {
      assert parts == parts[..k] + parts[k..];
      JoinConcat(parts[..k], parts[k..], '.');
      assert target == Join(parts[..k], '.') + "." + Join(parts[k..], '.');
    }
  }

  lemma JoinedPair(a: string, b: string)
    ensures Join([a, b], '.') == a + "." + b
  {
    assert [a, b][1..] == [b];
    assert a + (['.'] + b) == a + "." + b;
  }

  lemma JoinedTriple(a: string, b: string, c: string)
    ensures Join([a, b, c], '.') == a + "." + (b + "." + c)
  {
    assert [a, b, c][1..] == [b, c];
    JoinedPair(b, c);
    assert a + (['.'] + (b + "." + c)) == a + "." + (b + "." + c);
  }

  lemma RootSplits(target: string, name: string)
    requires AtRoot(target, name)
    ensures Split(target, '.') == ["batcher", name]
  {
    assert target == "batcher" + (['.'] + name);
    SplitConcat("batcher", name, '.');
    SplitWhole("batcher", '.');
    SplitWhole(name, '.');
  }

  lemma RootJoins(target: string, parts: seq<string>)
    requires Split(target, '.') == parts && |parts| == 2 && parts[0] == "batcher"
    ensures AtRoot(target, parts[1])
  {
    JoinSplit(target, '.');
    SplitWithout(target, '.');
    assert Without(parts[1], '.');
    assert parts == [parts[0], parts[1]];
    JoinedPair(parts[0], parts[1]);
  }

  lemma RootMeans(target: string, s: string, parts: seq<string>)
    requires parts == Split(target, '.')
    ensures ShortForRoot(target, s) <==>
      && parts[0] == "batcher" && |parts| == 2
      && (s == "bt." + parts[1] || (Capital(parts[1]) && s == parts[1]))
  {
    if parts[0] == "batcher" && |parts| == 2 {
      RootJoins(target, parts);
    }
    if ShortForRoot(target, s) {
      var name :| AtRoot(target, name) && (s == "bt." + name || (Capital(name) && s == name));
      RootSplits(target, name);
    }
  }

  lemma MemberMeans(target: string, s: string, parts: seq<string>, n: nat)
    requires parts == Split(target, '.') && n == |parts|
    ensures EndsIn(target, s) && MemberOfClass(s) <==>
      n >= 2 && Capital(parts[n - 2]) && s == Join(parts[n - 2..], '.')
  {
    if EndsIn(target, s) && MemberOfClass(s) {
      var owner, member :| IsMember(s, owner, member);
      SplitMember(s, owner, member);
      SplitEnding(target, s);
      assert parts[n - 2] == parts[n - 2..][0];
      JoinedPair(owner, member);
    }
    if n >= 2 && Capital(parts[n - 2]) && s == Join(parts[n - 2..], '.') {
      JoinedEnding(target, n - 2);
      SplitWithout(target, '.');
      assert parts[n - 2..] == [parts[n - 2], parts[n - 1]];
      JoinedPair(parts[n - 2], parts[n - 1]);
      assert Without(parts[n - 2], '.') && Without(parts[n - 1], '.');
      assert IsMember(s, parts[n - 2], parts[n - 1]);
    }
  }

  lemma InnerSplits(target: string, s: string, parts: seq<string>, n: nat)
    requires parts == Split(target, '.') && n == |parts| && EndsIn(target, s) && MemberOfInner(s)
    ensures n >= 3 && Capital(parts[n - 2]) && Capital(parts[n - 3]) && s == Join(parts[n - 3..], '.')
  {
    var outer, owner, member :| IsInnerMember(s, outer, owner, member);
    SplitInner(s, outer, owner, member);
    SplitEnding(target, s);
    assert parts[n - 3] == parts[n - 3..][0] && parts[n - 2] == parts[n - 3..][1];
    JoinedTriple(outer, owner, member);
  }

  lemma InnerJoins(target: string, s: string, parts: seq<string>, n: nat)
    requires parts == Split(target, '.') && n == |parts| >= 3 && Capital(parts[n - 2]) && Capital(parts[n - 3])
    requires s == Join(parts[n - 3..], '.')
    ensures EndsIn(target, s) && MemberOfInner(s)
  {
    JoinedEnding(target, n - 3);
    SplitWithout(target, '.');
    var outer, owner, member := parts[n - 3], parts[n - 2], parts[n - 1];
    assert parts[n - 3..] == [outer, owner, member];
    JoinedTriple(outer, owner, member);
    assert Without(outer, '.') && Without(owner, '.') && Without(member, '.');
    assert IsMember(owner + "." + member, owner, member);
    assert IsInnerMember(s, outer, owner, member);
  }

  lemma {:induction false} TailsAre(parts: seq<string>, n: nat, s: string)
    requires n == |parts|
    ensures s in Tails(parts) <==>
      && n >= 2 && Capital(parts[n - 2])
      && (s == Join(parts[n - 2..], '.') || (n >= 3 && Capital(parts[n - 3]) && s == Join(parts[n - 3..], '.')))
  {
    if n >= 3 && Capital(parts[n - 2]) && Capital(parts[n - 3]) {
      assert Tails(parts) == [Join(parts[n - 2..], '.'), Join(parts[n - 3..], '.')];
    } else if n >= 2 && Capital(parts[n - 2]) {
      assert Tails(parts) == [Join(parts[n - 2..], '.')];
    }
  }

  lemma ShortFormsAre(parts: seq<string>, s: string)
    requires parts != []
    ensures s in ShortForms(parts) <==>
      && parts[0] == "batcher" && |parts| == 2
      && (s == "bt." + parts[1] || (Capital(parts[1]) && s == parts[1]))
  {
  }

  /** These are all the spellings of a target. */
  lemma SpellingsMean(target: string, s: string)
    ensures s in Spellings(target) <==> AnswersTo(target, s)
  {
    var parts := Split(target, '.');
    var n := |parts|;
    MemberMeans(target, s, parts, n);
    RootMeans(target, s, parts);
    TailsAre(parts, n, s);
    ShortFormsAre(parts, s);
    assert s in Spellings(target) <==> s == target || s in Tails(parts) || s in ShortForms(parts);
    if n >= 3 && Capital(parts[n - 2]) && Capital(parts[n - 3]) && s == Join(parts[n - 3..], '.') {
      InnerJoins(target, s, parts, n);
    }
    if EndsIn(target, s) && MemberOfInner(s) {
      InnerSplits(target, s, parts, n);
    }
  }

  lemma DotInside(a: string, b: string)
    ensures '.' in a + "." + b
  {
    assert (a + "." + b)[|a|] == '.';
  }

  /** So a bare name is never a spelling, unless it is a class of the root package or the
      target itself: `select` alone is a word. */
  lemma BareNameIsAClass(target: string, s: string)
    requires Plain(s) && s in Spellings(target) && s != target
    ensures Capital(s) && AtRoot(target, s)
  {
    SpellingsMean(target, s);
    forall a, b ensures s != a + "." + b {
      DotInside(a, b);
    }
    forall name ensures s != "bt." + name {
      DotInside("bt", name);
    }
  }

  /** Exactly one of the targets is spelled this way. */
  ghost predicate Unambiguous(targets: seq<string>, spelling: string, target: string) {
    target in targets && AnswersTo(target, spelling)
    && forall t | t in targets && AnswersTo(t, spelling) :: t == target
  }

  predicate Has(table: map<string, set<string>>, spelling: string, target: string) {
    spelling in table && target in table[spelling]
  }

  function Add(table: map<string, set<string>>, spelling: string, target: string): (r: map<string, set<string>>)
    ensures forall k, t :: Has(r, k, t) <==> Has(table, k, t) || (k == spelling && t == target)
  {
    table[spelling := (if spelling in table then table[spelling] else {}) + {target}]
  }

  ghost predicate NoneEmpty(table: map<string, set<string>>) {
    forall k | k in table :: table[k] != {}
  }

  /** The table holds what the targets answer to. */
  ghost predicate Tabulates(table: map<string, set<string>>, targets: seq<string>) {
    NoneEmpty(table) && forall k, t :: Has(table, k, t) <==> t in targets && k in Spellings(t)
  }

  /** The inner loop of `index`. */
  method AddSpellings(table: map<string, set<string>>, names: seq<string>, target: string)
    returns (r: map<string, set<string>>)
    requires NoneEmpty(table)
    ensures NoneEmpty(r)
    ensures forall k, t :: Has(r, k, t) <==> Has(table, k, t) || (t == target && k in names)
  {
    r := table;
    for j := 0 to |names|
      invariant NoneEmpty(r)
      invariant forall k, t :: Has(r, k, t) <==> Has(table, k, t) || (t == target && k in names[..j])
    {
      assert names[..j + 1] == names[..j] + [names[j]];
      r := Add(r, names[j], target);
    }
    assert names[..|names|] == names;
  }

  lemma TabulatesNext(before: map<string, set<string>>, table: map<string, set<string>>, targets: seq<string>, i: nat)
    requires i < |targets| && Tabulates(before, targets[..i]) && NoneEmpty(table)
    requires forall k, t :: Has(table, k, t) <==> Has(before, k, t) || (t == targets[i] && k in Spellings(targets[i]))
    ensures Tabulates(table, targets[..i + 1])
  {
    assert targets[..i + 1] == targets[..i] + [targets[i]];
  }

  predicate Maps(index: map<string, string>, spelling: string, target: string) {
    spelling in index && index[spelling] == target
  }

  /** `index`, over the targets in whatever order the set yields them. A spelling is in
      the index exactly when one published target answers to it, and it maps to that one. */
  method BuildIndex(targets: seq<string>) returns (index: map<string, string>)
    ensures forall k, t :: Maps(index, k, t) <==> Unambiguous(targets, k, t)
  {
    var table: map<string, set<string>> := map[];
    for i := 0 to |targets|
      invariant Tabulates(table, targets[..i])
    {
      ghost var before := table;
      table := AddSpellings(table, Spellings(targets[i]), targets[i]);
      TabulatesNext(before, table, targets, i);
    }
    assert targets[..|targets|] == targets;
    index := map k | k in table && |table[k]| == 1 :: Only(table[k]);
    forall k, t ensures Maps(index, k, t) <==> Unambiguous(targets, k, t) {
      forall x {
        SpellingsMean(x, k);
      }
      IndexExact(table, targets, index, k, t);
    }
  }

  function Only(s: set<string>): (x: string)
    requires |s| == 1
    ensures s == {x}
  {
    SingletonIsOne(s);
    var x :| x in s;
    x
  }

  lemma SingletonIsOne(s: set<string>)
    requires |s| == 1
    ensures exists x :: x in s
    ensures forall x, y | x in s && y in s :: x == y
    ensures forall x | x in s :: s == {x}
  {
    var x :| x in s;
    assert |s - {x}| == 0;
    assert forall y | y in s :: y == x;
  }

  lemma IndexExact(
    table: map<string, set<string>>, targets: seq<string>, index: map<string, string>, k: string, t: string)
    requires Tabulates(table, targets)
    requires index == map k | k in table && |table[k]| == 1 :: Only(table[k])
    requires forall x :: k in Spellings(x) <==> AnswersTo(x, k)
    ensures Maps(index, k, t) <==> Unambiguous(targets, k, t)
  {
    if Maps(index, k, t) {
      assert table[k] == {t};
      assert forall x | x in targets && k in Spellings(x) :: Has(table, k, x);
      assert Has(table, k, t);
    }
    if Unambiguous(targets, k, t) {
      assert Has(table, k, t);
      assert forall x | x in table[k] :: Has(table, k, x);
      assert table[k] == {t};
    }
  }

  // --- Repository paths ------------------------------------------------------------

  predicate IsPathChar(c: char) { IsWord(c) || c == '.' || c == '-' }

  /** One or more non-empty components, joined by slashes. */
  predicate Components(s: string)
    decreases |s|
  {
    var k := Seek(s, '/', 0);
    && k > 0 && (forall i | 0 <= i < k :: IsPathChar(s[i]))
    && (k < |s| ==> Components(s[k + 1..]))
  }

  predicate PathLike(s: string) {
    var k := Seek(s, '/', 0);
    0 < k < |s| && (forall i | 0 <= i < k :: IsNameChar(s[i])) && Components(s[k + 1..])
  }

  const SOURCE_ROOTS: seq<string> := ["examples/", "benchmarks/", "tools/", "tests/", "crates/", "python/"]

  predicate UnderRoot(s: string) {
    exists i | 0 <= i < |SOURCE_ROOTS| :: SOURCE_ROOTS[i] <= s
  }

  lemma {:induction false} ComponentChars(s: string)
    requires Components(s)
    ensures forall i | 0 <= i < |s| :: IsPathChar(s[i]) || s[i] == '/'
    decreases |s|
  {
    var k := Seek(s, '/', 0);
    if k < |s| {
      ComponentChars(s[k + 1..]);
      assert forall i | k < i < |s| :: s[i] == s[k + 1..][i - k - 1];
    }
  }

  lemma PathChars(s: string)
    requires PathLike(s)
    ensures forall i | 0 <= i < |s| :: IsPathChar(s[i]) || s[i] == '/'
  {
    var k := Seek(s, '/', 0);
    ComponentChars(s[k + 1..]);
    assert forall i | k < i < |s| :: s[i] == s[k + 1..][i - k - 1];
  }

  // --- Resolution ------------------------------------------------------------------

  /** What the linker knows: the index, the paths that exist, which are directories, and
      the addresses files and directories are browsed at. */
  datatype Site = Site(
    index: map<string, string>, files: set<string>, dirs: set<string>, blob: string, tree: string)

  function SourcePath(site: Site, spelling: string): Option<string> {
    var name := StripRight(Strip(spelling), '/');
    if PathLike(name) && UnderRoot(name) && (name in site.files || name in site.dirs) then Some(name) else None
  }

  function Lookup(site: Site, name: string): Option<string> {
    var bare := StripLeft(name, '.');
    if bare in site.index then Some(site.index[bare]) else None
  }

  function Resolve(site: Site, spelling: string): Option<string> {
    var name := Strip(spelling);
    if name != "" && name[|name| - 1] == ')' then
      match SingleCall(name)
      case None => None
      case Some(call) => Lookup(site, call)
    else Lookup(site, name)
  }

  predicate Dotted(spelling: string) {
    '.' in Split(spelling, '(')[0]
  }

  /** The test a code span passes to be rewritten. */
  predicate Linkable(site: Site, spelling: string) {
    (Dotted(spelling) && Resolve(site, spelling).Some?) || SourcePath(site, spelling).Some?
  }

  /** A link to a repository path is spelled with path characters, slashes and spaces. */
  lemma SourceSpelling(site: Site, spelling: string, i: nat)
    requires SourcePath(site, spelling).Some? && i < |spelling|
    ensures IsPathChar(spelling[i]) || spelling[i] == '/' || IsSpace(spelling[i])
  {
    var c := spelling[i];
    if !IsSpace(c) {
      StripKeeps(spelling, i);
      var stripped := Strip(spelling);
      var j :| 0 <= j < |stripped| && stripped[j] == c;
      var name := StripRight(stripped, '/');
      PathChars(name);
      if j < |name| {
        assert name[j] == c;
      }
    }
  }
}
