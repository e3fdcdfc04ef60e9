/** Where a `{doc}` reference leads: resolving a relative or absolute reference from the
    page that carries it.
 */
module DocTargets {
  import opened Text

  /** A path component that names something. */
  predicate Named(piece: string) {
    piece != "" && piece != "." && piece != ".."
  }

  predicate Clean(parts: seq<string>) {
    forall i | 0 <= i < |parts| :: Named(parts[i]) && Without(parts[i], '/')
  }

  /** `parts` after one more component. */
  function Step(parts: seq<string>, piece: string): seq<string> {
    if piece == ".." then (if parts == [] then [] else parts[..|parts| - 1])
    else if Named(piece) then parts + [piece]
    else parts
  }

  function Walk(parts: seq<string>, pieces: seq<string>): seq<string>
    decreases |pieces|
  {
    if pieces == [] then parts else Walk(Step(parts, pieces[0]), pieces[1..])
  }

  /** A page's directory relative to the documentation root, as `pathlib` prints it. */
  function Relative(parent: seq<string>): string {
    if parent == [] then "." else Join(parent, '/')
  }

  function Base(parent: seq<string>, target: string): string {
    if target != "" && target[0] == '/' then StripLeft(target, '/') else Relative(parent) + ("/" + target)
  }

  function TargetOf(parent: seq<string>, target: string): string {
    Join(Walk([], Split(Base(parent, Strip(target)), '/')), '/')
  }

  /** `_target_of`: pushes and pops components in source order. */
  method ResolveTarget(parent: seq<string>, target: string) returns (r: string)
    ensures r == TargetOf(parent, target)
  {
    var parts := [];
    var pieces := Split(Base(parent, Strip(target)), '/');
    for i := 0 to |pieces|
      invariant Walk([], pieces) == Walk(parts, pieces[i..])
    {
      var piece := pieces[i];
      if piece == ".." {
        if |parts| > 0 {
          parts := parts[..|parts| - 1];
        }
      } else if piece != "." && piece != "" {
        parts := parts + [piece];
      }
    }
    return Join(parts, '/');
  }

  lemma {:induction false} WalkConcat(parts: seq<string>, a: seq<string>, b: seq<string>)
    ensures Walk(parts, a + b) == Walk(Walk(parts, a), b)
    decreases |a|
  {
    if a == [] {
      assert a + b == b;
    } else {
      assert (a + b)[1..] == a[1..] + b;
      WalkConcat(Step(parts, a[0]), a[1..], b);
    }
  }

  lemma {:induction false} WalkClean(parts: seq<string>, pieces: seq<string>)
    requires Clean(parts) && forall i | 0 <= i < |pieces| :: Without(pieces[i], '/')
    ensures Clean(Walk(parts, pieces))
    decreases |pieces|
  {
    if pieces != [] {
      WalkClean(Step(parts, pieces[0]), pieces[1..]);
    }
  }

  lemma {:induction false} WalkNamed(parts: seq<string>, pieces: seq<string>)
    requires Clean(pieces)
    ensures Walk(parts, pieces) == parts + pieces
    decreases |pieces|
  {
    if pieces == [] {
      assert parts + pieces == parts;
    } else {
      WalkNamed(parts + [pieces[0]], pieces[1..]);
      assert parts + pieces == parts + [pieces[0]] + pieces[1..];
    }
  }

  /** Every result is free of empty, "." and ".." components. */
  lemma TargetClean(parent: seq<string>, target: string)
    ensures exists parts :: Clean(parts) && TargetOf(parent, target) == Join(parts, '/')
  {
    var base := Base(parent, Strip(target));
    SplitWithout(base, '/');
    WalkClean([], Split(base, '/'));
  }

  /** `n` copies of "../" in front of `s`. */
  function Up(n: nat, s: string): string {
    if n == 0 then s else ".." + ("/" + Up(n - 1, s))
  }

  /** `parts` with its last `n` components gone, or nothing left. */
  function Climb(parts: seq<string>, n: nat): seq<string> {
    if n >= |parts| then [] else parts[..|parts| - n]
  }

  lemma {:induction false} WalkUp(parts: seq<string>, n: nat, s: string)
    ensures Walk(parts, Split(Up(n, s), '/')) == Walk(Climb(parts, n), Split(s, '/'))
    decreases n
  {
    if n == 0 {
      assert Climb(parts, 0) == parts;
    } else {
      SplitWhole("..", '/');
      SplitConcat("..", Up(n - 1, s), '/');
      var rest := Split(Up(n - 1, s), '/');
      assert Split(Up(n, s), '/') == [".."] + rest;
      assert ([".."] + rest)[0] == ".." && ([".."] + rest)[1..] == rest;
      WalkUp(Step(parts, ".."), n - 1, s);
      assert Climb(Step(parts, ".."), n - 1) == Climb(parts, n);
    }
  }

  lemma WalkRelative(parent: seq<string>, target: string)
    requires Clean(parent)
    ensures Walk([], Split(Relative(parent) + ("/" + target), '/')) == Walk(parent, Split(target, '/'))
  {
    SplitConcat(Relative(parent), target, '/');
    WalkConcat([], Split(Relative(parent), '/'), Split(target, '/'));
    if parent == [] {
      SplitWhole(".", '/');
      assert Walk([], ["."]) == Walk(Step([], "."), ["."][1..]);
    } else {
      SplitJoin(parent, '/');
      WalkNamed([], parent);
      assert [] + parent == parent;
    }
  }

  lemma {:induction false} UpTrimmed(n: nat, s: string)
    requires s != "" && Trimmed(s) && s[0] != '/'
    ensures Up(n, s) != "" && Trimmed(Up(n, s)) && Up(n, s)[0] != '/'
  {
    if n > 0 {
      UpTrimmed(n - 1, s);
      var u := Up(n - 1, s);
      assert Up(n, s)[|Up(n, s)| - 1] == u[|u| - 1];
    }
  }

  lemma JoinStarts(t: seq<string>)
    requires t != [] && Clean(t)
    ensures Join(t, '/') != "" && Join(t, '/')[0] != '/'
  {
    assert t[0] != "";
    assert Join(t, '/')[0] == t[0][0];
  }

  /** From a page `d` directories deep, `n` copies of "../" and then a clean path lead to
      that path below the page's directory with `n` levels removed; climbing past the root
      stops there. */
  lemma ClimbResolves(parent: seq<string>, n: nat, t: seq<string>)
    requires Clean(parent) && Clean(t) && t != [] && Trimmed(Join(t, '/'))
    ensures TargetOf(parent, Up(n, Join(t, '/'))) == Join(Climb(parent, n) + t, '/')
  {
    var s := Join(t, '/');
    JoinStarts(t);
    UpTrimmed(n, s);
    StripTrimmed(Up(n, s));
    WalkRelative(parent, Up(n, s));
    WalkUp(parent, n, s);
    SplitJoin(t, '/');
    WalkNamed(Climb(parent, n), t);
  }

  /** So climbing all the way reaches any target. */
  lemma EveryTargetReachable(parent: seq<string>, n: nat, t: seq<string>)
    requires Clean(parent) && Clean(t) && t != [] && Trimmed(Join(t, '/')) && n >= |parent|
    ensures TargetOf(parent, Up(n, Join(t, '/'))) == Join(t, '/')
  {
    ClimbResolves(parent, n, t);
    assert Climb(parent, n) + t == t;
  }

  /** The absolute spelling leads to the same place from every page. */
  lemma AbsoluteResolves(parent: seq<string>, t: seq<string>)
    requires Clean(t) && t != [] && Trimmed(Join(t, '/'))
    ensures TargetOf(parent, "/" + Join(t, '/')) == Join(t, '/')
  {
    var s := Join(t, '/');
    JoinStarts(t);
    assert ("/" + s)[|s|] == s[|s| - 1];
    StripTrimmed("/" + s);
    assert StripLeft("/" + s, '/') == s by {
      assert ("/" + s)[1..] == s;
    }
    SplitJoin(t, '/');
    WalkNamed([], t);
    assert [] + t == t;
  }
}
