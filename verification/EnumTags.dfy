/** Reading serde tags off Rust source: brace matching, depth-zero lines, and the line
    state machine of the wire-contract check.
 */
module EnumTags {
  import opened Common
  import opened Text

  // --- `_snake` --------------------------------------------------------------------

  function SnakeTail(s: string): string {
    if s == [] then []
    else (if IsUpper(s[0]) then ['_', Lower(s[0])] else [s[0]]) + SnakeTail(s[1..])
  }

  /** An underscore before every capital but the first character, all in lower case. */
  function Snake(name: string): string {
    if name == [] then [] else [Lower(name[0])] + SnakeTail(name[1..])
  }

  /** How many of the characters from the second to the one before `i` are capitals. */
  ghost function CapitalsBefore(name: string, i: nat): nat
    requires i <= |name|
  {
    if i <= 1 then 0 else CapitalsBefore(name, i - 1) + if 'A' <= name[i - 1] <= 'Z' then 1 else 0
  }

  /** The `i`-th character of `name` stands in `tag` in lower case, as many places further on
      as there are underscores up to it, and behind one when it is a capital after the first
      character. */
  ghost predicate Placed(tag: string, name: string, i: nat)
    requires i < |name|
  {
    var at := i + CapitalsBefore(name, i + 1);
    && at < |tag|
    && tag[at] == (if 'A' <= name[i] <= 'Z' then (name[i] as int + 32) as char else name[i])
    && (i > 0 && 'A' <= name[i] <= 'Z' ==> at > 0 && tag[at - 1] == '_')
  }

  /** `tag` is `name` with its capitals in lower case, and an underscore before each of them
      but the first character, and nothing else. */
  ghost predicate IsSnakeOf(tag: string, name: string) {
    && |tag| == |name| + CapitalsBefore(name, |name|)
    && forall i | 0 <= i < |name| :: Placed(tag, name, i)
  }

  /** Snake-casing a name cut short. */
  lemma {:induction false} SnakeGrows(name: string)
    requires |name| >= 2
    ensures
      var n := |name| - 1;
      Snake(name) == Snake(name[..n]) + (if IsUpper(name[n]) then ['_', Lower(name[n])] else [name[n]])
  {
    var n := |name| - 1;
    SnakeTailGrows(name[1..n], name[n]);
    assert name[1..] == name[1..n] + [name[n]] && name[..n][1..] == name[1..n];
  }

  lemma {:induction false} SnakeTailGrows(s: string, c: char)
    ensures SnakeTail(s + [c]) == SnakeTail(s) + (if IsUpper(c) then ['_', Lower(c)] else [c])
  {
    if s == [] {
      assert [] + [c] == [c] && [c][1..] == [];
    } else {
      SnakeTailGrows(s[1..], c);
      assert (s + [c])[0] == s[0] && (s + [c])[1..] == s[1..] + [c];
    }
  }

  lemma {:induction false} CapitalsOfPrefix(name: string, n: nat, i: nat)
    requires i <= n <= |name|
    ensures CapitalsBefore(name[..n], i) == CapitalsBefore(name, i)
  {
    if i > 1 {
      CapitalsOfPrefix(name, n, i - 1);
    }
  }

  lemma {:induction false} CapitalsGrow(name: string, i: nat, j: nat)
    requires i <= j <= |name|
    ensures CapitalsBefore(name, i) <= CapitalsBefore(name, j)
  {
    if i < j {
      CapitalsGrow(name, i, j - 1);
    }
  }

  /** What the last of several characters adds to the tag. */
  function LastPiece(name: string): string
    requires |name| >= 2
  {
    var c := name[|name| - 1];
    if IsUpper(c) then ['_', Lower(c)] else [c]
  }

  /** A character stands right in a tag exactly when it does in the tag and the name cut short. */
  lemma PlacedInPrefix(tag: string, name: string, n: nat, m: nat, i: nat)
    requires i < n <= |name| && m == n + CapitalsBefore(name, n) <= |tag|
    ensures Placed(tag[..m], name[..n], i) == Placed(tag, name, i)
  {
    CapitalsOfPrefix(name, n, i + 1);
    CapitalsGrow(name, i + 1, n);
  }

  /** A tag of a name is a tag of the name cut short and one more piece. */
  lemma SnakeSplits(tag: string, name: string, n: nat, m: nat)
    requires |name| == n + 1 >= 2 && m == n + CapitalsBefore(name, n) <= |tag|
    ensures IsSnakeOf(tag, name) <==> IsSnakeOf(tag[..m], name[..n]) && tag[m..] == LastPiece(name)
  {
    CapitalsOfPrefix(name, n, n);
    forall i | 0 <= i < n ensures Placed(tag[..m], name[..n], i) == Placed(tag, name, i) {
      PlacedInPrefix(tag, name, n, m, i);
    }
    LastPlaced(tag, name, n, m);
  }

  lemma LastPlaced(tag: string, name: string, n: nat, m: nat)
    requires |name| == n + 1 >= 2 && m == n + CapitalsBefore(name, n) <= |tag|
    ensures |tag| == |name| + CapitalsBefore(name, |name|) && Placed(tag, name, n) <==> tag[m..] == LastPiece(name)
  {
    if IsUpper(name[n]) {
      assert |tag| == m + 2 ==> tag[m..] == [tag[m], tag[m + 1]];
    } else {
      assert |tag| == m + 1 ==> tag[m..] == [tag[m]];
    }
  }

  /** Snake-casing puts every character where it belongs, and only its result does. */
  lemma {:induction false} SnakeMeans(name: string, tag: string)
    ensures tag == Snake(name) <==> IsSnakeOf(tag, name)
  {
    if |name| >= 2 {
      var n := |name| - 1;
      var m := n + CapitalsBefore(name, n);
      var front := name[..n];
      SnakeMeans(front, Snake(front));
      CapitalsOfPrefix(name, n, n);
      SnakeGrows(name);
      if m <= |tag| {
        SnakeMeans(front, tag[..m]);
        SnakeSplits(tag, name, n, m);
        assert tag == tag[..m] + tag[m..];
        assert tag == Snake(name) ==> tag[..m] == Snake(front) && tag[m..] == LastPiece(name);
      }
    } else if |name| == 1 {
      assert name[1..] == [];
      assert IsSnakeOf(tag, name) ==> Placed(tag, name, 0) && tag == [tag[0]];
    }
  }

  function UnsnakeTail(s: string): string {
    if s == [] then []
    else if s[0] == '_' && |s| > 1 then [Upper(s[1])] + UnsnakeTail(s[2..])
    else [s[0]] + UnsnakeTail(s[1..])
  }

  /** The variant name a tag came from. */
  function Unsnake(s: string): string {
    if s == [] then [] else [Upper(s[0])] + UnsnakeTail(s[1..])
  }

  /** What the variant pattern accepts: a capital, then letters and digits. */
  predicate IsVariantName(s: string) {
    s != [] && IsUpper(s[0]) && forall i | 0 <= i < |s| :: IsAlnum(s[i])
  }

  lemma {:induction false} UnsnakeTailInverts(s: string)
    requires forall i | 0 <= i < |s| :: IsAlnum(s[i])
    ensures UnsnakeTail(SnakeTail(s)) == s
  {
    if s != [] {
      UnsnakeTailInverts(s[1..]);
      var rest := SnakeTail(s[1..]);
      if IsUpper(s[0]) {
        assert SnakeTail(s) == ['_', Lower(s[0])] + rest;
        assert SnakeTail(s)[2..] == rest;
      } else {
        assert SnakeTail(s) == [s[0]] + rest;
        assert SnakeTail(s)[1..] == rest;
      }
      assert s == [s[0]] + s[1..];
    }
  }

  /** Snake-casing loses nothing on variant names: it has a left inverse, so two variants
      of one enum never share a derived tag. */
  lemma SnakeInvertible(name: string)
    requires IsVariantName(name)
    ensures Unsnake(Snake(name)) == name
  {
    UnsnakeTailInverts(name[1..]);
    assert Snake(name)[1..] == SnakeTail(name[1..]);
    assert name == [name[0]] + name[1..];
  }

  // --- `_enum_body` ----------------------------------------------------------------

  /** The brace that closes a block entered at depth `depth`, from `i` on. */
  function Closing(src: string, i: nat, depth: nat): (r: Option<nat>)
    requires i <= |src|
    ensures r.Some? ==> i <= r.value < |src|
    decreases |src| - i
  {
    if i == |src| then None
    else if src[i] == '{' then Closing(src, i + 1, depth + 1)
    else if src[i] == '}' then
      if depth <= 1 then Some(i) else Closing(src, i + 1, depth - 1)
    else Closing(src, i + 1, depth)
  }

  function Marker(name: string): string {
    "pub enum " + name + " "
  }

  /** Where the body starts and ends, when the marker, the brace and its partner exist. */
  function BodyOf(src: string, name: string): Result<string> {
    var start := Find(src, Marker(name), 0);
    if start.None? then Err("substring not found")
    else
      var open := Find(src, "{", start.value);
      if open.None? then Err("substring not found")
      else
        var close := Closing(src, open.value + 1, 1);
        if close.None? then Err("string index out of range")
        else Ok(src[open.value + 1..close.value])
  }

  /** `_enum_body`: the brace-matched body of `pub enum <name>`. */
  method EnumBody(src: string, name: string) returns (r: Result<string>)
    ensures r == BodyOf(src, name)
  {
    var start := Find(src, Marker(name), 0);
    if start.None? {
      return Err("substring not found");
    }
    var open := Find(src, "{", start.value);
    if open.None? {
      return Err("substring not found");
    }
    assert src[open.value] == '{' by {
      assert src[open.value..open.value + 1] == "{";
    }
    var close := MatchBrace(src, open.value);
    return if close.None? then Err("string index out of range") else Ok(src[open.value + 1..close.value]);
  }

  /** The loop of `_enum_body`: counts braces up from the opening one. */
  method MatchBrace(src: string, open: nat) returns (r: Option<nat>)
    requires open < |src| && src[open] == '{'
    ensures r == Closing(src, open + 1, 1)
  {
    var depth, i := 0, open;
    while i < |src|
      invariant open <= i <= |src|
      invariant i == open ==> depth == 0
      invariant i > open ==> depth >= 1 && Closing(src, open + 1, 1) == Closing(src, i, depth)
    {
      if src[i] == '{' {
        depth := depth + 1;
      } else if src[i] == '}' {
        depth := depth - 1;
        if depth == 0 {
          return Some(i);
        }
      }
      i := i + 1;
    }
    r := None;
  }

  /** Braces that nest properly, from depth `d` back to depth 0. */
  predicate Nests(s: string, d: nat) {
    if s == [] then d == 0
    else if s[0] == '{' then Nests(s[1..], d + 1)
    else if s[0] == '}' then d > 0 && Nests(s[1..], d - 1)
    else Nests(s[1..], d)
  }

  lemma {:induction false} ClosingFound(before: string, body: string, after: string, d: nat)
    requires Nests(body, d)
    ensures Closing(before + body + "}" + after, |before|, d + 1) == Some(|before| + |body|)
    decreases |body|
  {
    var src := before + body + "}" + after;
    if body == [] {
      assert src[|before|] == '}';
    } else {
      var c := body[0];
      assert src[|before|] == c;
      assert before + body == before + [c] + body[1..];
      assert src == (before + [c]) + body[1..] + "}" + after;
      var d' := if c == '{' then d + 1 else if c == '}' then d - 1 else d;
      ClosingFound(before + [c], body[1..], after, d');
    }
  }

  /** Brace matching returns exactly the body that was written between the braces, when
      this is the first enum of that name and the body's braces nest. */
  lemma BodyRecovered(prefix: string, name: string, gap: string, body: string, suffix: string, src: string)
    requires src == prefix + Marker(name) + gap + "{" + (body + "}" + suffix)
    requires Find(src, Marker(name), 0) == Some(|prefix|)
    requires '{' !in name && '{' !in gap && Nests(body, 0)
    ensures BodyOf(src, name) == Ok(body)
  {
    var head := prefix + Marker(name) + gap;
    BraceFound(prefix, name, gap, body + "}" + suffix, src);
    BodyBetween(head, body, suffix, src);
  }

  lemma BodyBetween(head: string, body: string, suffix: string, src: string)
    requires src == head + "{" + (body + "}" + suffix) && Nests(body, 0)
    ensures Closing(src, |head| + 1, 1) == Some(|head| + 1 + |body|)
    ensures src[|head| + 1..|head| + 1 + |body|] == body
  {
    var before := head + "{";
    assert src == before + body + "}" + suffix;
    ClosingFound(before, body, suffix, 0);
  }

  lemma BraceFound(prefix: string, name: string, gap: string, rest: string, src: string)
    requires src == prefix + Marker(name) + gap + "{" + rest
    requires '{' !in name && '{' !in gap
    ensures Find(src, "{", |prefix|) == Some(|prefix + Marker(name) + gap|)
  {
    var head := prefix + Marker(name) + gap;
    MatchesMiddle(head, "{", rest);
    forall j | |prefix| <= j < |head| ensures !MatchesAt(src, j, "{") {
      NotInMarker(prefix, name, gap, j);
      assert src[j] == head[j];
      assert j + 1 <= |src| && src[j..j + 1][0] == src[j];
    }
    FindFirst(src, "{", |prefix|, |head|);
  }

  lemma NotInMarker(prefix: string, name: string, gap: string, j: nat)
    requires '{' !in name && '{' !in gap
    requires |prefix| <= j < |prefix + Marker(name) + gap|
    ensures (prefix + Marker(name) + gap)[j] != '{'
  {
    var k := j - |prefix|;
    var rest := Marker(name) + gap;
    assert (prefix + Marker(name) + gap)[j] == rest[k];
    if |Marker(name)| <= k {
      assert rest[k] == gap[k - |Marker(name)|];
    } else if 9 <= k < 9 + |name| {
      assert rest[k] == name[k - 9];
    }
  }

  // --- `_top_level_lines` ----------------------------------------------------------

  /** How a line changes the nesting depth. */
  function Delta(s: string): int {
    if s == [] then 0
    else
      (if s[0] == '{' || s[0] == '(' then 1 else if s[0] == '}' || s[0] == ')' then -1 else 0) + Delta(s[1..])
  }

  lemma {:induction false} DeltaConcat(a: string, b: string)
    ensures Delta(a + b) == Delta(a) + Delta(b)
  {
    if a == [] {
      assert a + b == b;
    } else {
      assert (a + b)[1..] == a[1..] + b;
      DeltaConcat(a[1..], b);
    }
  }

  function DeltaLines(lines: seq<string>): int {
    if lines == [] then 0 else Delta(lines[0]) + DeltaLines(lines[1..])
  }

  function TopLevel(lines: seq<string>, depth: int): seq<string> {
    if lines == [] then []
    else
      KeptLine(lines[0], depth) + TopLevel(lines[1..], depth + Delta(lines[0]))
  }

  function KeptLine(raw: string, depth: int): seq<string> {
    if depth == 0 && Strip(raw) != [] then [Strip(raw)] else []
  }

  /** `_top_level_lines`: depth is updated after a line is classified. */
  method TopLevelLines(body: string) returns (kept: seq<string>)
    ensures kept == TopLevel(SplitLines(body), 0)
  {
    kept := KeepTopLevel(SplitLines(body));
  }

  method KeepTopLevel(lines: seq<string>) returns (kept: seq<string>)
    ensures kept == TopLevel(lines, 0)
  {
    kept := [];
    var depth := 0;
    ghost var all := TopLevel(lines, 0);
    assert lines[0..] == lines && [] + all == all;
    for i := 0 to |lines|
      invariant all == kept + TopFrom(lines, i, depth)
    {
      NextLine(lines, i, depth, kept, all);
      var line := Strip(lines[i]);
      if depth == 0 && line != [] {
        kept := kept + [line];
      }
      depth := depth + Delta(lines[i]);
    }
    assert lines[|lines|..] == [] && kept + [] == kept;
  }

  function TopFrom(lines: seq<string>, i: nat, depth: int): seq<string>
    requires i <= |lines|
  {
    TopLevel(lines[i..], depth)
  }

  lemma NextLine(lines: seq<string>, i: nat, depth: int, kept: seq<string>, all: seq<string>)
    requires i < |lines| && all == kept + TopFrom(lines, i, depth)
    ensures depth == 0 && Strip(lines[i]) != [] ==>
              all == (kept + [Strip(lines[i])]) + TopFrom(lines, i + 1, depth + Delta(lines[i]))
    ensures !(depth == 0 && Strip(lines[i]) != []) ==> all == kept + TopFrom(lines, i + 1, depth + Delta(lines[i]))
  {
    assert lines[i..] == [lines[i]] + lines[i + 1..];
    TopHead(lines[i], lines[i + 1..], depth);
    LinesRegrouped(kept, KeptLine(lines[i], depth), TopLevel(lines[i + 1..], depth + Delta(lines[i])));
  }

  lemma {:induction false} TopHead(line: string, rest: seq<string>, depth: int)
    ensures TopLevel([line] + rest, depth) == KeptLine(line, depth) + TopLevel(rest, depth + Delta(line))
    ensures DeltaLines([line] + rest) == Delta(line) + DeltaLines(rest)
  {
    var all := [line] + rest;
    assert all[0] == line && all[1..] == rest;
    assert TopLevel(all, depth) == KeptLine(all[0], depth) + TopLevel(all[1..], depth + Delta(all[0]));
    assert DeltaLines(all) == Delta(all[0]) + DeltaLines(all[1..]);
  }

  lemma LinesRegrouped(a: seq<string>, b: seq<string>, c: seq<string>)
    ensures (a + b) + c == a + (b + c)
    ensures b == [] ==> a + b == a
  {
  }

  lemma {:induction false} TopLevelConcat(a: seq<string>, b: seq<string>, depth: int, far: int)
    requires far == depth + DeltaLines(a)
    ensures TopLevel(a + b, depth) == TopLevel(a, depth) + TopLevel(b, far)
  {
    if a == [] {
      assert a + b == b;
    } else {
      var line, rest := a[0], a[1..];
      var d := depth + Delta(line);
      TopLevelConcat(rest, b, d, far);
      TopLevelStep(line, rest, b, depth, d, TopLevel(rest, d), TopLevel(b, far));
      FirstApart(a, b);
    }
  }

  lemma {:induction false} TopLevelStep(
    line: string, a: seq<string>, b: seq<string>, depth: int, d: int, x: seq<string>, y: seq<string>)
    requires d == depth + Delta(line) && TopLevel(a, d) == x && TopLevel(a + b, d) == x + y
    ensures TopLevel([line] + (a + b), depth) == TopLevel([line] + a, depth) + y
  {
    TopHead(line, a, depth);
    TopHead(line, a + b, depth);
    LinesRegrouped(KeptLine(line, depth), x, y);
  }

  lemma FirstApart(a: seq<string>, b: seq<string>)
    requires a != []
    ensures [a[0]] + a[1..] == a && [a[0]] + (a[1..] + b) == a + b
  {
  }

  // --- The attribute patterns ------------------------------------------------------

  /** The tag named by a `serde(rename = "...")` that `s` starts with. */
  function RenameHere(s: string): Option<string> {
    var a := After("serde(", s);
    if a.None? then None
    else
      var b := After("rename", DropSpaces(a.value));
      if b.None? then None
      else
        var c := After("=", DropSpaces(b.value));
        if c.None? then None
        else
          var d := After("\"", DropSpaces(c.value));
          if d.None? then None
          else
            var k := Seek(d.value, '"', 0);
            if k == 0 || k == |d.value| then None else Some(d.value[..k])
  }

  /** Whether `s` starts with a `serde(skip` that ends at a word boundary. */
  predicate SkipHere(s: string) {
    var a := After("serde(", s);
    a.Some? &&
    var b := After("skip", DropSpaces(a.value));
    b.Some? && (b.value == [] || !IsWord(b.value[0]))
  }

  /** The leftmost match of the rename pattern. */
  function SearchRename(s: string): Option<string> {
    if s == [] then None
    else if RenameHere(s).Some? then RenameHere(s)
    else SearchRename(s[1..])
  }

  predicate SearchSkip(s: string) {
    s != [] && (SkipHere(s) || SearchSkip(s[1..]))
  }

  /** Neither pattern can start at a character other than `s`. */
  lemma {:induction false} SearchPast(a: string, t: string)
    requires 's' !in a
    ensures SearchRename(a + t) == SearchRename(t) && SearchSkip(a + t) == SearchSkip(t)
  {
    if a == [] {
      assert a + t == t;
    } else {
      assert (a + t)[0] == a[0] && (a + t)[1..] == a[1..] + t;
      assert a[0] != 's';
      AfterOther("serde(", a + t);
      SearchPast(a[1..], t);
    }
  }

  /** Neither pattern matches without an opening parenthesis. */
  lemma {:induction false} SearchNeedsParen(t: string)
    requires '(' !in t
    ensures SearchRename(t).None? && !SearchSkip(t)
  {
    if t != [] {
      assert "serde("[5] == '(' && After("serde(", t).None?;
      SearchNeedsParen(t[1..]);
    }
  }

  /** The variant name at the start of a line, possibly empty. */
  function NameRun(s: string, i: nat): (k: nat)
    requires i <= |s|
    ensures i <= k <= |s|
    decreases |s| - i
  {
    if i == |s| || !IsAlnum(s[i]) then i else NameRun(s, i + 1)
  }

  function VariantName(line: string): Option<string> {
    if line == [] || !IsUpper(line[0]) then None else Some(line[..NameRun(line, 0)])
  }

  // --- `rust_tags` -----------------------------------------------------------------

  function TagOf(name: string, renameAll: bool, pending: Option<string>): string {
    if pending.Some? then pending.value else if renameAll then Snake(name) else name
  }

  /** What the scan remembers between lines, and the tags so far. */
  datatype Machine = Machine(pending: Option<string>, skip: bool, tags: set<string>)

  const START := Machine(None, false, {})

  /** One kept line through the state machine. */
  function Read(m: Machine, line: string, renameAll: bool): Machine {
    if MatchesAt(line, 0, "//") then m
    else if MatchesAt(line, 0, "#[") then
      var rename := SearchRename(line);
      m.(pending := if rename.Some? then rename else m.pending, skip := m.skip || SearchSkip(line))
    else
      var name := VariantName(line);
      if name.None? then m
      else
        Machine(None, false, if m.skip then m.tags else m.tags + {TagOf(name.value, renameAll, m.pending)})
  }

  function ReadAll(m: Machine, lines: seq<string>, renameAll: bool): Machine
    decreases |lines|
  {
    if lines == [] then m else ReadAll(Read(m, lines[0], renameAll), lines[1..], renameAll)
  }

  lemma {:induction false} ReadConcat(m: Machine, a: seq<string>, b: seq<string>, renameAll: bool)
    ensures ReadAll(m, a + b, renameAll) == ReadAll(ReadAll(m, a, renameAll), b, renameAll)
    decreases |a|
  {
    if a == [] {
      assert a + b == b;
    } else {
      assert (a + b)[1..] == a[1..] + b && (a + b)[0] == a[0];
      ReadConcat(Read(m, a[0], renameAll), a[1..], b, renameAll);
    }
  }

  /** The options of a `#[serde(...)]` at `i` that sits on the line above `pub enum name`. */
  function ContainerAt(src: string, i: nat, name: string): Option<string> {
    if !MatchesAt(src, i, "#[serde(") then None
    else
      var k := Seek(src, ')', i + 8);
      if !MatchesAt(src, k, ")]") then None
      else
        var j := SkipSpaces(src, k + 2);
        var decl := "pub enum " + name;
        if j == k + 2 || src[j - 1] != '\n' || !MatchesAt(src, j, decl) then None
        else if j + |decl| < |src| && IsWord(src[j + |decl|]) then None
        else Some(src[i + 8..k])
  }

  function Container(src: string, i: nat, name: string): Option<string>
    requires i <= |src|
    decreases |src| - i
  {
    if i == |src| then None
    else
      var m := ContainerAt(src, i, name);
      if m.Some? then m else Container(src, i + 1, name)
  }

  function RenamesAll(src: string, name: string): bool {
    var options := Container(src, 0, name);
    options.Some? && Find(options.value, "snake_case", 0).Some?
  }

  function TagsOf(src: string, name: string): Result<set<string>> {
    var body := BodyOf(src, name);
    if body.Err? then Err(body.reason)
    else Ok(ReadAll(START, TopLevel(SplitLines(body.value), 0), RenamesAll(src, name)).tags)
  }

  /** `rust_tags`: the exact tag strings serde accepts for an enum. */
  method RustTags(src: string, name: string) returns (r: Result<set<string>>)
    ensures r == TagsOf(src, name)
  {
    var renameAll := RenamesAll(src, name);
    var body := EnumBody(src, name);
    if body.Err? {
      return Err(body.reason);
    }
    var lines := TopLevelLines(body.value);
    var tags: set<string> := {};
    var pending: Option<string> := None;
    var skipNext := false;
    ghost var all := ReadAll(START, lines, renameAll);
    assert lines[0..] == lines;
    for i := 0 to |lines|
      invariant all == ReadAll(Machine(pending, skipNext, tags), lines[i..], renameAll)
    {
      var line := lines[i];
      assert lines[i..][0] == line && lines[i..][1..] == lines[i + 1..];
      if MatchesAt(line, 0, "//") {
        continue;
      }
      if MatchesAt(line, 0, "#[") {
        var m := SearchRename(line);
        if m.Some? {
          pending := m;
        }
        if SearchSkip(line) {
          skipNext := true;
        }
        continue;
      }
      var variant := VariantName(line);
      if variant.None? {
        continue;
      }
      if skipNext {
        skipNext, pending := false, None;
        continue;
      }
      tags := tags + {TagOf(variant.value, renameAll, pending)};
      pending := None;
    }
    r := Ok(tags);
  }
}
