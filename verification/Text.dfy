/** The Python string operations the tools are built from. */
module Text {
  import opened Common

  /** Python's `str.isspace`, which is also the regular-expression class `\s`. */
  predicate IsSpace(c: char) {
    var n := c as int;
    || 9 <= n <= 13 || 28 <= n <= 32 || n == 0x85 || n == 0xA0 || n == 0x1680
    || 0x2000 <= n <= 0x200A || n == 0x2028 || n == 0x2029 || n == 0x202F || n == 0x205F || n == 0x3000
  }

  /** The characters `str.splitlines` breaks at. */
  predicate IsBreak(c: char) {
    var n := c as int;
    10 <= n <= 13 || 28 <= n <= 30 || n == 0x85 || n == 0x2028 || n == 0x2029
  }

  predicate NoBreak(s: string) {
    forall i | 0 <= i < |s| :: !IsBreak(s[i])
  }

  predicate AllSpace(s: string) {
    forall i | 0 <= i < |s| :: IsSpace(s[i])
  }

  predicate IsUpper(c: char) { 'A' <= c <= 'Z' }

  predicate IsLower(c: char) { 'a' <= c <= 'z' }

  predicate IsDigit(c: char) { '0' <= c <= '9' }

  predicate IsAlnum(c: char) { IsUpper(c) || IsLower(c) || IsDigit(c) }

  predicate IsWord(c: char) { IsAlnum(c) || c == '_' }

  function Lower(c: char): char {
    if IsUpper(c) then (c as int + 32) as char else c
  }

  function Upper(c: char): char {
    if IsLower(c) then (c as int - 32) as char else c
  }

  /** `s.startswith(lit, i)`. */
  predicate MatchesAt(s: string, i: nat, lit: string) {
    i + |lit| <= |s| && s[i..i + |lit|] == lit
  }

  /** `s.find(lit, from)`. */
  function Find(s: string, lit: string, from: nat): (r: Option<nat>)
    ensures r.Some? ==> from <= r.value && MatchesAt(s, r.value, lit)
    ensures r.Some? ==> forall j | from <= j < r.value :: !MatchesAt(s, j, lit)
    ensures r.None? ==> forall j | from <= j :: !MatchesAt(s, j, lit)
    decreases |s| - from
  {
    if from + |lit| > |s| then None
    else if MatchesAt(s, from, lit) then Some(from)
    else Find(s, lit, from + 1)
  }

  lemma FindFirst(s: string, lit: string, from: nat, k: nat)
    requires from <= k && MatchesAt(s, k, lit)
    requires forall j | from <= j < k :: !MatchesAt(s, j, lit)
    ensures Find(s, lit, from) == Some(k)
  {
  }

  lemma MatchesMiddle(a: string, lit: string, c: string)
    ensures MatchesAt(a + lit + c, |a|, lit)
  {
    assert (a + lit + c)[|a|..|a| + |lit|] == lit;
  }

  /** The position of the first `c` at or after `from`, or the length of `s`. */
  function Seek(s: string, c: char, from: nat): (k: nat)
    requires from <= |s|
    ensures from <= k <= |s|
    ensures forall j | from <= j < k :: s[j] != c
    ensures k < |s| ==> s[k] == c
    decreases |s| - from
  {
    if from == |s| || s[from] == c then from else Seek(s, c, from + 1)
  }

  /** The end of the run of whitespace at `from`. */
  function SkipSpaces(s: string, from: nat): (k: nat)
    requires from <= |s|
    ensures from <= k <= |s|
    ensures forall j | from <= j < k :: IsSpace(s[j])
    ensures k < |s| ==> !IsSpace(s[k])
    decreases |s| - from
  {
    if from == |s| || !IsSpace(s[from]) then from else SkipSpaces(s, from + 1)
  }

  /** `s` without its leading whitespace. */
  function DropSpaces(s: string): string {
    if s == [] || !IsSpace(s[0]) then s else DropSpaces(s[1..])
  }

  lemma {:induction false} DropSpacesPadded(w: string, s: string)
    requires AllSpace(w) && (s == [] || !IsSpace(s[0]))
    ensures DropSpaces(w + s) == s
  {
    if w == [] {
      assert w + s == s;
    } else {
      assert (w + s)[0] == w[0] && (w + s)[1..] == w[1..] + s;
      DropSpacesPadded(w[1..], s);
    }
  }

  /** What follows `lit` when `s` starts with it. */
  function After(lit: string, s: string): Option<string> {
    if lit <= s then Some(s[|lit|..]) else None
  }

  lemma AfterConcat(lit: string, s: string)
    ensures After(lit, lit + s) == Some(s)
  {
    assert (lit + s)[|lit|..] == s;
  }

  lemma AfterOther(lit: string, s: string)
    requires lit != [] && (s == [] || s[0] != lit[0])
    ensures After(lit, s).None?
  {
  }

  function TrimEnd(s: string): (r: string)
    ensures r <= s && (r != [] ==> !IsSpace(r[|r| - 1]))
  {
    if s == [] || !IsSpace(s[|s| - 1]) then s else TrimEnd(s[..|s| - 1])
  }

  /** `s.strip()`. */
  function Strip(s: string): string {
    TrimEnd(s[SkipSpaces(s, 0)..])
  }

  /** Text that `strip` leaves alone. */
  predicate Trimmed(s: string) {
    s != [] ==> !IsSpace(s[0]) && !IsSpace(s[|s| - 1])
  }

  lemma {:induction false} SkipSpacesAll(s: string, from: nat, k: nat)
    requires from <= k <= |s| && (forall j | from <= j < k :: IsSpace(s[j]))
    requires k < |s| ==> !IsSpace(s[k])
    ensures SkipSpaces(s, from) == k
    decreases k - from
  {
    if from < k {
      SkipSpacesAll(s, from + 1, k);
    }
  }

  /** Padding a trimmed text on either side is undone by `strip`. */
  lemma StripPadded(pad: string, s: string, tail: string)
    requires AllSpace(pad) && AllSpace(tail) && Trimmed(s)
    ensures Strip(pad + s + tail) == s
  {
    var t := pad + s + tail;
    if s == [] {
      assert AllSpace(t);
      SkipSpacesAll(t, 0, |t|);
    } else {
      assert t[|pad|] == s[0];
      SkipSpacesAll(t, 0, |pad|);
      assert t[|pad|..] == s + tail;
      TrimEndPadded(s, tail);
    }
  }

  lemma {:induction false} TrimEndPadded(s: string, tail: string)
    requires AllSpace(tail) && (s != [] ==> !IsSpace(s[|s| - 1]))
    ensures TrimEnd(s + tail) == s
    decreases |tail|
  {
    if tail == [] {
      assert s + tail == s;
    } else {
      var n := |tail| - 1;
      assert (s + tail)[..|s + tail| - 1] == s + tail[..n];
      TrimEndPadded(s, tail[..n]);
    }
  }

  lemma StripTrimmed(s: string)
    requires Trimmed(s)
    ensures Strip(s) == s
  {
    StripPadded("", s, "");
    assert "" + s + "" == s;
  }

  // --- Lines -----------------------------------------------------------------------

  function BreakAt(s: string, from: nat): (k: nat)
    requires from <= |s|
    ensures from <= k <= |s|
    ensures forall j | from <= j < k :: !IsBreak(s[j])
    ensures k < |s| ==> IsBreak(s[k])
    decreases |s| - from
  {
    if from == |s| || IsBreak(s[from]) then from else BreakAt(s, from + 1)
  }

  /** `s.splitlines()`. */
  function SplitLines(s: string): seq<string>
    decreases |s|
  {
    if s == [] then []
    else
      var k := BreakAt(s, 0);
      if k == |s| then [s]
      else
        var next := if s[k] == '\r' && k + 1 < |s| && s[k + 1] == '\n' then k + 2 else k + 1;
        [s[..k]] + SplitLines(s[next..])
  }

  /** Each line followed by a newline. */
  function JoinLines(lines: seq<string>): string {
    if lines == [] then "" else lines[0] + "\n" + JoinLines(lines[1..])
  }

  /** Splitting undoes joining. */
  lemma {:induction false} SplitJoinLines(lines: seq<string>)
    requires forall i | 0 <= i < |lines| :: NoBreak(lines[i])
    ensures SplitLines(JoinLines(lines)) == lines
  {
    if lines != [] {
      SplitJoinLines(lines[1..]);
      FirstLine(lines[0], JoinLines(lines[1..]));
    }
  }

  lemma FirstLine(line: string, rest: string)
    requires NoBreak(line)
    ensures SplitLines(line + "\n" + rest) == [line] + SplitLines(rest)
  {
    var s := line + "\n" + rest;
    assert s[|line|] == '\n';
    assert forall j | 0 <= j < |line| :: s[j] == line[j] && !IsBreak(s[j]);
    assert BreakAt(s, 0) == |line|;
    assert s[..|line|] == line && s[|line| + 1..] == rest;
  }

  lemma SeekIs(s: string, c: char, from: nat, k: nat)
    requires from <= k <= |s| && (forall j | from <= j < k :: s[j] != c)
    requires k < |s| ==> s[k] == c
    ensures Seek(s, c, from) == k
  {
  }

  // --- Pieces ----------------------------------------------------------------------

  predicate Without(s: string, c: char) {
    forall i | 0 <= i < |s| :: s[i] != c
  }

  /** `s.split(c)`. */
  function Split(s: string, c: char): (r: seq<string>)
    ensures r != []
  {
    if s == [] then [""]
    else
      var r := Split(s[1..], c);
      if s[0] == c then [""] + r else [[s[0]] + r[0]] + r[1..]
  }

  /** `c.join(parts)`. */
  function Join(parts: seq<string>, c: char): string {
    if parts == [] then ""
    else if |parts| == 1 then parts[0]
    else parts[0] + ([c] + Join(parts[1..], c))
  }

  lemma {:induction false} SplitConcat(a: string, b: string, c: char)
    ensures Split(a + ([c] + b), c) == Split(a, c) + Split(b, c)
  {
    var s := a + ([c] + b);
    if a == [] {
      assert s == [c] + b && s[1..] == b;
    } else {
      assert s[0] == a[0] && s[1..] == a[1..] + ([c] + b);
      SplitConcat(a[1..], b, c);
      AppendPieces(Split(a[1..], c), Split(b, c), a[0], c);
    }
  }

  lemma AppendPieces(r: seq<string>, q: seq<string>, x: char, c: char)
    requires r != []
    ensures [""] + (r + q) == ([""] + r) + q
    ensures [[x] + (r + q)[0]] + (r + q)[1..] == ([[x] + r[0]] + r[1..]) + q
  {
    assert (r + q)[1..] == r[1..] + q;
  }

  lemma {:induction false} SplitWhole(s: string, c: char)
    requires Without(s, c)
    ensures Split(s, c) == [s]
  {
    if s != [] {
      SplitWhole(s[1..], c);
      assert s == [s[0]] + s[1..];
    }
  }

  /** Splitting undoes joining. */
  lemma {:induction false} SplitJoin(parts: seq<string>, c: char)
    requires parts != [] && forall i | 0 <= i < |parts| :: Without(parts[i], c)
    ensures Split(Join(parts, c), c) == parts
  {
    SplitWhole(parts[0], c);
    if |parts| > 1 {
      SplitConcat(parts[0], Join(parts[1..], c), c);
      SplitJoin(parts[1..], c);
      assert parts == [parts[0]] + parts[1..];
    }
  }

  /** Joining undoes splitting. */
  lemma {:induction false} JoinSplit(s: string, c: char)
    ensures Join(Split(s, c), c) == s
  {
    if s != [] {
      var r := Split(s[1..], c);
      JoinSplit(s[1..], c);
      if s[0] == c {
        assert ([[]] + r)[1..] == r;
      } else {
        assert ([[s[0]] + r[0]] + r[1..])[1..] == r[1..];
      }
    }
  }

  /** Two runs of pieces, joined. */
  lemma {:induction false} JoinConcat(a: seq<string>, b: seq<string>, c: char)
    requires a != [] && b != []
    ensures Join(a + b, c) == Join(a, c) + ([c] + Join(b, c))
  {
    JoinHead(a[0], a[1..] + b, c);
    assert a + b == [a[0]] + (a[1..] + b);
    if |a| == 1 {
      assert a[1..] + b == b;
    } else {
      JoinConcat(a[1..], b, c);
      JoinHead(a[0], a[1..], c);
      assert a == [a[0]] + a[1..];
      Reassociated(a[0], [c], Join(a[1..], c), [c] + Join(b, c));
    }
  }

  lemma JoinHead(first: string, rest: seq<string>, c: char)
    requires rest != []
    ensures Join([first] + rest, c) == first + ([c] + Join(rest, c))
  {
    assert ([first] + rest)[1..] == rest;
  }

  lemma Reassociated(x: string, y: string, z: string, w: string)
    ensures x + (y + (z + w)) == (x + (y + z)) + w
  {
  }

  lemma {:induction false} SplitWithout(s: string, c: char)
    ensures forall i | 0 <= i < |Split(s, c)| :: Without(Split(s, c)[i], c)
  {
    if s != [] {
      SplitWithout(s[1..], c);
    }
  }

  /** `s.lstrip(c)`. */
  function StripLeft(s: string, c: char): string {
    if s != [] && s[0] == c then StripLeft(s[1..], c) else s
  }

  /** `s.rstrip(c)`. */
  function StripRight(s: string, c: char): (r: string)
    ensures r <= s && forall i | |r| <= i < |s| :: s[i] == c
  {
    if s != [] && s[|s| - 1] == c then StripRight(s[..|s| - 1], c) else s
  }

  /** What `strip` drops is whitespace. */
  lemma StripKeeps(s: string, i: nat)
    requires i < |s| && !IsSpace(s[i])
    ensures s[i] in Strip(s)
  {
    var k := SkipSpaces(s, 0);
    assert s[k..][i - k] == s[i];
    TrimEndKeeps(s[k..], i - k);
  }

  lemma {:induction false} TrimEndKeeps(s: string, i: nat)
    requires i < |s| && !IsSpace(s[i])
    ensures i < |TrimEnd(s)| && TrimEnd(s)[i] == s[i]
  {
    if IsSpace(s[|s| - 1]) {
      TrimEndKeeps(s[..|s| - 1], i);
    }
  }
}
