/** Rewriting matched spans of a text by offset: masking at equal length, collecting the
    wanted spans left to right and splicing replacements over them right to left. What
    matches, what is wanted and what replaces it are parameters.
 */
module Splicing {

  /** The length of the match at the front of a text, 0 for none. */
  type Matcher = string -> nat

  /** How far a `finditer` scan moves at the front of `s`. */
  function Stride(m: Matcher, s: string): (n: nat)
    requires s != []
    ensures 1 <= n <= |s|
  {
    if 1 <= m(s) <= |s| then m(s) else 1
  }

  predicate Hit(m: Matcher, s: string) {
    1 <= m(s) <= |s|
  }

  // --- Masking ---------------------------------------------------------------------

  function Spaces(n: nat): (r: string)
    ensures |r| == n && forall i | 0 <= i < n :: r[i] == ' '
  {
    if n == 0 then "" else " " + Spaces(n - 1)
  }

  /** `s` with every match blanked, scanning left to right without overlap. */
  function Blank(m: Matcher, s: string): (r: string)
    ensures |r| == |s|
    decreases |s|
  {
    if s == [] then ""
    else
      var n := Stride(m, s);
      (if Hit(m, s) then Spaces(n) else s[..n]) + Blank(m, s[n..])
  }

  /** `under` with the blanks of `mask` laid over it. */
  function Overlay(under: string, mask: string): (r: string)
    requires |under| == |mask|
    ensures |r| == |under|
    ensures forall i | 0 <= i < |r| :: r[i] == if mask[i] == ' ' then ' ' else under[i]
  {
    if under == [] then "" else [if mask[0] == ' ' then ' ' else under[0]] + Overlay(under[1..], mask[1..])
  }

  /** Every character is the text's own, or blank. */
  predicate Under(text: string, masked: string) {
    |masked| == |text| && forall i | 0 <= i < |text| :: masked[i] == text[i] || masked[i] == ' '
  }

  /** The first `i` characters of `r` are masked, the others still as they were. */
  ghost predicate MaskedTo(r: string, masked: string, full: string, i: nat) {
    && |r| == |masked| == |full|
    && (forall j | 0 <= j < i && j < |r| :: r[j] == if full[j] == ' ' then ' ' else masked[j])
    && (forall j | i <= j < |r| :: r[j] == masked[j])
  }

  /** `full` is the blanked text, and the scan has come to position `i`. */
  ghost predicate Progress(m: Matcher, text: string, masked: string, full: string, r: string, i: nat) {
    && i <= |text| == |full| && full[i..] == Blank(m, text[i..])
    && MaskedTo(r, masked, full, i)
  }

  /** Overwrites the matches in `masked`, at equal length. */
  method Mask(m: Matcher, text: string, masked: string) returns (r: string)
    requires Under(text, masked)
    ensures r == Overlay(masked, Blank(m, text))
    ensures Under(text, r)
  {
    r := masked;
    var i := 0;
    ghost var full := Blank(m, text);
    MaskStart(m, text, masked);
    while i < |text|
      invariant i <= |text| && |r| == |text| && Progress(m, text, masked, full, r, i)
    {
      var n := Stride(m, text[i..]);
      MaskStep(m, text, masked, full, r, i, n);
      if Hit(m, text[i..]) {
        r := r[..i] + Spaces(n) + r[i + n..];
      }
      i := i + n;
    }
    MaskedAll(m, text, r, masked, full);
  }

  lemma MaskStart(m: Matcher, text: string, masked: string)
    requires Under(text, masked)
    ensures Progress(m, text, masked, Blank(m, text), masked, 0)
  {
    assert text[0..] == text && Blank(m, text)[0..] == Blank(m, text);
  }

  lemma MaskStep(m: Matcher, text: string, masked: string, full: string, r: string, i: nat, n: nat)
    requires Under(text, masked) && i < |text| && n == Stride(m, text[i..]) && Progress(m, text, masked, full, r, i)
    ensures Hit(m, text[i..]) ==> Progress(m, text, masked, full, r[..i] + Spaces(n) + r[i + n..], i + n)
    ensures !Hit(m, text[i..]) ==> Progress(m, text, masked, full, r, i + n)
  {
    BlankAhead(m, text, i, n, full);
    if Hit(m, text[i..]) {
      WriteBlanks(r, masked, full, i, n);
    } else {
      KeepUnmatched(text, r, masked, full, i, n);
    }
  }

  lemma WriteBlanks(r: string, masked: string, full: string, i: nat, n: nat)
    requires i + n <= |full| && MaskedTo(r, masked, full, i)
    requires forall j | i <= j < i + n :: full[j] == ' '
    ensures MaskedTo(r[..i] + Spaces(n) + r[i + n..], masked, full, i + n)
  {
    var w := r[..i] + Spaces(n) + r[i + n..];
    assert forall j | i <= j < i + n :: w[j] == Spaces(n)[j - i];
  }

  lemma KeepUnmatched(text: string, r: string, masked: string, full: string, i: nat, n: nat)
    requires Under(text, masked) && i + n <= |full| && MaskedTo(r, masked, full, i)
    requires forall j | i <= j < i + n :: full[j] == text[j]
    ensures MaskedTo(r, masked, full, i + n)
  {
  }

  lemma MaskedAll(m: Matcher, text: string, r: string, masked: string, full: string)
    requires Under(text, masked) && Progress(m, text, masked, full, r, |text|)
    ensures r == Overlay(masked, full) && Under(text, r)
  {
  }

  lemma BlankAhead(m: Matcher, text: string, i: nat, n: nat, full: string)
    requires i < |text| && |full| == |text| && full[i..] == Blank(m, text[i..]) && n == Stride(m, text[i..])
    ensures full[i + n..] == Blank(m, text[i + n..])
    ensures forall j | i <= j < i + n :: full[j] == if Hit(m, text[i..]) then ' ' else text[j]
  {
    var t := text[i..];
    assert t[n..] == text[i + n..];
    assert full[i..][n..] == full[i + n..];
    forall j | i <= j < i + n ensures full[j] == if Hit(m, t) then ' ' else text[j] {
      assert full[j] == full[i..][j - i] && t[..n][j - i] == text[j];
    }
  }

  // --- Wanted spans ----------------------------------------------------------------

  /** A span of the text and what stands between its first and last character. */
  datatype Found = Found(start: nat, end: nat, inner: string)

  /** What a match of length `n` encloses. */
  function Inner(s: string, n: nat): string {
    if 2 <= n <= |s| then s[1..n - 1] else ""
  }

  datatype Rule = Rule(matcher: Matcher, wanted: string -> bool, markup: string -> string)

  predicate Takes(rule: Rule, s: string)
    requires s != []
  {
    Hit(rule.matcher, s) && rule.wanted(Inner(s, Stride(rule.matcher, s)))
  }

  /** The wanted matches in `s`, which starts at offset `at`. */
  function SpansFrom(rule: Rule, s: string, at: nat): (r: seq<Found>)
    decreases |s|
  {
    if s == [] then []
    else
      var n := Stride(rule.matcher, s);
      (if Takes(rule, s) then [Found(at, at + n, Inner(s, n))] else [])
      + SpansFrom(rule, s[n..], at + n)
  }

  /** In source order, apart, inside `[from, to)`. */
  ghost predicate Ascending(spans: seq<Found>, from: nat, to: nat) {
    && (forall i | 0 <= i < |spans| :: from <= spans[i].start < spans[i].end <= to)
    && (forall i, j | 0 <= i < j < |spans| :: spans[i].end <= spans[j].start)
  }

  lemma {:induction false} SpansAscending(rule: Rule, s: string, at: nat)
    ensures Ascending(SpansFrom(rule, s, at), at, at + |s|)
    decreases |s|
  {
    if s != [] {
      var n := Stride(rule.matcher, s);
      SpansAscending(rule, s[n..], at + n);
    }
  }

  /** The span reads as it was found. */
  ghost predicate Reads(rule: Rule, s: string, at: nat, f: Found) {
    && at <= f.start < f.end <= at + |s|
    && Stride(rule.matcher, s[f.start - at..]) == f.end - f.start
    && Takes(rule, s[f.start - at..])
    && f.inner == Inner(s[f.start - at..], f.end - f.start)
  }

  lemma ReadsShifted(rule: Rule, s: string, at: nat, n: nat, f: Found)
    requires n <= |s| && Reads(rule, s[n..], at + n, f)
    ensures Reads(rule, s, at, f)
  {
    assert s[n..][f.start - at - n..] == s[f.start - at..];
  }

  lemma {:induction false} SpansRead(rule: Rule, s: string, at: nat, i: nat)
    requires i < |SpansFrom(rule, s, at)|
    ensures Reads(rule, s, at, SpansFrom(rule, s, at)[i])
    decreases |s|
  {
    var n := Stride(rule.matcher, s);
    var skip := if Takes(rule, s) then 1 else 0;
    if i < skip {
      assert s[0..] == s;
    } else {
      SpansRead(rule, s[n..], at + n, i - skip);
      ReadsShifted(rule, s, at, n, SpansFrom(rule, s[n..], at + n)[i - skip]);
    }
  }

  /** What a collected span says of the text it was found in. */
  lemma FoundInside(rule: Rule, s: string, f: Found)
    requires f in SpansFrom(rule, s, 0)
    ensures Reads(rule, s, 0, f)
  {
    var spans := SpansFrom(rule, s, 0);
    var i :| 0 <= i < |spans| && spans[i] == f;
    SpansRead(rule, s, 0, i);
  }

  lemma SpansAhead(rule: Rule, s: string, i: nat, n: nat, out: seq<Found>, all: seq<Found>)
    requires i < |s| && n == Stride(rule.matcher, s[i..])
    requires all == out + SpansFrom(rule, s[i..], i)
    ensures Takes(rule, s[i..]) ==>
              all == (out + [Found(i, i + n, Inner(s[i..], n))]) + SpansFrom(rule, s[i + n..], i + n)
    ensures !Takes(rule, s[i..]) ==> all == out + SpansFrom(rule, s[i + n..], i + n)
  {
    FoundAhead(rule, s, i, n, SpansFrom(rule, s[i..], i), SpansFrom(rule, s[i + n..], i + n));
  }

  /** One pass over `s`, collecting the wanted matches. */
  method FindSpans(rule: Rule, s: string) returns (out: seq<Found>)
    ensures out == SpansFrom(rule, s, 0)
    ensures Ascending(out, 0, |s|)
  {
    out := [];
    var i := 0;
    ghost var all := SpansFrom(rule, s, 0);
    assert s[0..] == s && [] + all == all;
    while i < |s|
      invariant 0 <= i <= |s|
      invariant all == out + SpansFrom(rule, s[i..], i)
    {
      var n := Stride(rule.matcher, s[i..]);
      SpansAhead(rule, s, i, n, out, all);
      if Takes(rule, s[i..]) {
        out := out + [Found(i, i + n, Inner(s[i..], n))];
      }
      i := i + n;
    }
    SpansAscending(rule, s, 0);
  }

  // --- Rewriting -------------------------------------------------------------------

  /** The simultaneous substitution: one pass that copies `text` except where the masked
      text has a wanted match, and puts the replacement there. */
  function Rewrite(rule: Rule, text: string, masked: string): string
    requires |text| == |masked|
    decreases |text|
  {
    if text == [] then ""
    else
      var n := Stride(rule.matcher, masked);
      (if Takes(rule, masked) then rule.markup(Inner(masked, n)) else text[..n])
      + Rewrite(rule, text[n..], masked[n..])
  }

  /** The text with its spans replaced, the last one first. */
  function Splice(rule: Rule, text: string, spans: seq<Found>): string {
    if spans == [] then text
    else
      var f, done := spans[0], Splice(rule, text, spans[1..]);
      if f.start <= f.end <= |done| then done[..f.start] + rule.markup(f.inner) + done[f.end..] else done
  }

  lemma SpliceOne(rule: Rule, text: string, f: Found, rest: seq<Found>, tail: string)
    requires f.start <= f.end <= |text| && Splice(rule, text, rest) == text[..f.end] + tail
    ensures Splice(rule, text, [f] + rest) == text[..f.start] + (rule.markup(f.inner) + tail)
  {
    assert ([f] + rest)[1..] == rest;
    assert (text[..f.end] + tail)[..f.start] == text[..f.start];
    assert (text[..f.end] + tail)[f.end..] == tail;
  }

  lemma SplicedPlain(text: string, at: nat, n: nat, tail: string)
    requires at + n <= |text|
    ensures text[..at + n] + tail == text[..at] + (text[at..at + n] + tail)
  {
  }

  /** One stride of the substitution. */
  lemma RewriteAhead(rule: Rule, text: string, masked: string, at: nat, n: nat)
    requires |text| == |masked| && at < |text| && n == Stride(rule.matcher, masked[at..])
    ensures Rewrite(rule, text[at..], masked[at..])
         == (if Takes(rule, masked[at..]) then rule.markup(Inner(masked[at..], n)) else text[at..at + n])
            + Rewrite(rule, text[at + n..], masked[at + n..])
  {
    assert text[at..][n..] == text[at + n..] && masked[at..][n..] == masked[at + n..];
    assert text[at..][..n] == text[at..at + n];
  }

  /** One stride of the search. */
  lemma FoundAhead(rule: Rule, masked: string, at: nat, n: nat, spans: seq<Found>, rest: seq<Found>)
    requires at < |masked| && n == Stride(rule.matcher, masked[at..])
    requires spans == SpansFrom(rule, masked[at..], at) && rest == SpansFrom(rule, masked[at + n..], at + n)
    ensures Takes(rule, masked[at..]) ==> spans == [Found(at, at + n, Inner(masked[at..], n))] + rest
    ensures !Takes(rule, masked[at..]) ==> spans == rest
  {
    assert masked[at..][n..] == masked[at + n..];
  }

  /** Splicing the spans found from `at` on rewrites the text from `at` on and leaves the
      front alone. */
  lemma {:induction false} SpliceIsRewrite(rule: Rule, text: string, masked: string, at: nat, spans: seq<Found>)
    requires |text| == |masked| && at <= |text| && spans == SpansFrom(rule, masked[at..], at)
    ensures Splice(rule, text, spans) == text[..at] + Rewrite(rule, text[at..], masked[at..])
    decreases |text| - at
  {
    if at == |text| {
      assert text[..at] + "" == text;
    } else {
      var n := Stride(rule.matcher, masked[at..]);
      var rest, tail := SpansFrom(rule, masked[at + n..], at + n), Rewrite(rule, text[at + n..], masked[at + n..]);
      SpliceIsRewrite(rule, text, masked, at + n, rest);
      FoundAhead(rule, masked, at, n, spans, rest);
      RewriteAhead(rule, text, masked, at, n);
      if Takes(rule, masked[at..]) {
        SpliceOne(rule, text, Found(at, at + n, Inner(masked[at..], n)), rest, tail);
      } else {
        SplicedPlain(text, at, n, tail);
      }
    }
  }

  /** Splices right to left, so that the offsets of earlier spans stay valid. */
  method SpliceAll(rule: Rule, text: string, spans: seq<Found>, ghost masked: string)
    returns (page: string, count: nat)
    requires |text| == |masked| && spans == SpansFrom(rule, masked, 0)
    ensures page == Rewrite(rule, text, masked)
    ensures count == |spans|
    ensures count == 0 ==> page == text
  {
    SpansAscending(rule, masked, 0);
    page := text;
    assert spans[|spans|..] == [];
    for i := |spans| downto 0
      invariant page == Splice(rule, text, spans[i..])
    {
      var f := spans[i];
      assert spans[i..][0] == f && spans[i..][1..] == spans[i + 1..];
      SpliceKeepsFront(rule, text, spans[i + 1..], f.end);
      page := page[..f.start] + rule.markup(f.inner) + page[f.end..];
    }
    assert spans[0..] == spans && masked[0..] == masked && text[0..] == text;
    SpliceIsRewrite(rule, text, masked, 0, spans);
    assert text[..0] + Rewrite(rule, text, masked) == Rewrite(rule, text, masked);
    return page, |spans|;
  }

  lemma {:induction false} SpliceKeepsFront(rule: Rule, text: string, spans: seq<Found>, k: nat)
    requires Ascending(spans, k, |text|) && k <= |text|
    ensures k <= |Splice(rule, text, spans)| && Splice(rule, text, spans)[..k] == text[..k]
  {
    if spans != [] {
      SpliceKeepsFront(rule, text, spans[1..], k);
    }
  }

  lemma InnerSlice(s: string, i: nat, k: nat)
    requires i + 2 <= k <= |s|
    ensures Inner(s[i..], k - i) == s[i + 1..k - 1]
  {
    assert s[i..][1..k - i - 1] == s[i + 1..k - 1];
  }

  lemma SliceEqual(a: string, b: string, i: nat, k: nat)
    requires |a| == |b| && i <= k <= |a|
    ensures a[i..k] == b[i..k] <==> forall j | i <= j < k :: a[j] == b[j]
  {
    if a[i..k] == b[i..k] {
      forall j | i <= j < k ensures a[j] == b[j] {
        assert a[i..k][j - i] == b[i..k][j - i];
      }
    }
  }

  // --- Where the blanks are --------------------------------------------------------

  /** A rule that wants every match. */
  function Everything(m: Matcher): Rule {
    Rule(m, (s: string) => true, (s: string) => s)
  }

  /** All the matches in `s`, which starts at offset `at`. */
  function Matches(m: Matcher, s: string, at: nat): seq<Found> {
    SpansFrom(Everything(m), s, at)
  }

  ghost predicate Covers(spans: seq<Found>, j: nat) {
    exists i | 0 <= i < |spans| :: spans[i].start <= j < spans[i].end
  }

  /** Some match covers position `j`. */
  ghost predicate Covered(m: Matcher, s: string, at: nat, j: nat) {
    Covers(Matches(m, s, at), j)
  }

  lemma CoversCons(f: Found, rest: seq<Found>, j: nat)
    ensures Covers([f] + rest, j) <==> f.start <= j < f.end || Covers(rest, j)
  {
    var all := [f] + rest;
    if f.start <= j < f.end {
      assert all[0] == f;
    }
    if Covers(rest, j) {
      var i :| 0 <= i < |rest| && rest[i].start <= j < rest[i].end;
      assert all[i + 1] == rest[i];
    }
  }

  lemma CoveredAhead(m: Matcher, s: string, at: nat, j: nat, n: nat)
    requires s != [] && n == Stride(m, s) && at <= j < at + |s|
    ensures j < at + n ==> (Covered(m, s, at, j) <==> Hit(m, s))
    ensures j >= at + n ==> (Covered(m, s, at, j) <==> Covered(m, s[n..], at + n, j))
  {
    var rest := Matches(m, s[n..], at + n);
    SpansAscending(Everything(m), s[n..], at + n);
    assert j < at + n ==> !Covers(rest, j);
    MatchesHead(m, s, at, n, rest);
    if Hit(m, s) {
      CoversCons(Found(at, at + n, Inner(s, n)), rest, j);
    }
  }

  lemma MatchesHead(m: Matcher, s: string, at: nat, n: nat, rest: seq<Found>)
    requires s != [] && n == Stride(m, s) && rest == Matches(m, s[n..], at + n)
    ensures Hit(m, s) ==> Matches(m, s, at) == [Found(at, at + n, Inner(s, n))] + rest
    ensures !Hit(m, s) ==> Matches(m, s, at) == rest
  {
    assert Takes(Everything(m), s) <==> Hit(m, s);
  }

  /** Masking blanks exactly the positions that some match covers. */
  lemma {:induction false} BlankedWhereCovered(m: Matcher, s: string, at: nat, j: nat)
    requires j < |s|
    ensures Blank(m, s)[j] == if Covered(m, s, at, at + j) then ' ' else s[j]
    decreases |s|
  {
    var n := Stride(m, s);
    CoveredAhead(m, s, at, at + j, n);
    BlankAt(m, s, n, j);
    if j >= n {
      BlankedWhereCovered(m, s[n..], at + n, j - n);
    }
  }

  lemma {:induction false} BlankAt(m: Matcher, s: string, n: nat, j: nat)
    requires j < |s| && n == Stride(m, s)
    ensures j < n ==> Blank(m, s)[j] == if Hit(m, s) then ' ' else s[j]
    ensures j >= n ==> Blank(m, s)[j] == Blank(m, s[n..])[j - n] && s[n..][j - n] == s[j]
  {
  }

  /** The positions the spans cover are blank, and the others as they were. */
  ghost predicate BlankedBy(text: string, masked: string, spans: seq<Found>) {
    |masked| == |text| && forall j | 0 <= j < |text| :: masked[j] == if Covers(spans, j) then ' ' else text[j]
  }

  lemma MaskedBy(m: Matcher, text: string)
    ensures BlankedBy(text, Blank(m, text), Matches(m, text, 0))
  {
    forall j | 0 <= j < |text|
      ensures Blank(m, text)[j] == if Covers(Matches(m, text, 0), j) then ' ' else text[j]
    {
      BlankedWhereCovered(m, text, 0, j);
    }
  }

  lemma CoversConcat(a: seq<Found>, b: seq<Found>, j: nat)
    ensures Covers(a + b, j) <==> Covers(a, j) || Covers(b, j)
  {
    if Covers(a, j) {
      var i :| 0 <= i < |a| && a[i].start <= j < a[i].end;
      assert (a + b)[i] == a[i];
    }
    if Covers(b, j) {
      var i :| 0 <= i < |b| && b[i].start <= j < b[i].end;
      assert (a + b)[|a| + i] == b[i];
    }
  }

  /** Three masks, one over the other, blank what any of them does. */
  lemma ThreeMasks(
    text: string, a: string, b: string, c: string, sa: seq<Found>, sb: seq<Found>, sc: seq<Found>)
    requires BlankedBy(text, a, sa) && BlankedBy(text, b, sb) && BlankedBy(text, c, sc)
    ensures BlankedBy(text, Overlay(Overlay(Overlay(text, a), b), c), sa + sb + sc)
  {
    forall j | 0 <= j < |text| ensures Covers(sa + sb + sc, j) <==> Covers(sa, j) || Covers(sb, j) || Covers(sc, j) {
      CoversConcat(sa, sb, j);
      CoversConcat(sa + sb, sc, j);
    }
  }

  /** No span covers a character from `i` to `k` that is not blank already. */
  ghost predicate Unmarked(text: string, spans: seq<Found>, i: nat, k: nat) {
    forall j | i <= j < k && j < |text| && Covers(spans, j) :: text[j] == ' '
  }

  lemma KeptByMask(text: string, masked: string, spans: seq<Found>, i: nat, k: nat)
    requires BlankedBy(text, masked, spans) && i <= k <= |text|
    ensures masked[i..k] == text[i..k] <==> Unmarked(text, spans, i, k)
  {
    SliceEqual(masked, text, i, k);
  }

  /** A span spelled from the masked text reads as the text itself exactly where no mask
      covers more than blanks. */
  lemma KeptSpan(text: string, masked: string, spans: seq<Found>, f: Found)
    requires BlankedBy(text, masked, spans) && f.start + 2 < f.end <= |text|
    requires f.inner == masked[f.start + 1..f.end - 1]
    ensures f.inner == text[f.start + 1..f.end - 1] <==> Unmarked(text, spans, f.start + 1, f.end - 1)
  {
    KeptByMask(text, masked, spans, f.start + 1, f.end - 1);
  }

  // --- What is kept ----------------------------------------------------------------

  /** `text[i:j]` of a range that fits. */
  function Slice(text: string, i: nat, j: nat): string {
    if i <= j <= |text| then text[i..j] else ""
  }

  /** The stretches of `text` between the spans, from offset `from` on. */
  function Gaps(text: string, spans: seq<Found>, from: nat): (r: seq<string>)
    ensures |r| == |spans| + 1
    decreases |spans|
  {
    if spans == [] then [Slice(text, from, |text|)]
    else [Slice(text, from, spans[0].start)] + Gaps(text, spans[1..], spans[0].end)
  }

  /** The gaps with one piece between each two. */
  function Weave(gaps: seq<string>, pieces: seq<string>): string
    requires |gaps| == |pieces| + 1
  {
    if pieces == [] then gaps[0] else gaps[0] + (pieces[0] + Weave(gaps[1..], pieces[1..]))
  }

  function Originals(text: string, spans: seq<Found>): (r: seq<string>)
    ensures |r| == |spans|
  {
    if spans == [] then [] else [Slice(text, spans[0].start, spans[0].end)] + Originals(text, spans[1..])
  }

  function Replacements(rule: Rule, spans: seq<Found>): (r: seq<string>)
    ensures |r| == |spans|
  {
    if spans == [] then [] else [rule.markup(spans[0].inner)] + Replacements(rule, spans[1..])
  }

  lemma {:induction false} WeaveOriginals(text: string, spans: seq<Found>, from: nat)
    requires from <= |text| && Ascending(spans, from, |text|)
    ensures Weave(Gaps(text, spans, from), Originals(text, spans)) == text[from..]
    decreases |spans|
  {
    if spans != [] {
      var f := spans[0];
      assert from <= f.start < f.end <= |text| && Ascending(spans[1..], f.end, |text|);
      WeaveOriginals(text, spans[1..], f.end);
      assert text[from..] == text[from..f.start] + (text[f.start..f.end] + text[f.end..]);
    }
  }

  /** Where the first span may start. */
  predicate StartsFrom(text: string, spans: seq<Found>, at: nat) {
    at <= |text| && (spans != [] ==> at <= spans[0].start <= |text|)
  }

  lemma GapsExtend(text: string, spans: seq<Found>, from: nat, at: nat)
    requires from <= at && StartsFrom(text, spans, at)
    ensures Gaps(text, spans, from) == [text[from..at] + Gaps(text, spans, at)[0]] + Gaps(text, spans, at)[1..]
  {
    if spans == [] {
      assert text[from..|text|] == text[from..at] + text[at..|text|];
    } else {
      assert text[from..spans[0].start] == text[from..at] + text[at..spans[0].start];
    }
  }

  function Woven(rule: Rule, text: string, spans: seq<Found>, from: nat): string {
    Weave(Gaps(text, spans, from), Replacements(rule, spans))
  }

  lemma WovenSkip(rule: Rule, text: string, spans: seq<Found>, at: nat, n: nat)
    requires StartsFrom(text, spans, at + n)
    ensures Woven(rule, text, spans, at) == text[at..at + n] + Woven(rule, text, spans, at + n)
  {
    GapsExtend(text, spans, at, at + n);
    WeaveFirst(Gaps(text, spans, at + n), Replacements(rule, spans), text[at..at + n]);
  }

  lemma FoundFrom(rule: Rule, text: string, masked: string, at: nat)
    requires |text| == |masked| && at <= |text|
    ensures StartsFrom(text, SpansFrom(rule, masked[at..], at), at)
  {
    SpansAscending(rule, masked[at..], at);
  }

  lemma {:induction false} RewriteWeaves(rule: Rule, text: string, masked: string, at: nat, spans: seq<Found>)
    requires |text| == |masked| && at <= |text| && spans == SpansFrom(rule, masked[at..], at)
    ensures Rewrite(rule, text[at..], masked[at..]) == Woven(rule, text, spans, at)
    decreases |text| - at
  {
    if at < |text| {
      var n := Stride(rule.matcher, masked[at..]);
      var rest := SpansFrom(rule, masked[at + n..], at + n);
      RewriteWeaves(rule, text, masked, at + n, rest);
      FoundAhead(rule, masked, at, n, spans, rest);
      RewriteAhead(rule, text, masked, at, n);
      if Takes(rule, masked[at..]) {
        WeaveSpan(rule, text, Found(at, at + n, Inner(masked[at..], n)), rest);
      } else {
        FoundFrom(rule, text, masked, at + n);
        WovenSkip(rule, text, rest, at, n);
      }
    }
  }

  lemma WeaveFirst(gaps: seq<string>, pieces: seq<string>, front: string)
    requires |gaps| == |pieces| + 1
    ensures Weave([front + gaps[0]] + gaps[1..], pieces) == front + Weave(gaps, pieces)
  {
    assert ([front + gaps[0]] + gaps[1..])[1..] == gaps[1..];
    if pieces != [] {
      var tail := pieces[0] + Weave(gaps[1..], pieces[1..]);
      assert (front + gaps[0]) + tail == front + (gaps[0] + tail);
    }
  }

  lemma WeaveSpan(rule: Rule, text: string, f: Found, rest: seq<Found>)
    ensures Woven(rule, text, [f] + rest, f.start) == rule.markup(f.inner) + Woven(rule, text, rest, f.end)
  {
    var all := [f] + rest;
    assert all[0] == f && all[1..] == rest;
    var gaps, pieces := Gaps(text, rest, f.end), Replacements(rule, rest);
    assert Slice(text, f.start, f.start) == "";
    assert Gaps(text, all, f.start) == [""] + gaps;
    assert Replacements(rule, all) == [rule.markup(f.inner)] + pieces;
    assert ([""] + gaps)[1..] == gaps && ([rule.markup(f.inner)] + pieces)[1..] == pieces;
    assert "" + (rule.markup(f.inner) + Weave(gaps, pieces)) == rule.markup(f.inner) + Weave(gaps, pieces);
  }

  /** Rewriting replaces the spans and nothing else: the text is its gaps woven with the
      spans, the result is the same gaps, in the same order, woven with the replacements. */
  lemma RewriteReplacesSpans(rule: Rule, text: string, masked: string, spans: seq<Found>)
    requires |text| == |masked| && spans == SpansFrom(rule, masked, 0)
    ensures Ascending(spans, 0, |text|)
    ensures text == Weave(Gaps(text, spans, 0), Originals(text, spans))
    ensures Rewrite(rule, text, masked) == Weave(Gaps(text, spans, 0), Replacements(rule, spans))
  {
    SpansAscending(rule, masked, 0);
    assert text[0..] == text && masked[0..] == masked;
    WeaveOriginals(text, spans, 0);
    RewriteWeaves(rule, text, masked, 0, spans);
  }

  // --- Composition -----------------------------------------------------------------

  lemma OverlayConcat(a: string, b: string, ma: string, mb: string)
    requires |a| == |ma| && |b| == |mb|
    ensures Overlay(a + b, ma + mb) == Overlay(a, ma) + Overlay(b, mb)
  {
  }

  /** Nothing matches at any position of `a` when `rest` follows. */
  ghost predicate Quiet(m: Matcher, a: string, rest: string) {
    forall i | 0 <= i < |a| :: !Hit(m, a[i..] + rest)
  }

  lemma BlankStep(m: Matcher, c: char, rest: string)
    requires !Hit(m, [c] + rest)
    ensures Blank(m, [c] + rest) == [c] + Blank(m, rest)
  {
    assert ([c] + rest)[1..] == rest && ([c] + rest)[..1] == [c];
  }

  lemma QuietTail(m: Matcher, a: string, rest: string)
    requires Quiet(m, a, rest) && a != []
    ensures !Hit(m, [a[0]] + (a[1..] + rest)) && Quiet(m, a[1..], rest)
    ensures a + rest == [a[0]] + (a[1..] + rest)
  {
    assert a[0..] == a && a + rest == [a[0]] + (a[1..] + rest);
    forall i | 0 <= i < |a[1..]| ensures !Hit(m, a[1..][i..] + rest) {
      assert a[1..][i..] == a[i + 1..];
    }
  }

  lemma {:induction false} BlankQuiet(m: Matcher, a: string, rest: string)
    requires Quiet(m, a, rest)
    ensures Blank(m, a + rest) == a + Blank(m, rest)
  {
    if a == [] {
      assert a + rest == rest && a + Blank(m, rest) == Blank(m, rest);
    } else {
      QuietTail(m, a, rest);
      BlankQuiet(m, a[1..], rest);
      BlankStep(m, a[0], a[1..] + rest);
      assert a + Blank(m, rest) == [a[0]] + (a[1..] + Blank(m, rest));
    }
  }

  lemma BlankHit(m: Matcher, a: string, rest: string)
    requires m(a + rest) == |a| && a != []
    ensures Blank(m, a + rest) == Spaces(|a|) + Blank(m, rest)
  {
    assert (a + rest)[|a|..] == rest;
  }

  lemma RewriteStep(rule: Rule, c: char, d: char, b: string, mb: string)
    requires |b| == |mb| && !Hit(rule.matcher, [d] + mb)
    ensures Rewrite(rule, [c] + b, [d] + mb) == [c] + Rewrite(rule, b, mb)
  {
    assert ([c] + b)[1..] == b && ([c] + b)[..1] == [c] && ([d] + mb)[1..] == mb;
  }

  /** A match is replaced if it is wanted, and copied if not. */
  lemma RewriteHit(rule: Rule, a: string, ma: string, b: string, mb: string)
    requires |a| == |ma| > 0 && |b| == |mb| && rule.matcher(ma + mb) == |ma|
    ensures Rewrite(rule, a + b, ma + mb)
         == (if rule.wanted(Inner(ma + mb, |ma|)) then rule.markup(Inner(ma + mb, |ma|)) else a) + Rewrite(rule, b, mb)
  {
    assert (a + b)[..|a|] == a && (a + b)[|a|..] == b && (ma + mb)[|ma|..] == mb;
  }

  /** Text in which nothing matches is copied. */
  lemma {:induction false} RewriteQuiet(rule: Rule, a: string, ma: string, b: string, mb: string)
    requires |a| == |ma| && |b| == |mb| && Quiet(rule.matcher, ma, mb)
    ensures Rewrite(rule, a + b, ma + mb) == a + Rewrite(rule, b, mb)
    decreases |a|
  {
    if a == [] {
      assert a + b == b && ma + mb == mb && a + Rewrite(rule, b, mb) == Rewrite(rule, b, mb);
    } else {
      QuietTail(rule.matcher, ma, mb);
      RewriteQuiet(rule, a[1..], ma[1..], b, mb);
      RewriteStep(rule, a[0], ma[0], a[1..] + b, ma[1..] + mb);
      assert a + b == [a[0]] + (a[1..] + b);
      assert a + Rewrite(rule, b, mb) == [a[0]] + (a[1..] + Rewrite(rule, b, mb));
    }
  }

  /** How many matches are wanted. */
  function Count(rule: Rule, s: string): nat
    decreases |s|
  {
    if s == [] then 0
    else (if Takes(rule, s) then 1 else 0) + Count(rule, s[Stride(rule.matcher, s)..])
  }

  lemma {:induction false} CountSpans(rule: Rule, s: string, at: nat)
    ensures |SpansFrom(rule, s, at)| == Count(rule, s)
    decreases |s|
  {
    if s != [] {
      var n := Stride(rule.matcher, s);
      CountSpans(rule, s[n..], at + n);
    }
  }

  lemma {:induction false} CountQuiet(rule: Rule, a: string, rest: string)
    requires Quiet(rule.matcher, a, rest)
    ensures Count(rule, a + rest) == Count(rule, rest)
  {
    if a == [] {
      assert a + rest == rest;
    } else {
      QuietTail(rule.matcher, a, rest);
      assert (a + rest)[1..] == a[1..] + rest;
      CountQuiet(rule, a[1..], rest);
    }
  }

  lemma CountHit(rule: Rule, a: string, rest: string, taken: bool)
    requires a != [] && rule.matcher(a + rest) == |a| && taken == rule.wanted(Inner(a + rest, |a|))
    ensures Count(rule, a + rest) == (if taken then 1 else 0) + Count(rule, rest)
  {
    assert (a + rest)[|a|..] == rest;
  }

  /** A masked text that is one wanted match. */
  lemma WholeHit(rule: Rule, text: string, masked: string)
    requires |text| == |masked| > 0 && rule.matcher(masked) == |masked| && rule.wanted(Inner(masked, |masked|))
    ensures Count(rule, masked) == 1
    ensures Rewrite(rule, text, masked) == rule.markup(Inner(masked, |masked|))
  {
    assert text[|text|..] == "" && masked[|masked|..] == "";
  }
}
