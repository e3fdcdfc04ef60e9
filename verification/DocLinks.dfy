/** The documentation linker's rewrite: masking fences, roles and links at equal length,
    finding the linkable code spans in what is left, and splicing markup over them from
    right to left.
 */
module DocLinks {
  import opened Common
  import opened Text
  import opened DocNames
  import opened Splicing

  // --- Patterns --------------------------------------------------------------------

  /** The four expressions the linker scans for. */
  datatype Pattern = Fence | Role | Link | Span

  predicate IsRoleChar(c: char) { IsLower(c) || c == ':' }

  function RoleNameEnd(s: string, from: nat): (k: nat)
    requires from <= |s|
    ensures from <= k <= |s|
    ensures forall j | from <= j < k :: IsRoleChar(s[j])
    ensures k < |s| ==> !IsRoleChar(s[k])
    decreases |s| - from
  {
    if from == |s| || !IsRoleChar(s[from]) then from else RoleNameEnd(s, from + 1)
  }

  function SpanEnd(s: string, from: nat): (k: nat)
    requires from <= |s|
    ensures from <= k <= |s|
    ensures forall j | from <= j < k :: s[j] != '`' && s[j] != '\n'
    ensures k < |s| ==> s[k] == '`' || s[k] == '\n'
    decreases |s| - from
  {
    if from == |s| || s[from] == '`' || s[from] == '\n' then from else SpanEnd(s, from + 1)
  }

  predicate ThreeTicks(s: string) {
    |s| >= 3 && s[0] == '`' && s[1] == '`' && s[2] == '`'
  }

  /** The first position at or after `from` where three backticks stand, or the length. */
  function TicksAt(s: string, from: nat): (k: nat)
    requires from <= |s|
    ensures from <= k <= |s|
    ensures forall j | from <= j < k :: !ThreeTicks(s[j..])
    ensures k < |s| ==> ThreeTicks(s[k..])
    decreases |s| - from
  {
    if from == |s| || ThreeTicks(s[from..]) then from else TicksAt(s, from + 1)
  }

  function FenceLen(s: string): (r: Option<nat>)
    ensures r.Some? ==> 0 < r.value <= |s|
  {
    if ThreeTicks(s) then
      var k := TicksAt(s, 3);
      if k < |s| then Some(k + 3) else None
    else None
  }

  function RoleLen(s: string): (r: Option<nat>)
    ensures r.Some? ==> 0 < r.value <= |s|
  {
    if s != [] && s[0] == '{' then
      var k := RoleNameEnd(s, 1);
      if k > 1 && k + 1 < |s| && s[k] == '}' && s[k + 1] == '`' then
        var e := Seek(s, '`', k + 2);
        if e < |s| then Some(e + 1) else None
      else None
    else None
  }

  function LinkLen(s: string): (r: Option<nat>)
    ensures r.Some? ==> 0 < r.value <= |s|
  {
    if s != [] && s[0] == '[' then
      var k := Seek(s, ']', 1);
      if k + 1 < |s| && s[k + 1] == '(' then
        var e := Seek(s, ')', k + 2);
        if e < |s| then Some(e + 1) else None
      else None
    else None
  }

  function SpanLen(s: string): (r: Option<nat>)
    ensures r.Some? ==> 2 < r.value <= |s|
  {
    if s != [] && s[0] == '`' then
      var k := SpanEnd(s, 1);
      if 1 < k < |s| && s[k] == '`' then Some(k + 1) else None
    else None
  }

  /** The length of the match at the front of `s`, as `finditer` would take it. */
  function MatchLen(p: Pattern, s: string): (r: Option<nat>)
    ensures r.Some? ==> 0 < r.value <= |s|
  {
    match p
    case Fence => FenceLen(s)
    case Role => RoleLen(s)
    case Link => LinkLen(s)
    case Span => SpanLen(s)
  }

  /** `finditer` for one of the expressions. */
  function Finder(p: Pattern): Matcher {
    (s: string) => var r := MatchLen(p, s); if r.Some? then r.value else 0
  }

  // --- The rewrite -----------------------------------------------------------------

  /** The text that is searched for code spans: fences, roles and links blanked. */
  function Blanked(s: string): (r: string)
    ensures |r| == |s|
  {
    Overlay(Overlay(Overlay(s, Blank(Finder(Fence), s)), Blank(Finder(Role), s)), Blank(Finder(Link), s))
  }

  /** The markup a linkable spelling becomes. */
  function Markup(site: Site, spelling: string): string {
    match SourcePath(site, spelling)
    case Some(path) =>
      "[" + ("`" + spelling + "`") + "](" + ((if path in site.dirs then site.tree else site.blob) + path) + ")"
    case None =>
      match Resolve(site, spelling)
      case Some(target) => "{py:obj}`" + (spelling + " <" + target + ">") + "`"
      case None => "`" + spelling + "`"
  }

  /** Rewrite the code spans whose spelling is linkable. */
  function Linker(site: Site): Rule {
    Rule(Finder(Span), (s: string) => Linkable(site, s), (s: string) => Markup(site, s))
  }

  /** `_spans`, in source order and apart from each other; the masked text keeps the page's
      offsets, and what the page has at both ends of a span is a backtick. */
  method LinkableSpans(site: Site, text: string) returns (out: seq<Found>)
    ensures out == SpansFrom(Linker(site), Blanked(text), 0)
    ensures Ascending(out, 0, |text|)
    ensures forall k | 0 <= k < |out| :: InPage(site, text, out[k])
  {
    var masked := Mask(Finder(Fence), text, text);
    masked := Mask(Finder(Role), text, masked);
    masked := Mask(Finder(Link), text, masked);
    out := Splicing.FindSpans(Linker(site), masked);
    forall k | 0 <= k < |out|
      ensures InPage(site, text, out[k])
    {
      SpansRead(Linker(site), masked, 0, k);
      FoundInPage(site, text, masked, out[k]);
    }
  }

  /** A linkable span of the page, between two of its backticks. */
  predicate InPage(site: Site, text: string, f: Found) {
    && f.start < f.end <= |text| && text[f.start] == '`' && text[f.end - 1] == '`'
    && Linkable(site, f.inner)
  }

  lemma FoundInPage(site: Site, text: string, masked: string, f: Found)
    requires Under(text, masked) && Reads(Linker(site), masked, 0, f)
    ensures InPage(site, text, f)
  {
    var s := masked[f.start..];
    LinkerTakes(site, s);
    assert s[0] == masked[f.start] && s[f.end - f.start - 1] == masked[f.end - 1];
  }

  lemma LinkerTakes(site: Site, s: string)
    requires s != [] && Takes(Linker(site), s)
    ensures var n := Stride(Linker(site).matcher, s);
            s[0] == '`' && s[n - 1] == '`' && Linkable(site, Inner(s, n))
  {
    assert SpanLen(s).Some? && SpanLen(s).value == Linker(site).matcher(s);
  }

  /** What `fix` leaves on the page. */
  function Fixed(site: Site, text: string): string {
    Rewrite(Linker(site), text, Blanked(text))
  }

  /** `fix`: right-to-left splicing equals the simultaneous substitution, and the number
      returned is the number of spans replaced. */
  method Fix(site: Site, text: string) returns (page: string, count: nat)
    ensures page == Fixed(site, text)
    ensures count == |SpansFrom(Linker(site), Blanked(text), 0)|
    ensures count == 0 ==> page == text
  {
    var spans := LinkableSpans(site, text);
    page, count := SpliceAll(Linker(site), text, spans, Blanked(text));
  }

  /** The page outside the linkable spans is unchanged and in order. */
  lemma FixReplacesSpans(site: Site, text: string, spans: seq<Found>)
    requires spans == SpansFrom(Linker(site), Blanked(text), 0)
    ensures Ascending(spans, 0, |text|)
    ensures text == Weave(Gaps(text, spans, 0), Originals(text, spans))
    ensures Fixed(site, text) == Weave(Gaps(text, spans, 0), Replacements(Linker(site), spans))
  {
    RewriteReplacesSpans(Linker(site), text, Blanked(text), spans);
  }

  // --- When the spelling is the page's own -----------------------------------------

  /** The spans of the fences, roles and links found on a page. */
  function MarkupSpans(text: string): seq<Found> {
    Matches(Finder(Fence), text, 0) + Matches(Finder(Role), text, 0) + Matches(Finder(Link), text, 0)
  }

  /** The masked text is the page with the fences, roles and links blanked. */
  lemma BlankedExactly(text: string, blanked: string, spans: seq<Found>)
    requires blanked == Blanked(text) && spans == MarkupSpans(text)
    ensures BlankedBy(text, blanked, spans)
  {
    var a, b, c := Finder(Fence), Finder(Role), Finder(Link);
    MaskedBy(a, text);
    MaskedBy(b, text);
    MaskedBy(c, text);
    ThreeMasks(text, Blank(a, text), Blank(b, text), Blank(c, text),
               Matches(a, text, 0), Matches(b, text, 0), Matches(c, text, 0));
  }

  /** For every page and every span found on it: the spelling that is looked up and written
      back is the page's own text there if and only if no fence, role or link covers a
      character of the span that is not blank already. */
  lemma SpellingKeptExactly(site: Site, text: string, f: Found, spans: seq<Found>)
    requires f in SpansFrom(Linker(site), Blanked(text), 0) && spans == MarkupSpans(text)
    ensures f.start + 2 < f.end <= |text|
    ensures f.inner == text[f.start + 1..f.end - 1] <==> Unmarked(text, spans, f.start + 1, f.end - 1)
  {
    FoundSpan(site, text, f);
    BlankedExactly(text, Blanked(text), spans);
    KeptSpan(text, Blanked(text), spans, f);
  }

  lemma FoundSpan(site: Site, text: string, f: Found)
    requires f in SpansFrom(Linker(site), Blanked(text), 0)
    ensures f.start + 2 < f.end <= |text| && f.inner == Blanked(text)[f.start + 1..f.end - 1]
  {
    FoundInside(Linker(site), Blanked(text), f);
    SpanOfPage(site, Blanked(text), f);
  }

  lemma SpanOfPage(site: Site, blanked: string, f: Found)
    requires Reads(Linker(site), blanked, 0, f)
    ensures f.start + 2 < f.end <= |blanked| && f.inner == blanked[f.start + 1..f.end - 1]
  {
    SpanBounds(Linker(site), blanked, f);
    SpanIsLong(site, blanked[f.start..]);
    InnerSlice(blanked, f.start, f.end);
  }

  lemma SpanBounds(rule: Rule, s: string, f: Found)
    requires Reads(rule, s, 0, f)
    ensures f.start < f.end <= |s| && Takes(rule, s[f.start..]) && f.inner == Inner(s[f.start..], f.end - f.start)
    ensures Stride(rule.matcher, s[f.start..]) == f.end - f.start
  {
    assert f.start - 0 == f.start;
  }

  lemma SpanIsLong(site: Site, s: string)
    requires s != [] && Takes(Linker(site), s)
    ensures Stride(Linker(site).matcher, s) > 2
  {
    assert SpanLen(s).Some? && SpanLen(s).value == Linker(site).matcher(s);
  }
}
