/** Printing a Rust enum, and the proof that the tag reader undoes it. */
module EnumPrinting {
  import opened Common
  import opened Text
  import opened EnumTags

  /** A line above a variant: a comment, or a one-line attribute. The strings `w` are the
      whitespace the patterns allow, and `more` the options that follow. */
  datatype Lead =
    | Comment(text: string)
    | Rename(w1: string, w2: string, w3: string, tag: string, more: string)
    | Skip(w1: string, more: string)
    | Other(text: string)

  /** A variant: its leads, its name, the rest of its line, and the lines its payload
      continues on. */
  datatype Variant = Variant(lead: seq<Lead>, name: string, head: string, more: seq<string>)

  function RenameRest(w1: string, w2: string, w3: string, tag: string, end: string): string {
    w1 + ("rename" + (w2 + ("=" + (w3 + ("\"" + (tag + ("\"" + end)))))))
  }

  function SkipRest(w1: string, end: string): string {
    w1 + ("skip" + end)
  }

  function LeadText(l: Lead): string {
    match l
    case Comment(text) => "//" + text
    case Rename(w1, w2, w3, tag, more) => "#[" + ("serde(" + RenameRest(w1, w2, w3, tag, more + ")]"))
    case Skip(w1, more) => "#[" + ("serde(" + SkipRest(w1, more + ")]"))
    case Other(text) => "#[" + text
  }

  predicate Blank(w: string) {
    AllSpace(w) && NoBreak(w)
  }

  predicate Flat(s: string) {
    forall i | 0 <= i < |s| :: s[i] != '{' && s[i] != '}' && s[i] != '(' && s[i] != ')'
  }

  /** A rename, however its options go on. */
  predicate RenameOk(l: Lead) {
    && l.Rename? && Blank(l.w1) && Blank(l.w2) && Blank(l.w3)
    && l.tag != [] && '"' !in l.tag && Flat(l.tag) && NoBreak(l.tag) && Flat(l.more) && NoBreak(l.more)
  }

  /** No option that skips comes after a rename. */
  predicate LeadOk(l: Lead) {
    match l
    case Comment(text) => Delta(text) == 0 && NoBreak(text) && Trimmed("//" + text)
    case Rename(_, _, _, _, more) => RenameOk(l) && Find(more, "skip", 0).None?
    case Skip(w1, more) => Blank(w1) && Flat(more) && NoBreak(more) && (more == [] || !IsWord(more[0]))
    case Other(text) =>
      && Delta(text) == 0 && NoBreak(text) && Trimmed("#[" + text)
      && SearchRename("#[" + text).None? && !SearchSkip("#[" + text)
  }

  /** The payload is open after every line but its last, and closed after that. */
  predicate Closes(d: int, more: seq<string>)
    decreases |more|
  {
    if more == [] then d == 0 else d != 0 && Closes(d + Delta(more[0]), more[1..])
  }

  predicate VariantOk(v: Variant) {
    && (forall i | 0 <= i < |v.lead| :: LeadOk(v.lead[i]))
    && IsVariantName(v.name)
    && (v.head == [] || !IsAlnum(v.head[0])) && Trimmed(v.name + v.head) && NoBreak(v.name + v.head)
    && (forall i | 0 <= i < |v.more| :: NoBreak(v.more[i]))
    && Closes(Delta(v.name + v.head), v.more)
  }

  function LeadTexts(lead: seq<Lead>): seq<string> {
    if lead == [] then [] else [LeadText(lead[0])] + LeadTexts(lead[1..])
  }

  function LeadLines(pad: string, lead: seq<Lead>): seq<string> {
    if lead == [] then [] else [pad + LeadText(lead[0])] + LeadLines(pad, lead[1..])
  }

  /** The source lines of one variant, indented by `pad`. */
  function VariantLines(pad: string, v: Variant): seq<string> {
    LeadLines(pad, v.lead) + ([pad + (v.name + v.head)] + v.more)
  }

  function EnumLines(pad: string, variants: seq<Variant>): seq<string> {
    if variants == [] then [] else VariantLines(pad, variants[0]) + EnumLines(pad, variants[1..])
  }

  // --- What serde makes of it ------------------------------------------------------

  /** The tag of the last rename among the leads. */
  function LastRename(lead: seq<Lead>, before: Option<string>): Option<string>
    decreases |lead|
  {
    if lead == [] then before
    else LastRename(lead[1..], if lead[0].Rename? then Some(lead[0].tag) else before)
  }

  predicate Skipped(lead: seq<Lead>) {
    lead != [] && (lead[0].Skip? || Skipped(lead[1..]))
  }

  /** Serde accepts `tag` for a variant: a skipped variant has none, a renamed one the tag of
      its last rename, and any other its name, in snake case where the container says so. */
  ghost predicate SerdeGives(v: Variant, renameAll: bool, tag: string) {
    && !Skipped(v.lead)
    && match LastRename(v.lead, None)
       case Some(renamed) => tag == renamed
       case None => if renameAll then IsSnakeOf(tag, v.name) else tag == v.name
  }

  /** The tags the scan collects from one variant. */
  function SerdeTag(v: Variant, renameAll: bool): set<string> {
    if Skipped(v.lead) then {} else {TagOf(v.name, renameAll, LastRename(v.lead, None))}
  }

  function SerdeTags(variants: seq<Variant>, renameAll: bool): set<string> {
    if variants == [] then {} else SerdeTag(variants[0], renameAll) + SerdeTags(variants[1..], renameAll)
  }

  lemma SerdeTagMeans(v: Variant, renameAll: bool, tag: string)
    ensures tag in SerdeTag(v, renameAll) <==> SerdeGives(v, renameAll, tag)
  {
    SnakeMeans(v.name, tag);
  }

  lemma {:induction false} SerdeTagsMean(variants: seq<Variant>, renameAll: bool, tag: string)
    ensures tag in SerdeTags(variants, renameAll)
      <==> exists i | 0 <= i < |variants| :: SerdeGives(variants[i], renameAll, tag)
  {
    if variants != [] {
      var rest := variants[1..];
      SerdeTagMeans(variants[0], renameAll, tag);
      SerdeTagsMean(rest, renameAll, tag);
      assert forall i | 0 <= i < |rest| :: rest[i] == variants[i + 1];
      assert forall i | 0 < i < |variants| :: variants[i] == rest[i - 1];
    }
  }

  // --- Only the right lines are kept -----------------------------------------------

  lemma {:induction false} FlatDelta(s: string)
    requires Flat(s)
    ensures Delta(s) == 0
  {
    if s != [] {
      FlatDelta(s[1..]);
    }
  }

  lemma SpacesAreFlat(w: string)
    requires AllSpace(w)
    ensures Delta(w) == 0 && Flat(w)
  {
    forall i | 0 <= i < |w| ensures w[i] != '{' && w[i] != '}' && w[i] != '(' && w[i] != ')' {
      assert IsSpace(w[i]);
    }
    FlatDelta(w);
  }

  lemma FlatPlus(a: string, b: string)
    requires Flat(a)
    ensures Delta(a + b) == Delta(b)
  {
    FlatDelta(a);
    DeltaConcat(a, b);
  }

  lemma PaddedLine(pad: string, text: string)
    requires AllSpace(pad) && Trimmed(text) && text != []
    ensures KeptLine(pad + text, 0) == [text] && Delta(pad + text) == Delta(text)
  {
    StripPadded(pad, text, "");
    assert pad + text + "" == pad + text;
    SpacesAreFlat(pad);
    FlatPlus(pad, text);
  }

  lemma ClosingDelta(more: string)
    requires Flat(more)
    ensures Delta(more + ")]") == -1
  {
    assert ")]"[1..] == "]";
    FlatDelta("]");
    FlatPlus(more, ")]");
  }

  lemma SerdeDelta(rest: string)
    requires Delta(rest) == -1
    ensures Delta("#[" + ("serde(" + rest)) == 0
  {
    FlatPlus("#[", "serde(" + rest);
    assert "serde(" + rest == "serde" + ("(" + rest);
    FlatPlus("serde", "(" + rest);
    assert ("(" + rest)[1..] == rest;
  }

  lemma RenameRestDelta(w1: string, w2: string, w3: string, tag: string, end: string)
    requires AllSpace(w1) && AllSpace(w2) && AllSpace(w3) && Flat(tag) && Delta(end) == -1
    ensures Delta(RenameRest(w1, w2, w3, tag, end)) == -1
  {
    SpacesAreFlat(w1);
    SpacesAreFlat(w2);
    SpacesAreFlat(w3);
    var r7 := "\"" + end;
    FlatPlus("\"", end);
    var r6 := tag + r7;
    FlatPlus(tag, r7);
    var r5 := "\"" + r6;
    FlatPlus("\"", r6);
    var r4 := w3 + r5;
    FlatPlus(w3, r5);
    var r3 := "=" + r4;
    FlatPlus("=", r4);
    var r2 := w2 + r3;
    FlatPlus(w2, r3);
    FlatPlus("rename", r2);
    FlatPlus(w1, "rename" + r2);
  }

  lemma SkipRestDelta(w1: string, end: string)
    requires AllSpace(w1) && Delta(end) == -1
    ensures Delta(SkipRest(w1, end)) == -1
  {
    SpacesAreFlat(w1);
    FlatPlus("skip", end);
    FlatPlus(w1, "skip" + end);
  }

  lemma EndsInBracket(l: Lead)
    requires LeadOk(l) && (l.Rename? || l.Skip?)
    ensures LeadText(l)[|LeadText(l)| - 1] == ']' && LeadText(l)[0] == '#'
  {
  }

  lemma LeadShape(l: Lead)
    requires LeadOk(l)
    ensures LeadText(l) != [] && Trimmed(LeadText(l)) && Delta(LeadText(l)) == 0
  {
    match l
    case Comment(text) => FlatPlus("//", text);
    case Rename(w1, w2, w3, tag, more) =>
      EndsInBracket(l);
      ClosingDelta(more);
      RenameRestDelta(w1, w2, w3, tag, more + ")]");
      SerdeDelta(RenameRest(w1, w2, w3, tag, more + ")]"));
    case Skip(w1, more) =>
      EndsInBracket(l);
      ClosingDelta(more);
      SkipRestDelta(w1, more + ")]");
      SerdeDelta(SkipRest(w1, more + ")]"));
    case Other(text) => FlatPlus("#[", text);
  }

  lemma {:induction false} LeadsKept(pad: string, lead: seq<Lead>)
    requires AllSpace(pad) && forall i | 0 <= i < |lead| :: LeadOk(lead[i])
    ensures TopLevel(LeadLines(pad, lead), 0) == LeadTexts(lead) && DeltaLines(LeadLines(pad, lead)) == 0
  {
    if lead != [] {
      LeadShape(lead[0]);
      PaddedLine(pad, LeadText(lead[0]));
      LeadsKept(pad, lead[1..]);
      assert LeadLines(pad, lead)[1..] == LeadLines(pad, lead[1..]);
    }
  }

  lemma {:induction false} PayloadHidden(more: seq<string>, d: int)
    requires Closes(d, more)
    ensures TopLevel(more, d) == [] && DeltaLines(more) == -d
    decreases |more|
  {
    if more != [] {
      PayloadHidden(more[1..], d + Delta(more[0]));
    }
  }

  lemma NameLineKept(pad: string, line: string, more: seq<string>)
    requires AllSpace(pad) && Trimmed(line) && line != [] && Closes(Delta(line), more)
    ensures TopLevel([pad + line] + more, 0) == [line] && DeltaLines([pad + line] + more) == 0
  {
    PaddedLine(pad, line);
    PayloadHidden(more, Delta(line));
    var tail := [pad + line] + more;
    assert tail[0] == pad + line && tail[1..] == more;
    assert TopLevel(tail, 0) == KeptLine(pad + line, 0) + TopLevel(more, Delta(line));
  }

  lemma VariantKept(pad: string, v: Variant)
    requires AllSpace(pad) && VariantOk(v)
    ensures TopLevel(VariantLines(pad, v), 0) == LeadTexts(v.lead) + [v.name + v.head]
    ensures DeltaLines(VariantLines(pad, v)) == 0
  {
    var leads, tail := LeadLines(pad, v.lead), [pad + (v.name + v.head)] + v.more;
    LeadsKept(pad, v.lead);
    NameLineKept(pad, v.name + v.head, v.more);
    AfterClosed(leads, tail);
  }

  /** Lines that leave the depth at 0 do not affect those after them. */
  lemma AfterClosed(a: seq<string>, b: seq<string>)
    requires DeltaLines(a) == 0
    ensures TopLevel(a + b, 0) == TopLevel(a, 0) + TopLevel(b, 0) && DeltaLines(a + b) == DeltaLines(b)
  {
    TopLevelConcat(a, b, 0, DeltaLines(a));
    DeltaLinesConcat(a, b);
  }

  lemma {:induction false} DeltaLinesConcat(a: seq<string>, b: seq<string>)
    ensures DeltaLines(a + b) == DeltaLines(a) + DeltaLines(b)
  {
    if a == [] {
      assert a + b == b;
    } else {
      assert (a + b)[1..] == a[1..] + b;
      DeltaLinesConcat(a[1..], b);
    }
  }

  // --- The patterns read the attributes back ---------------------------------------

  lemma RenameHereRead(w1: string, w2: string, w3: string, tag: string, end: string)
    requires AllSpace(w1) && AllSpace(w2) && AllSpace(w3) && tag != [] && '"' !in tag
    ensures RenameHere("serde(" + RenameRest(w1, w2, w3, tag, end)) == Some(tag)
  {
    var r6 := tag + ("\"" + end);
    var r5 := "\"" + r6;
    var r3 := "=" + (w3 + r5);
    var r1 := "rename" + (w2 + r3);
    AfterConcat("serde(", RenameRest(w1, w2, w3, tag, end));
    DropSpacesPadded(w1, r1);
    AfterConcat("rename", w2 + r3);
    DropSpacesPadded(w2, r3);
    AfterConcat("=", w3 + r5);
    DropSpacesPadded(w3, r5);
    AfterConcat("\"", r6);
    TagEnds(tag, end);
  }

  lemma TagEnds(tag: string, end: string)
    requires '"' !in tag
    ensures var r := tag + ("\"" + end); Seek(r, '"', 0) == |tag| < |r| && r[..|tag|] == tag
  {
    var r := tag + ("\"" + end);
    assert forall j | 0 <= j < |tag| :: r[j] == tag[j];
    assert r[|tag|] == '"';
  }

  /** A `serde(` attribute matches where its name starts, or not at all. */
  lemma SerdeSearch(rest: string)
    requires '(' !in rest
    ensures SearchRename("#[" + ("serde(" + rest)) == RenameHere("serde(" + rest)
    ensures SearchSkip("#[" + ("serde(" + rest)) == SkipHere("serde(" + rest)
  {
    var t := "serde(" + rest;
    SearchPast("#[", t);
    assert t[1..] == "erde(" + rest;
    SearchPast("erde(", rest);
    SearchNeedsParen(rest);
  }

  lemma NotSkip(w1: string, rest: string)
    requires AllSpace(w1) && rest != [] && rest[0] == 'r'
    ensures !SkipHere("serde(" + (w1 + rest))
  {
    AfterConcat("serde(", w1 + rest);
    DropSpacesPadded(w1, rest);
    AfterOther("skip", rest);
  }

  lemma SkipHereRead(w1: string, end: string)
    requires AllSpace(w1) && end != [] && !IsWord(end[0])
    ensures SkipHere("serde(" + SkipRest(w1, end)) && RenameHere("serde(" + SkipRest(w1, end)).None?
  {
    var r := "skip" + end;
    AfterConcat("serde(", w1 + r);
    DropSpacesPadded(w1, r);
    AfterConcat("skip", end);
    AfterOther("rename", r);
  }

  lemma NoParen(w1: string, w2: string, w3: string, tag: string, end: string)
    requires AllSpace(w1) && AllSpace(w2) && AllSpace(w3) && Flat(tag) && '(' !in end
    ensures '(' !in RenameRest(w1, w2, w3, tag, end) && '(' !in SkipRest(w1, end)
  {
    SpacesAreFlat(w1);
    SpacesAreFlat(w2);
    SpacesAreFlat(w3);
    assert '(' !in "rename" && '(' !in "skip" && '(' !in "=" && '(' !in "\"";
    assert '(' !in tag + ("\"" + end);
    assert '(' !in w3 + ("\"" + (tag + ("\"" + end)));
  }

  lemma EndNoParen(more: string)
    requires Flat(more)
    ensures '(' !in more + ")]"
  {
    assert '(' !in ")]";
  }

  /** A rename is read whatever options follow, and none of those is read as a skip. */
  lemma RenameRead(l: Lead)
    requires RenameOk(l)
    ensures SearchRename(LeadText(l)) == Some(l.tag) && !SearchSkip(LeadText(l))
  {
    var end := l.more + ")]";
    EndNoParen(l.more);
    NoParen(l.w1, l.w2, l.w3, l.tag, end);
    SerdeSearch(RenameRest(l.w1, l.w2, l.w3, l.tag, end));
    RenameHereRead(l.w1, l.w2, l.w3, l.tag, end);
    NotSkip(l.w1, "rename" + (l.w2 + ("=" + (l.w3 + ("\"" + (l.tag + ("\"" + end)))))));
  }

  lemma SkipRead(l: Lead)
    requires LeadOk(l) && l.Skip?
    ensures SearchRename(LeadText(l)).None? && SearchSkip(LeadText(l))
  {
    var end := l.more + ")]";
    EndNoParen(l.more);
    NoParen(l.w1, "", "", "", end);
    SerdeSearch(SkipRest(l.w1, end));
    SkipHereRead(l.w1, end);
  }

  /** What one lead does to the scan. */
  function Noted(m: Machine, l: Lead): Machine {
    m.(pending := if l.Rename? then Some(l.tag) else m.pending, skip := m.skip || l.Skip?)
  }

  lemma StartsWith(lit: string, rest: string)
    ensures MatchesAt(lit + rest, 0, lit)
  {
    assert (lit + rest)[0..|lit|] == lit;
  }

  lemma NotComment(line: string)
    requires line != [] && line[0] != '/'
    ensures !MatchesAt(line, 0, "//")
  {
    if |line| >= 2 {
      assert line[0..2][0] == line[0];
    }
  }

  lemma LeadRead(m: Machine, l: Lead, renameAll: bool)
    requires LeadOk(l)
    ensures Read(m, LeadText(l), renameAll) == Noted(m, l)
  {
    match l
    case Comment(text) =>
      StartsWith("//", text);
    case Rename(w1, w2, w3, tag, more) =>
      RenameRead(l);
      NotComment(LeadText(l));
      StartsWith("#[", "serde(" + RenameRest(w1, w2, w3, tag, more + ")]"));
    case Skip(w1, more) =>
      SkipRead(l);
      NotComment(LeadText(l));
      StartsWith("#[", "serde(" + SkipRest(w1, more + ")]"));
    case Other(text) =>
      NotComment(LeadText(l));
      StartsWith("#[", text);
  }

  lemma {:induction false} LeadsRead(m: Machine, lead: seq<Lead>, renameAll: bool)
    requires forall i | 0 <= i < |lead| :: LeadOk(lead[i])
    ensures ReadAll(m, LeadTexts(lead), renameAll) ==
      m.(pending := LastRename(lead, m.pending), skip := m.skip || Skipped(lead))
    decreases |lead|
  {
    if lead != [] {
      LeadRead(m, lead[0], renameAll);
      LeadsRead(Noted(m, lead[0]), lead[1..], renameAll);
      assert LeadTexts(lead)[0] == LeadText(lead[0]) && LeadTexts(lead)[1..] == LeadTexts(lead[1..]);
    }
  }

  lemma {:induction false} NameRunStops(name: string, head: string, i: nat)
    requires i <= |name| && (forall k | 0 <= k < |name| :: IsAlnum(name[k]))
    requires head == [] || !IsAlnum(head[0])
    ensures NameRun(name + head, i) == |name|
    decreases |name| - i
  {
    if i < |name| {
      assert (name + head)[i] == name[i];
      NameRunStops(name, head, i + 1);
    } else if head != [] {
      assert (name + head)[i] == head[0];
    }
  }

  lemma NameRead(m: Machine, v: Variant, renameAll: bool)
    requires VariantOk(v)
    ensures Read(m, v.name + v.head, renameAll) ==
      Machine(None, false, if m.skip then m.tags else m.tags + {TagOf(v.name, renameAll, m.pending)})
  {
    var line := v.name + v.head;
    assert line[0] == v.name[0];
    NotComment(line);
    if |line| >= 2 {
      assert line[0..2][0] == line[0];
    }
    NameRunStops(v.name, v.head, 0);
    assert line[..|v.name|] == v.name;
  }

  lemma VariantRead(tags: set<string>, v: Variant, renameAll: bool)
    requires VariantOk(v)
    ensures ReadAll(Machine(None, false, tags), LeadTexts(v.lead) + [v.name + v.head], renameAll) ==
      Machine(None, false, tags + SerdeTag(v, renameAll))
  {
    var m := Machine(None, false, tags);
    var texts, line := LeadTexts(v.lead), v.name + v.head;
    ReadConcat(m, texts, [line], renameAll);
    LeadsRead(m, v.lead, renameAll);
    var led := ReadAll(m, texts, renameAll);
    assert led == Machine(LastRename(v.lead, None), Skipped(v.lead), tags);
    NameRead(led, v, renameAll);
    assert ReadAll(led, [line], renameAll) == ReadAll(Read(led, line, renameAll), [], renameAll);
  }

  /** The whole scan of a list of lines that starts at depth 0. */
  function Scan(m: Machine, lines: seq<string>, renameAll: bool): Machine {
    ReadAll(m, TopLevel(lines, 0), renameAll)
  }

  lemma ScanVariant(pad: string, tags: set<string>, v: Variant, rest: seq<string>, renameAll: bool)
    requires AllSpace(pad) && VariantOk(v)
    ensures Scan(Machine(None, false, tags), VariantLines(pad, v) + rest, renameAll) ==
      Scan(Machine(None, false, tags + SerdeTag(v, renameAll)), rest, renameAll)
  {
    VariantKept(pad, v);
    AfterClosed(VariantLines(pad, v), rest);
    KeptRead(tags, v, TopLevel(rest, 0), renameAll);
  }

  lemma KeptRead(tags: set<string>, v: Variant, later: seq<string>, renameAll: bool)
    requires VariantOk(v)
    ensures ReadAll(Machine(None, false, tags), (LeadTexts(v.lead) + [v.name + v.head]) + later, renameAll)
         == ReadAll(Machine(None, false, tags + SerdeTag(v, renameAll)), later, renameAll)
  {
    ReadConcat(Machine(None, false, tags), LeadTexts(v.lead) + [v.name + v.head], later, renameAll);
    VariantRead(tags, v, renameAll);
  }

  lemma {:induction false} VariantsRead(pad: string, variants: seq<Variant>, renameAll: bool, tags: set<string>)
    requires AllSpace(pad) && forall i | 0 <= i < |variants| :: VariantOk(variants[i])
    ensures Scan(Machine(None, false, tags), EnumLines(pad, variants), renameAll) ==
      Machine(None, false, tags + SerdeTags(variants, renameAll))
    decreases |variants|
  {
    if variants == [] {
      assert tags + {} == tags;
    } else {
      var v, now := variants[0], tags + SerdeTag(variants[0], renameAll);
      ScanVariant(pad, tags, v, EnumLines(pad, variants[1..]), renameAll);
      VariantsRead(pad, variants[1..], renameAll, now);
      assert now + SerdeTags(variants[1..], renameAll) == tags + SerdeTags(variants, renameAll);
    }
  }

  // --- The inverse -----------------------------------------------------------------

  lemma NoBreakConcat(a: string, b: string)
    requires NoBreak(a) && NoBreak(b)
    ensures NoBreak(a + b)
  {
  }

  lemma RenameRestNoBreak(w1: string, w2: string, w3: string, tag: string, end: string)
    requires NoBreak(w1) && NoBreak(w2) && NoBreak(w3) && NoBreak(tag) && NoBreak(end)
    ensures NoBreak(RenameRest(w1, w2, w3, tag, end))
  {
    assert NoBreak("\"") && NoBreak("=") && NoBreak("rename");
    NoBreakConcat("\"", end);
    var r6 := tag + ("\"" + end);
    NoBreakConcat(tag, "\"" + end);
    NoBreakConcat("\"", r6);
    NoBreakConcat(w3, "\"" + r6);
    var r3 := "=" + (w3 + ("\"" + r6));
    NoBreakConcat("=", w3 + ("\"" + r6));
    NoBreakConcat(w2, r3);
    NoBreakConcat("rename", w2 + r3);
    NoBreakConcat(w1, "rename" + (w2 + r3));
  }

  lemma LeadNoBreak(l: Lead)
    requires LeadOk(l)
    ensures NoBreak(LeadText(l))
  {
    assert NoBreak("#[") && NoBreak("serde(") && NoBreak("skip") && NoBreak(")]") && NoBreak("//");
    match l
    case Comment(text) => NoBreakConcat("//", text);
    case Rename(w1, w2, w3, tag, more) =>
      var end := more + ")]";
      NoBreakConcat(more, ")]");
      RenameRestNoBreak(w1, w2, w3, tag, end);
      NoBreakConcat("serde(", RenameRest(w1, w2, w3, tag, end));
      NoBreakConcat("#[", "serde(" + RenameRest(w1, w2, w3, tag, end));
    case Skip(w1, more) =>
      var end := more + ")]";
      NoBreakConcat(more, ")]");
      NoBreakConcat("skip", end);
      NoBreakConcat(w1, "skip" + end);
      NoBreakConcat("serde(", SkipRest(w1, end));
      NoBreakConcat("#[", "serde(" + SkipRest(w1, end));
    case Other(text) => NoBreakConcat("#[", text);
  }

  lemma {:induction false} LeadLinesNoBreak(pad: string, lead: seq<Lead>)
    requires NoBreak(pad) && forall i | 0 <= i < |lead| :: LeadOk(lead[i])
    ensures forall i | 0 <= i < |LeadLines(pad, lead)| :: NoBreak(LeadLines(pad, lead)[i])
  {
    if lead != [] {
      LeadNoBreak(lead[0]);
      NoBreakConcat(pad, LeadText(lead[0]));
      LeadLinesNoBreak(pad, lead[1..]);
    }
  }

  lemma {:induction false} EnumLinesNoBreak(pad: string, variants: seq<Variant>)
    requires NoBreak(pad) && forall i | 0 <= i < |variants| :: VariantOk(variants[i])
    ensures forall i | 0 <= i < |EnumLines(pad, variants)| :: NoBreak(EnumLines(pad, variants)[i])
  {
    if variants != [] {
      var v := variants[0];
      LeadLinesNoBreak(pad, v.lead);
      NoBreakConcat(pad, v.name + v.head);
      EnumLinesNoBreak(pad, variants[1..]);
    }
  }

  /** The body of the printed enum: the rest of the opening line, then every variant. */
  function EnumBodyText(pad: string, variants: seq<Variant>): string {
    JoinLines([""] + EnumLines(pad, variants))
  }

  lemma BlankFirstLine(lines: seq<string>)
    ensures TopLevel([""] + lines, 0) == TopLevel(lines, 0)
  {
    assert ([""] + lines)[1..] == lines;
    assert Strip("") == "";
    assert Delta("") == 0;
  }

  lemma BodyRead(pad: string, variants: seq<Variant>, renameAll: bool)
    requires Blank(pad) && forall i | 0 <= i < |variants| :: VariantOk(variants[i])
    ensures Scan(START, SplitLines(EnumBodyText(pad, variants)), renameAll).tags == SerdeTags(variants, renameAll)
  {
    var lines := [""] + EnumLines(pad, variants);
    EnumLinesNoBreak(pad, variants);
    SplitJoinLines(lines);
    BlankFirstLine(EnumLines(pad, variants));
    VariantsRead(pad, variants, renameAll, {});
    assert {} + SerdeTags(variants, renameAll) == SerdeTags(variants, renameAll);
  }

  // --- The body nests when its variants do -----------------------------------------

  predicate BraceFree(s: string) {
    forall i | 0 <= i < |s| :: s[i] != '{' && s[i] != '}'
  }

  /** The braces of a lead balance. A rename or a skip has none. */
  predicate LeadNests(l: Lead) {
    match l
    case Comment(text) => Nests(text, 0)
    case Other(text) => Nests(text, 0)
    case Rename(_, _, _, _, _) => true
    case Skip(_, _) => true
  }

  /** The braces of each lead balance, and so do those of the variant with its payload. */
  predicate VariantNests(v: Variant) {
    && (forall i | 0 <= i < |v.lead| :: LeadNests(v.lead[i]))
    && Nests(JoinLines([v.name + v.head] + v.more), 0)
  }

  lemma {:induction false} NestsAppend(a: string, b: string, d: nat)
    requires Nests(a, d) && Nests(b, 0)
    ensures Nests(a + b, d)
  {
    if a == [] {
      assert a + b == b;
    } else {
      assert (a + b)[0] == a[0] && (a + b)[1..] == a[1..] + b;
      NestsAppend(a[1..], b, if a[0] == '{' then d + 1 else if a[0] == '}' then d - 1 else d);
    }
  }

  lemma {:induction false} FreeNests(s: string)
    requires BraceFree(s)
    ensures Nests(s, 0)
  {
    if s != [] {
      FreeNests(s[1..]);
    }
  }

  /** Text in front that has no braces does not matter. */
  lemma FreeInFront(a: string, b: string)
    requires BraceFree(a) && Nests(b, 0)
    ensures Nests(a + b, 0)
  {
    FreeNests(a);
    NestsAppend(a, b, 0);
  }

  lemma LeadTextNests(l: Lead)
    requires LeadOk(l) && LeadNests(l)
    ensures Nests(LeadText(l), 0)
  {
    match l
    case Comment(text) => FreeInFront("//", text);
    case Other(text) => FreeInFront("#[", text);
    case Skip(w1, more) =>
      FreeInFrontOfEnd(more);
      SkipRestFree(w1, more + ")]");
      FreeInFront("serde(", SkipRest(w1, more + ")]"));
      FreeInFront("#[", "serde(" + SkipRest(w1, more + ")]"));
    case Rename(w1, w2, w3, tag, more) =>
      FreeInFrontOfEnd(more);
      RenameRestFree(w1, w2, w3, tag, more + ")]");
      FreeInFront("serde(", RenameRest(w1, w2, w3, tag, more + ")]"));
      FreeInFront("#[", "serde(" + RenameRest(w1, w2, w3, tag, more + ")]"));
  }

  lemma FreeInFrontOfEnd(more: string)
    requires Flat(more)
    ensures Nests(more + ")]", 0)
  {
    FreeNests(")]");
    FreeInFront(more, ")]");
  }

  lemma SkipRestFree(w1: string, last: string)
    requires Blank(w1) && Nests(last, 0)
    ensures Nests(SkipRest(w1, last), 0)
  {
    FreeInFront("skip", last);
    FreeInFront(w1, "skip" + last);
  }

  lemma RenameRestFree(w1: string, w2: string, w3: string, tag: string, last: string)
    requires Blank(w1) && Blank(w2) && Blank(w3) && Flat(tag) && Nests(last, 0)
    ensures Nests(RenameRest(w1, w2, w3, tag, last), 0)
  {
    var end := "\"" + last;
    FreeInFront("\"", last);
    FreeInFront(tag, end);
    FreeInFront("\"", tag + end);
    FreeInFront(w3, "\"" + (tag + end));
    FreeInFront("=", w3 + ("\"" + (tag + end)));
    FreeInFront(w2, "=" + (w3 + ("\"" + (tag + end))));
    FreeInFront("rename", w2 + ("=" + (w3 + ("\"" + (tag + end)))));
    FreeInFront(w1, "rename" + (w2 + ("=" + (w3 + ("\"" + (tag + end))))));
  }

  lemma {:induction false} JoinLinesConcat(a: seq<string>, b: seq<string>)
    ensures JoinLines(a + b) == JoinLines(a) + JoinLines(b)
  {
    if a == [] {
      assert a + b == b;
    } else {
      assert (a + b)[0] == a[0] && (a + b)[1..] == a[1..] + b;
      JoinLinesConcat(a[1..], b);
      assert a[0] + "\n" + (JoinLines(a[1..]) + JoinLines(b)) == (a[0] + "\n" + JoinLines(a[1..])) + JoinLines(b);
    }
  }

  lemma LineNests(pad: string, text: string, rest: string)
    requires Blank(pad) && Nests(text, 0) && Nests(rest, 0)
    ensures Nests(pad + text + "\n" + rest, 0)
  {
    FreeInFront(pad, text);
    FreeNests("\n");
    NestsAppend(pad + text, "\n", 0);
    NestsAppend(pad + text + "\n", rest, 0);
  }

  lemma {:induction false} LeadLinesNest(pad: string, lead: seq<Lead>)
    requires Blank(pad) && forall i | 0 <= i < |lead| :: LeadOk(lead[i]) && LeadNests(lead[i])
    ensures Nests(JoinLines(LeadLines(pad, lead)), 0)
  {
    if lead != [] {
      LeadLinesNest(pad, lead[1..]);
      LeadTextNests(lead[0]);
      LineNests(pad, LeadText(lead[0]), JoinLines(LeadLines(pad, lead[1..])));
      var lines := LeadLines(pad, lead);
      assert lines[0] == pad + LeadText(lead[0]) && lines[1..] == LeadLines(pad, lead[1..]);
    }
  }

  lemma VariantLinesNest(pad: string, v: Variant)
    requires Blank(pad) && VariantOk(v) && VariantNests(v)
    ensures Nests(JoinLines(VariantLines(pad, v)), 0)
  {
    var line, tail := v.name + v.head, [pad + (v.name + v.head)] + v.more;
    LeadLinesNest(pad, v.lead);
    JoinLinesConcat(LeadLines(pad, v.lead), tail);
    PaddedFirst(pad, line, v.more);
    FreeInFront(pad, JoinLines([line] + v.more));
    NestsAppend(JoinLines(LeadLines(pad, v.lead)), JoinLines(tail), 0);
  }

  lemma PaddedFirst(pad: string, line: string, more: seq<string>)
    ensures JoinLines([pad + line] + more) == pad + JoinLines([line] + more)
  {
    assert ([pad + line] + more)[1..] == more && ([line] + more)[1..] == more;
    assert pad + line + "\n" + JoinLines(more) == pad + (line + "\n" + JoinLines(more));
  }

  /** A printed enum nests when each of its variants does. */
  lemma {:induction false} BodyNests(pad: string, variants: seq<Variant>)
    requires Blank(pad) && forall i | 0 <= i < |variants| :: VariantOk(variants[i]) && VariantNests(variants[i])
    ensures Nests(JoinLines(EnumLines(pad, variants)), 0)
  {
    if variants != [] {
      BodyNests(pad, variants[1..]);
      VariantLinesNest(pad, variants[0]);
      JoinLinesConcat(VariantLines(pad, variants[0]), EnumLines(pad, variants[1..]));
      NestsAppend(JoinLines(VariantLines(pad, variants[0])), JoinLines(EnumLines(pad, variants[1..])), 0);
    }
  }

  /** `rust_tags` inverts printing. For every enum written from a list of variants, with
      any comments, renames, skips and one-line attributes above them and any payloads
      that close, each balanced in itself, wherever the enum sits in the file, the reader
      returns exactly the tags serde accepts. */
  lemma TagsRecovered(
    prefix: string, name: string, gap: string, pad: string, variants: seq<Variant>, suffix: string, src: string)
    requires src == prefix + ("pub enum " + name + " ") + gap + "{" + (EnumBodyText(pad, variants) + "}" + suffix)
    requires Find(src, "pub enum " + name + " ", 0) == Some(|prefix|) && '{' !in name && '{' !in gap
    requires Blank(pad) && (forall i | 0 <= i < |variants| :: VariantOk(variants[i]) && VariantNests(variants[i]))
    ensures TagsOf(src, name).Ok?
    ensures forall tag ::
      tag in TagsOf(src, name).value <==>
      exists i | 0 <= i < |variants| :: SerdeGives(variants[i], RenamesAll(src, name), tag)
  {
    ReaderCollects(prefix, name, gap, pad, variants, suffix, src);
    forall tag {
      SerdeTagsMean(variants, RenamesAll(src, name), tag);
    }
  }

  lemma ReaderCollects(
    prefix: string, name: string, gap: string, pad: string, variants: seq<Variant>, suffix: string, src: string)
    requires src == prefix + Marker(name) + gap + "{" + (EnumBodyText(pad, variants) + "}" + suffix)
    requires Find(src, Marker(name), 0) == Some(|prefix|) && '{' !in name && '{' !in gap
    requires Blank(pad) && (forall i | 0 <= i < |variants| :: VariantOk(variants[i]) && VariantNests(variants[i]))
    ensures TagsOf(src, name) == Ok(SerdeTags(variants, RenamesAll(src, name)))
  {
    BodyNests(pad, variants);
    var lines := [""] + EnumLines(pad, variants);
    assert lines[0] == "" && lines[1..] == EnumLines(pad, variants);
    LineNests("", "", JoinLines(EnumLines(pad, variants)));
    assert "" + "" + "\n" + JoinLines(lines[1..]) == "" + "\n" + JoinLines(lines[1..]);
    BodyRecovered(prefix, name, gap, EnumBodyText(pad, variants), suffix, src);
    BodyRead(pad, variants, RenamesAll(src, name));
  }

  function StripAll(lines: seq<string>): seq<string> {
    if lines == [] then [] else [Strip(lines[0])] + StripAll(lines[1..])
  }

  lemma {:induction false} FlatLines(lines: seq<string>, depth: int)
    requires forall i | 0 <= i < |lines| :: Delta(lines[i]) == 0 && Strip(lines[i]) != []
    ensures TopLevel(lines, depth) == if depth == 0 then StripAll(lines) else []
  {
    if lines != [] {
      FlatLines(lines[1..], depth);
      assert TopLevel(lines, depth) == KeptLine(lines[0], depth) + TopLevel(lines[1..], depth);
      if depth != 0 {
        assert KeptLine(lines[0], depth) == [];
      }
    }
  }

  /** The bracket-balance asked of comments is exactly what the scan needs: above lines
      that are balanced themselves, a comment is harmless if and only if its brackets
      balance, and otherwise every line after it is lost. */
  lemma CommentMustBalance(text: string, lines: seq<string>)
    requires Trimmed("//" + text) && lines != []
    requires forall i | 0 <= i < |lines| :: Delta(lines[i]) == 0 && Strip(lines[i]) != []
    ensures Delta(text) == 0 ==> TopLevel(["//" + text] + lines, 0) == ["//" + text] + StripAll(lines)
    ensures Delta(text) != 0 ==> TopLevel(["//" + text] + lines, 0) == ["//" + text]
  {
    var line := "//" + text;
    FlatPlus("//", text);
    PaddedLine("", line);
    assert "" + line == line;
    assert ([line] + lines)[0] == line && ([line] + lines)[1..] == lines;
    FlatLines(lines, Delta(text));
    assert TopLevel([line] + lines, 0) == KeptLine(line, 0) + TopLevel(lines, Delta(text));
  }

  /** An enum with a container attribute on the line above it. */
  ghost predicate Attributed(before: string, options: string, name: string, rest: string, src: string) {
    src == before + "#[serde(" + options + ")]" + "\n" + ("pub enum " + name) + (" " + rest)
  }

  lemma AttributeOpens(before: string, options: string, name: string, rest: string, src: string)
    requires Attributed(before, options, name, rest, src)
    ensures MatchesAt(src, |before|, "#[serde(")
  {
    var decl := "pub enum " + name;
    AttributeShape(before, "#[serde(", options, ")]", "\n", decl, " " + rest, src);
    MatchesMiddle(before, "#[serde(", options + (")]" + ("\n" + decl + (" " + rest))));
  }

  lemma AttributeCloses(before: string, options: string, name: string, rest: string, src: string)
    requires Attributed(before, options, name, rest, src) && ')' !in options
    ensures
      var k := |before| + 8 + |options|;
      k <= |src| && Seek(src, ')', |before| + 8) == k && MatchesAt(src, k, ")]") && src[|before| + 8..k] == options
  {
    var decl := "pub enum " + name;
    AttributeShape(before, "#[serde(", options, ")]", "\n", decl, " " + rest, src);
    OptionsEnd(before + "#[serde(", options, ")]" + ("\n" + decl + (" " + rest)), src);
  }

  lemma DeclarationFollows(before: string, options: string, name: string, rest: string, src: string)
    requires Attributed(before, options, name, rest, src)
    ensures
      var k, n := |before| + 8 + |options| + 2, 9 + |name|;
      && k + 1 + n < |src| && src[k] == '\n' && SkipSpaces(src, k) == k + 1
      && MatchesAt(src, k + 1, "pub enum " + name) && src[k + 1 + n] == ' '
  {
    DeclarationFound(before + "#[serde(" + options + ")]", "pub enum " + name, " " + rest, src);
  }

  /** And it derives names in snake case exactly when the attribute on the line above the
      enum says so. */
  lemma ContainerRead(before: string, options: string, name: string, rest: string, src: string)
    requires Attributed(before, options, name, rest, src) && ')' !in options
    requires forall i | 0 <= i < |before| :: ContainerAt(src, i, name).None?
    ensures RenamesAll(src, name) <==> Find(options, "snake_case", 0).Some?
  {
    AttributeOpens(before, options, name, rest, src);
    AttributeCloses(before, options, name, rest, src);
    DeclarationFollows(before, options, name, rest, src);
    ContainerFound(src, |before|, |options|, name, options);
    ContainerSkips(src, 0, |before|, name);
  }

  lemma AttributeShape(
    a: string, lit: string, options: string, close: string, nl: string, decl: string, rest: string, src: string)
    requires src == a + lit + options + close + nl + decl + rest
    ensures src == (a + lit) + options + (close + (nl + decl + rest))
    ensures src == a + lit + (options + (close + (nl + decl + rest)))
  {
    var x, tail := a + lit + options, nl + decl + rest;
    assert (x + close) + nl + decl + rest == (x + close) + tail;
    assert (x + close) + tail == x + (close + tail);
  }

  lemma ContainerFound(src: string, i: nat, n: nat, name: string, options: string)
    requires MatchesAt(src, i, "#[serde(") && i + 8 + n <= |src|
    requires Seek(src, ')', i + 8) == i + 8 + n && MatchesAt(src, i + 8 + n, ")]")
    requires src[i + 8..i + 8 + n] == options
    requires i + 8 + n + 2 < |src| && src[i + 8 + n + 2] == '\n'
    requires SkipSpaces(src, i + 8 + n + 2) == i + 8 + n + 3 && MatchesAt(src, i + 8 + n + 3, "pub enum " + name)
    requires i + 8 + n + 3 + |"pub enum " + name| < |src| && !IsWord(src[i + 8 + n + 3 + |"pub enum " + name|])
    ensures ContainerAt(src, i, name) == Some(options)
  {
  }

  lemma OptionsEnd(open: string, options: string, tail: string, src: string)
    requires src == open + options + tail && ')' !in options && |tail| >= 2 && tail[..2] == ")]"
    ensures Seek(src, ')', |open|) == |open| + |options| && MatchesAt(src, |open| + |options|, ")]")
    ensures src[|open|..|open| + |options|] == options
  {
    var k := |open| + |options|;
    assert forall j | |open| <= j < k :: src[j] == options[j - |open|];
    assert src[k] == tail[0] && src[k..k + 2] == tail[..2];
    SeekIs(src, ')', |open|, k);
  }

  lemma DeclarationFound(front: string, decl: string, tail: string, src: string)
    requires src == front + "\n" + decl + tail && decl != [] && !IsSpace(decl[0]) && tail != []
    ensures SkipSpaces(src, |front|) == |front| + 1 && src[|front|] == '\n'
    ensures MatchesAt(src, |front| + 1, decl) && src[|front| + 1 + |decl|] == tail[0]
  {
    assert src[|front|] == '\n' && src[|front| + 1] == decl[0];
    SkipSpacesAll(src, |front|, |front| + 1);
    assert src[|front| + 1..|front| + 1 + |decl|] == decl;
  }

  lemma {:induction false} ContainerSkips(src: string, i: nat, k: nat, name: string)
    requires i <= k < |src| && (forall j | i <= j < k :: ContainerAt(src, j, name).None?)
    requires ContainerAt(src, k, name).Some?
    ensures Container(src, i, name) == ContainerAt(src, k, name)
    decreases k - i
  {
    if i < k {
      ContainerSkips(src, i + 1, k, name);
    }
  }
}
