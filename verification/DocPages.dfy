/** The linker on tokenised pages: prose, fences, roles, links and code spans, where the
    rewrite acts on the code spans alone and a second pass has nothing left to do.
 */
module DocPages {
  import opened Common
  import opened Text
  import opened DocNames
  import opened Splicing
  import opened DocLinks

  /** What a page holds between stretches of prose. */
  datatype Item =
    | FenceItem(body: string)
    | RoleItem(name: string, body: string)
    | LinkItem(shown: string, url: string)
    | CodeItem(spelling: string)

  datatype Page = Last(text: string) | More(text: string, item: Item, rest: Page)

  function RenderItem(item: Item): string {
    match item
    case FenceItem(body) => "```" + (body + "```")
    case RoleItem(name, body) => "{" + (name + ("}`" + (body + "`")))
    case LinkItem(shown, url) => "[" + (shown + ("](" + (url + ")")))
    case CodeItem(spelling) => "`" + (spelling + "`")
  }

  function Render(page: Page): string {
    match page
    case Last(text) => text
    case More(text, item, rest) => text + (RenderItem(item) + Render(rest))
  }

  // --- What makes a page tokenised -------------------------------------------------

  /** No three backticks in a row. */
  predicate NoTriple(s: string) {
    forall i | 0 <= i < |s| - 2 :: s[i] != '`' || s[i + 1] != '`' || s[i + 2] != '`'
  }

  /** A role name in braces. */
  predicate RoleTag(s: string) {
    && |s| >= 3 && s[0] == '{' && s[|s| - 1] == '}'
    && forall i | 1 <= i < |s| - 1 :: IsRoleChar(s[i])
  }

  /** Does not end in a role name, which a following backtick would turn into a role. */
  predicate NoTagAtEnd(s: string) {
    forall i | 0 <= i < |s| :: !RoleTag(s[i..])
  }

  /** The bracket at the front closes and does not start a link. */
  predicate Stuck(s: string)
    requires s != []
  {
    var k := Seek(s, ']', 1);
    k < |s| && (k + 1 < |s| ==> s[k + 1] != '(')
  }

  /** No bracket starts a link or is left open. */
  predicate LinkFree(s: string) {
    forall i | 0 <= i < |s| && s[i] == '[' :: Stuck(s[i..])
  }

  /** Links may occur, and none is left open. */
  predicate LinkClosed(s: string)
    decreases |s|
  {
    if s == [] then true
    else if Hit(Finder(Link), s) then LinkClosed(s[Stride(Finder(Link), s)..])
    else (s[0] == '[' ==> Stuck(s)) && LinkClosed(s[1..])
  }

  predicate ValidText(s: string) {
    Without(s, '`') && NoTagAtEnd(s) && LinkFree(s)
  }

  predicate ValidItem(item: Item) {
    match item
    case FenceItem(body) =>
      NoTriple(body) && LinkClosed(body) && (body != [] ==> body[|body| - 1] != '`')
    case RoleItem(name, body) =>
      && name != [] && (forall i | 0 <= i < |name| :: IsRoleChar(name[i]))
      && Without(body, '`') && LinkClosed(body)
    case LinkItem(shown, url) =>
      && Without(shown, ']') && Without(shown, '{') && NoTriple(shown)
      && Without(url, ')') && Without(url, '{') && Without(url, '`')
    case CodeItem(spelling) =>
      spelling != [] && Without(spelling, '\n') && ValidText(spelling)
  }

  /** Prose separates the items. */
  predicate ValidPage(page: Page) {
    match page
    case Last(text) => ValidText(text)
    case More(text, item, rest) =>
      ValidText(text) && ValidItem(item) && ValidPage(rest) && (rest.More? ==> rest.text != [])
  }

  // --- The rewrite on tokens -------------------------------------------------------

  /** Nothing the site links to can break the markup around it. */
  ghost predicate ValidSite(site: Site) {
    && (forall k | k in site.index :: Without(site.index[k], '`') && Without(site.index[k], '['))
    && ValidUrl(site.blob) && ValidUrl(site.tree)
  }

  predicate ValidUrl(url: string) {
    Without(url, ')') && Without(url, '{') && Without(url, '`')
  }

  function FixItem(site: Site, item: Item): Item {
    if item.CodeItem? && Linkable(site, item.spelling) then
      match SourcePath(site, item.spelling)
      case Some(path) =>
        LinkItem("`" + item.spelling + "`", (if path in site.dirs then site.tree else site.blob) + path)
      case None =>
        match Resolve(site, item.spelling)
        case Some(target) => RoleItem("py:obj", item.spelling + " <" + target + ">")
        case None => item
    else item
  }

  function FixPage(site: Site, page: Page): Page {
    match page
    case Last(_) => page
    case More(text, item, rest) => More(text, FixItem(site, item), FixPage(site, rest))
  }

  /** The code spans that become links. */
  function LinkableCount(site: Site, page: Page): nat {
    match page
    case Last(_) => 0
    case More(_, item, rest) =>
      (if item.CodeItem? && Linkable(site, item.spelling) then 1 else 0) + LinkableCount(site, rest)
  }

  // --- Where the patterns stay quiet -----------------------------------------------

  function Starter(p: Pattern): char {
    match p
    case Fence => '`'
    case Role => '{'
    case Link => '['
    case Span => '`'
  }

  lemma NoStart(p: Pattern, s: string)
    requires s != [] && s[0] != Starter(p)
    ensures !Hit(Finder(p), s)
  {
  }

  lemma QuietWithout(p: Pattern, a: string, rest: string)
    requires Without(a, Starter(p))
    ensures Quiet(Finder(p), a, rest)
  {
    forall i | 0 <= i < |a| ensures !Hit(Finder(p), a[i..] + rest) {
      NoStart(p, a[i..] + rest);
    }
  }

  predicate NoTick(rest: string) { rest == [] || rest[0] != '`' }

  lemma QuietFence(a: string, rest: string)
    requires NoTriple(a) && NoTick(rest)
    ensures Quiet(Finder(Fence), a, rest)
  {
    forall i | 0 <= i < |a| ensures !Hit(Finder(Fence), a[i..] + rest) {
      NotThree(a, rest, i);
    }
  }

  lemma NotThree(a: string, rest: string, i: nat)
    requires NoTriple(a) && NoTick(rest) && i < |a|
    ensures !ThreeTicks(a[i..] + rest)
  {
    var s := a[i..] + rest;
    if i + 2 < |a| {
      assert s[0] == a[i] && s[1] == a[i + 1] && s[2] == a[i + 2];
    } else if |s| >= 3 {
      assert s[|a| - i] == rest[0];
    }
  }

  /** What can follow prose or a spelling. */
  predicate Follows(rest: string) { rest == [] || rest[0] in ['`', '{', '['] }

  lemma QuietRole(a: string, rest: string)
    requires Without(a, '`') && NoTagAtEnd(a) && Follows(rest)
    ensures Quiet(Finder(Role), a, rest)
  {
    forall i | 0 <= i < |a| ensures !Hit(Finder(Role), a[i..] + rest) {
      NoRole(a, rest, i);
    }
  }

  lemma NoRole(a: string, rest: string, i: nat)
    requires Without(a, '`') && NoTagAtEnd(a) && Follows(rest) && i < |a|
    ensures RoleLen(a[i..] + rest).None?
  {
    var t := a[i..];
    var s := t + rest;
    var k := if s[0] == '{' then RoleNameEnd(s, 1) else 0;
    assert |t| < |s| ==> s[|t|] == rest[0];
    assert forall j | 0 <= j < |t| :: s[j] == t[j] && t[j] != '`';
    assert !RoleTag(t);
  }

  lemma SeekInFront(a: string, rest: string, c: char, from: nat)
    requires from <= |a| && Seek(a, c, from) < |a|
    ensures Seek(a + rest, c, from) == Seek(a, c, from)
  {
    SeekIs(a + rest, c, from, Seek(a, c, from));
  }

  lemma NoLink(s: string, rest: string)
    requires s != [] && (s[0] == '[' ==> Stuck(s)) && (rest == [] || rest[0] != '(')
    ensures LinkLen(s + rest).None?
  {
    if s[0] == '[' {
      SeekInFront(s, rest, ']', 1);
    }
  }

  lemma QuietLink(a: string, rest: string)
    requires LinkFree(a) && (rest == [] || rest[0] != '(')
    ensures Quiet(Finder(Link), a, rest)
  {
    forall i | 0 <= i < |a| ensures !Hit(Finder(Link), a[i..] + rest) {
      NoLink(a[i..], rest);
    }
  }

  // --- One piece at a time ---------------------------------------------------------

  /** The scan for `m` ends a piece where the piece ends, and leaves `x` of it. */
  ghost predicate Passes(m: Matcher, a: string, rest: string, x: string) {
    |x| == |a| && Blank(m, a + rest) == x + Blank(m, rest)
  }

  lemma PassesConcat(m: Matcher, a: string, b: string, rest: string, x: string, y: string)
    requires Passes(m, a, b + rest, x) && Passes(m, b, rest, y)
    ensures Passes(m, a + b, rest, x + y)
  {
    assert (a + b) + rest == a + (b + rest);
    assert (x + y) + Blank(m, rest) == x + (y + Blank(m, rest));
  }

  lemma PassesQuiet(m: Matcher, a: string, rest: string)
    requires Quiet(m, a, rest)
    ensures Passes(m, a, rest, a)
  {
    BlankQuiet(m, a, rest);
  }

  lemma PassesHit(m: Matcher, a: string, rest: string)
    requires m(a + rest) == |a| && a != []
    ensures Passes(m, a, rest, Spaces(|a|))
  {
    BlankHit(m, a, rest);
  }

  lemma {:induction false} LinkPasses(a: string, rest: string) returns (x: string)
    requires LinkClosed(a) && (rest == [] || rest[0] != '(')
    ensures Passes(Finder(Link), a, rest, x)
    decreases |a|
  {
    var m := Finder(Link);
    if a == [] {
      assert a + rest == rest && "" + Blank(m, rest) == Blank(m, rest);
      return "";
    }
    var n := Stride(m, a);
    var y := LinkPasses(a[n..], rest);
    if Hit(m, a) {
      LinkStays(a, rest);
      PassesMatch(m, a, n, rest, y);
      x := Spaces(n) + y;
    } else {
      NoLink(a, rest);
      PassesStep(m, a, rest, y);
      x := a[..1] + y;
    }
  }

  lemma PassesMatch(m: Matcher, a: string, n: nat, rest: string, y: string)
    requires 1 <= n <= |a| && m(a + rest) == n && Passes(m, a[n..], rest, y)
    ensures Passes(m, a, rest, Spaces(n) + y)
  {
    assert a[..n] + a[n..] == a && a[..n] + (a[n..] + rest) == a + rest;
    PassesHit(m, a[..n], a[n..] + rest);
    PassesConcat(m, a[..n], a[n..], rest, Spaces(n), y);
  }

  lemma PassesStep(m: Matcher, a: string, rest: string, y: string)
    requires a != [] && !Hit(m, a + rest) && Passes(m, a[1..], rest, y)
    ensures Passes(m, a, rest, a[..1] + y)
  {
    assert a[..1] + a[1..] == a && a[..1][0..] + (a[1..] + rest) == a + rest;
    PassesQuiet(m, a[..1], a[1..] + rest);
    PassesConcat(m, a[..1], a[1..], rest, a[..1], y);
  }

  /** A link that fits is the same link when more text follows. */
  lemma LinkStays(a: string, rest: string)
    requires LinkLen(a).Some?
    ensures LinkLen(a + rest) == LinkLen(a)
  {
    SeekInFront(a, rest, ']', 1);
    var k := Seek(a, ']', 1);
    SeekInFront(a, rest, ')', k + 2);
  }

  /** A link scan through `pre body post`. */
  lemma LinkThrough(pre: string, body: string, post: string, rest: string) returns (x: string)
    requires Without(pre, '[') && Without(post, '[') && LinkClosed(body) && post != [] && post[0] != '('
    ensures Passes(Finder(Link), pre + (body + post), rest, x)
  {
    var m := Finder(Link);
    QuietWithout(Link, post, rest);
    PassesQuiet(m, post, rest);
    var y := LinkPasses(body, post + rest);
    PassesConcat(m, body, post, rest, y, post);
    QuietWithout(Link, pre, (body + post) + rest);
    PassesQuiet(m, pre, (body + post) + rest);
    x := pre + (y + post);
    PassesConcat(m, pre, body + post, rest, pre, y + post);
  }

  predicate TicksAtEnd(a: string) {
    if |a| >= 2 then a[|a| - 1] == '`' && a[|a| - 2] == '`' else Without(a, '{')
  }

  /** A role that opens inside a fence closes inside it. */
  lemma RoleEndsInside(a: string, rest: string)
    requires |a| >= 2 && TicksAtEnd(a) && RoleLen(a + rest).Some?
    ensures RoleLen(a + rest).value <= |a|
  {
    var s := a + rest;
    var k := RoleNameEnd(s, 1);
    assert s[|a| - 1] == '`' && s[|a| - 2] == '`';
    assert k + 1 <= |a| - 2;
    var e := Seek(s, '`', k + 2);
    assert e <= |a| - 1;
  }

  lemma {:induction false} RolePasses(a: string, rest: string) returns (x: string)
    requires TicksAtEnd(a)
    ensures Passes(Finder(Role), a, rest, x)
    decreases |a|
  {
    var m := Finder(Role);
    if |a| < 2 {
      QuietWithout(Role, a, rest);
      PassesQuiet(m, a, rest);
      return a;
    }
    var n := Stride(m, a + rest);
    if Hit(m, a + rest) {
      RoleEndsInside(a, rest);
    }
    TicksAfter(a, n);
    var y := RolePasses(a[n..], rest);
    if Hit(m, a + rest) {
      PassesMatch(m, a, n, rest, y);
      x := Spaces(n) + y;
    } else {
      PassesStep(m, a, rest, y);
      x := a[..1] + y;
    }
  }

  lemma TicksAfter(a: string, n: nat)
    requires |a| >= 2 && TicksAtEnd(a) && n <= |a|
    ensures TicksAtEnd(a[n..])
  {
  }

  // --- The three masks over each kind of item --------------------------------------

  lemma FenceSlices(body: string, rest: string, s: string)
    requires s == RenderItem(FenceItem(body)) + rest
    ensures |s| == |body| + 6 + |rest| && s[|body| + 3..] == "```" + rest && s[3..|body| + 3] == body
  {
    assert s == "```" + (body + ("```" + rest));
  }

  lemma FenceTail(body: string, rest: string, s: string, j: nat)
    requires s == RenderItem(FenceItem(body)) + rest && j <= |body|
    ensures |s| >= j + 3 && s[j + 3..] == body[j..] + ("```" + rest)
  {
    assert s == "```" + (body + ("```" + rest));
    assert body == body[..j] + body[j..];
  }

  lemma FenceMatches(body: string, rest: string)
    requires ValidItem(FenceItem(body))
    ensures FenceLen(RenderItem(FenceItem(body)) + rest) == Some(|body| + 6)
  {
    var s := RenderItem(FenceItem(body)) + rest;
    var k := |body| + 3;
    FenceSlices(body, rest, s);
    forall j | 3 <= j < k ensures !ThreeTicks(s[j..]) {
      FenceTail(body, rest, s, j - 3);
      InsideFence(body, "```" + rest, j - 3);
    }
    TicksAtIs(s, 3, k);
  }

  lemma InsideFence(body: string, rest: string, i: nat)
    requires NoTriple(body) && i < |body| && body[|body| - 1] != '`'
    ensures !ThreeTicks(body[i..] + rest)
  {
    var t := body[i..] + rest;
    if i + 2 < |body| {
      assert t[0] == body[i] && t[1] == body[i + 1] && t[2] == body[i + 2];
    } else {
      assert t[|body| - 1 - i] == body[|body| - 1];
    }
  }

  lemma TicksAtIs(s: string, from: nat, k: nat)
    requires from <= k < |s| && ThreeTicks(s[k..]) && forall j | from <= j < k :: !ThreeTicks(s[j..])
    ensures TicksAt(s, from) == k
  {
  }

  lemma RoleMatches(name: string, body: string, rest: string)
    requires ValidItem(RoleItem(name, body))
    ensures RoleLen(RenderItem(RoleItem(name, body)) + rest) == Some(|RenderItem(RoleItem(name, body))|)
  {
    var s := RenderItem(RoleItem(name, body)) + rest;
    var k := |name| + 1;
    assert s[0] == '{' && s[k] == '}' && s[k + 1] == '`' && s[k + 2 + |body|] == '`';
    assert s[1..k] == name && s[k + 2..k + 2 + |body|] == body;
    assert forall j | 1 <= j < k :: s[j] == name[j - 1];
    assert forall j | k + 2 <= j < k + 2 + |body| :: s[j] == body[j - k - 2];
    RoleNameEndIs(s, 1, k);
    SeekIs(s, '`', k + 2, k + 2 + |body|);
  }

  lemma RoleNameEndIs(s: string, from: nat, k: nat)
    requires from <= k < |s| && !IsRoleChar(s[k]) && forall j | from <= j < k :: IsRoleChar(s[j])
    ensures RoleNameEnd(s, from) == k
  {
  }

  lemma LinkMatches(shown: string, url: string, rest: string)
    requires ValidItem(LinkItem(shown, url))
    ensures LinkLen(RenderItem(LinkItem(shown, url)) + rest) == Some(|RenderItem(LinkItem(shown, url))|)
  {
    var s := RenderItem(LinkItem(shown, url)) + rest;
    var k := |shown| + 1;
    assert s[0] == '[' && s[k] == ']' && s[k + 1] == '(' && s[k + 2 + |url|] == ')';
    assert s[1..k] == shown && s[k + 2..k + 2 + |url|] == url;
    assert forall j | 1 <= j < k :: s[j] == shown[j - 1];
    assert forall j | k + 2 <= j < k + 2 + |url| :: s[j] == url[j - k - 2];
    SeekIs(s, ']', 1, k);
    SeekIs(s, ')', k + 2, k + 2 + |url|);
  }

  lemma CodeMatches(spelling: string, rest: string)
    requires spelling != [] && Without(spelling, '\n') && Without(spelling, '`')
    ensures SpanLen(RenderItem(CodeItem(spelling)) + rest) == Some(|spelling| + 2)
    ensures Inner(RenderItem(CodeItem(spelling)) + rest, |spelling| + 2) == spelling
  {
    var s := RenderItem(CodeItem(spelling)) + rest;
    var k := |spelling| + 1;
    assert s[0] == '`' && s[k] == '`' && s[1..k] == spelling;
    assert forall j | 1 <= j < k :: s[j] == spelling[j - 1];
    SpanEndIs(s, 1, k);
  }

  lemma SpanEndIs(s: string, from: nat, k: nat)
    requires from <= k < |s| && s[k] == '`' && forall j | from <= j < k :: s[j] != '`' && s[j] != '\n'
    ensures SpanEnd(s, from) == k
  {
  }

  lemma ItemNoTriple(item: Item)
    requires ValidItem(item) && !item.FenceItem?
    ensures NoTriple(RenderItem(item))
  {
    var s := RenderItem(item);
    match item
    case RoleItem(name, body) =>
      assert forall i | 1 <= i < |name| + 1 :: s[i] == name[i - 1];
      assert forall i | |name| + 3 <= i < |s| - 1 :: s[i] == body[i - |name| - 3];
    case LinkItem(shown, url) =>
      assert forall i | 1 <= i < |shown| + 1 :: s[i] == shown[i - 1];
      assert s[|shown| + 1] == ']';
      assert forall i | |shown| + 3 <= i < |s| - 1 :: s[i] == url[i - |shown| - 3];
    case CodeItem(spelling) =>
      assert forall i | 1 <= i < |s| - 1 :: s[i] == spelling[i - 1];
  }

  lemma FencePass(item: Item, rest: string) returns (x: string)
    requires ValidItem(item) && NoTick(rest)
    ensures Passes(Finder(Fence), RenderItem(item), rest, x)
    ensures x == if item.FenceItem? then Spaces(|RenderItem(item)|) else RenderItem(item)
  {
    if item.FenceItem? {
      FenceMatches(item.body, rest);
      PassesHit(Finder(Fence), RenderItem(item), rest);
      x := Spaces(|RenderItem(item)|);
    } else {
      ItemNoTriple(item);
      QuietFence(RenderItem(item), rest);
      PassesQuiet(Finder(Fence), RenderItem(item), rest);
      x := RenderItem(item);
    }
  }

  lemma RolePass(item: Item, rest: string) returns (x: string)
    requires ValidItem(item)
    ensures Passes(Finder(Role), RenderItem(item), rest, x)
    ensures item.RoleItem? ==> x == Spaces(|RenderItem(item)|)
    ensures item.CodeItem? ==> x == RenderItem(item)
  {
    var m := Finder(Role);
    match item
    case FenceItem(body) =>
      x := RolePasses(RenderItem(item), rest);
    case RoleItem(name, body) =>
      RoleMatches(name, body, rest);
      PassesHit(m, RenderItem(item), rest);
      x := Spaces(|RenderItem(item)|);
    case LinkItem(shown, url) =>
      QuietWithout(Role, RenderItem(item), rest);
      PassesQuiet(m, RenderItem(item), rest);
      x := RenderItem(item);
    case CodeItem(spelling) =>
      QuietWithout(Role, "`", rest);
      PassesQuiet(m, "`", rest);
      QuietRole(spelling, "`" + rest);
      PassesQuiet(m, spelling, "`" + rest);
      PassesConcat(m, spelling, "`", rest, spelling, "`");
      QuietWithout(Role, "`", (spelling + "`") + rest);
      PassesQuiet(m, "`", (spelling + "`") + rest);
      PassesConcat(m, "`", spelling + "`", rest, "`", spelling + "`");
      x := RenderItem(item);
  }

  lemma {:induction false} LinkPass(item: Item, rest: string) returns (x: string)
    requires ValidItem(item)
    ensures Passes(Finder(Link), RenderItem(item), rest, x)
    ensures item.LinkItem? ==> x == Spaces(|RenderItem(item)|)
    ensures item.CodeItem? ==> x == RenderItem(item)
  {
    match item
    case FenceItem(body) =>
      x := LinkThrough("```", body, "```", rest);
    case RoleItem(name, body) =>
      x := LinkPassRole(name, body, rest);
    case LinkItem(shown, url) =>
      LinkPassLink(shown, url, rest);
      x := Spaces(|RenderItem(item)|);
    case CodeItem(spelling) =>
      LinkPassCode(spelling, rest);
      x := RenderItem(item);
  }

  lemma LinkPassRole(name: string, body: string, rest: string) returns (x: string)
    requires ValidItem(RoleItem(name, body))
    ensures Passes(Finder(Link), RenderItem(RoleItem(name, body)), rest, x)
  {
    var pre := "{" + (name + "}`");
    assert RenderItem(RoleItem(name, body)) == pre + (body + "`");
    x := LinkThrough(pre, body, "`", rest);
  }

  lemma LinkPassLink(shown: string, url: string, rest: string)
    requires ValidItem(LinkItem(shown, url))
    ensures Passes(Finder(Link), RenderItem(LinkItem(shown, url)), rest, Spaces(|RenderItem(LinkItem(shown, url))|))
  {
    LinkMatches(shown, url, rest);
    PassesHit(Finder(Link), RenderItem(LinkItem(shown, url)), rest);
  }

  lemma LinkPassCode(spelling: string, rest: string)
    requires LinkFree(spelling)
    ensures Passes(Finder(Link), "`" + (spelling + "`"), rest, "`" + (spelling + "`"))
  {
    var m, tail := Finder(Link), spelling + "`";
    LinkPassSpelling(spelling, rest);
    QuietWithout(Link, "`", tail + rest);
    PassesQuiet(m, "`", tail + rest);
    PassesConcat(m, "`", tail, rest, "`", tail);
  }

  lemma LinkPassSpelling(spelling: string, rest: string)
    requires LinkFree(spelling)
    ensures Passes(Finder(Link), spelling + "`", rest, spelling + "`")
  {
    var m := Finder(Link);
    QuietWithout(Link, "`", rest);
    PassesQuiet(m, "`", rest);
    QuietLink(spelling, "`" + rest);
    PassesQuiet(m, spelling, "`" + rest);
    PassesConcat(m, spelling, "`", rest, spelling, "`");
  }

  // --- The masked page -------------------------------------------------------------

  function Masked(a: string, f: string, r: string, l: string): (m: string)
    requires |f| == |r| == |l| == |a|
    ensures |m| == |a|
  {
    Overlay(Overlay(Overlay(a, f), r), l)
  }

  lemma BlankedConcat(a: string, rest: string, f: string, r: string, l: string)
    requires Passes(Finder(Fence), a, rest, f) && Passes(Finder(Role), a, rest, r) && Passes(Finder(Link), a, rest, l)
    ensures Blanked(a + rest) == Masked(a, f, r, l) + Blanked(rest)
  {
    OverlayConcat(a, rest, f, Blank(Finder(Fence), rest));
    var u, v := Overlay(a, f), Overlay(rest, Blank(Finder(Fence), rest));
    OverlayConcat(u, v, r, Blank(Finder(Role), rest));
    OverlayConcat(Overlay(u, r), Overlay(v, Blank(Finder(Role), rest)), l, Blank(Finder(Link), rest));
  }

  lemma OverlaySelf(a: string)
    ensures Masked(a, a, a, a) == a
  {
  }

  lemma OverlayBlank(a: string, f: string, r: string, l: string)
    requires |f| == |r| == |l| == |a|
    requires f == Spaces(|a|) || r == Spaces(|a|) || l == Spaces(|a|)
    ensures Masked(a, f, r, l) == Spaces(|a|)
  {
  }

  lemma TextBlanked(text: string, rest: string)
    requires ValidText(text) && Follows(rest)
    ensures Blanked(text + rest) == text + Blanked(rest)
  {
    QuietWithout(Fence, text, rest);
    PassesQuiet(Finder(Fence), text, rest);
    QuietRole(text, rest);
    PassesQuiet(Finder(Role), text, rest);
    QuietLink(text, rest);
    PassesQuiet(Finder(Link), text, rest);
    BlankedConcat(text, rest, text, text, text);
    OverlaySelf(text);
  }

  /** Fences, roles and links vanish from the masked page; code spans stay as they are. */
  lemma ItemBlanked(item: Item, rest: string)
    requires ValidItem(item) && NoTick(rest)
    ensures Blanked(RenderItem(item) + rest)
         == (if item.CodeItem? then RenderItem(item) else Spaces(|RenderItem(item)|)) + Blanked(rest)
  {
    var f := FencePass(item, rest);
    var r := RolePass(item, rest);
    var l := LinkPass(item, rest);
    BlankedConcat(RenderItem(item), rest, f, r, l);
    if item.CodeItem? {
      OverlaySelf(RenderItem(item));
    } else {
      OverlayBlank(RenderItem(item), f, r, l);
    }
  }

  // --- The page theorem ------------------------------------------------------------

  function Tail(page: Page): string
    requires page.More?
  {
    RenderItem(page.item) + Render(page.rest)
  }

  lemma PageFollows(page: Page)
    requires ValidPage(page) && page.More?
    ensures Follows(Tail(page)) && NoTick(Render(page.rest))
  {
    var item, rest := page.item, page.rest;
    assert Tail(page)[0] == RenderItem(item)[0];
    if rest.More? {
      assert Render(rest)[0] == rest.text[0];
    }
  }

  lemma MarkupRenders(site: Site, spelling: string)
    requires Linkable(site, spelling)
    ensures Markup(site, spelling) == RenderItem(FixItem(site, CodeItem(spelling)))
  {
    match SourcePath(site, spelling)
    case Some(path) => LinkText("`" + spelling + "`", (if path in site.dirs then site.tree else site.blob) + path);
    case None => RoleText(spelling + " <" + Resolve(site, spelling).value + ">");
  }

  lemma LinkText(shown: string, url: string)
    ensures "[" + shown + "](" + url + ")" == RenderItem(LinkItem(shown, url))
  {
    assert "[" + shown + "](" + url + ")" == "[" + (shown + ("](" + (url + ")")));
  }

  lemma RoleText(body: string)
    ensures "{py:obj}`" + body + "`" == RenderItem(RoleItem("py:obj", body))
  {
    assert "{py:obj}`" + body + "`" == "{" + ("py:obj" + ("}`" + (body + "`")));
  }

  lemma CodeRewritten(site: Site, spelling: string, rest: string, masked: string)
    requires ValidItem(CodeItem(spelling)) && |rest| == |masked|
    ensures
      var a := RenderItem(CodeItem(spelling));
      Rewrite(Linker(site), a + rest, a + masked)
        == RenderItem(FixItem(site, CodeItem(spelling))) + Rewrite(Linker(site), rest, masked)
  {
    var a := RenderItem(CodeItem(spelling));
    CodeMatches(spelling, masked);
    var rule := Linker(site);
    assert rule.matcher(a + masked) == |a| && Inner(a + masked, |a|) == spelling;
    RewriteHit(rule, a, a, rest, masked);
    if Linkable(site, spelling) {
      MarkupRenders(site, spelling);
    }
  }

  lemma ItemRewritten(site: Site, item: Item, rest: string, masked: string)
    requires ValidItem(item) && |rest| == |masked|
    ensures
      var a := RenderItem(item);
      var m := if item.CodeItem? then a else Spaces(|a|);
      Rewrite(Linker(site), a + rest, m + masked)
        == RenderItem(FixItem(site, item)) + Rewrite(Linker(site), rest, masked)
  {
    if item.CodeItem? {
      CodeRewritten(site, item.spelling, rest, masked);
    } else {
      var a := RenderItem(item);
      QuietWithout(Span, Spaces(|a|), masked);
      RewriteQuiet(Linker(site), a, Spaces(|a|), rest, masked);
    }
  }

  lemma ItemCount(site: Site, item: Item, masked: string)
    requires ValidItem(item)
    ensures
      Count(Linker(site), (if item.CodeItem? then RenderItem(item) else Spaces(|RenderItem(item)|)) + masked)
        == (if item.CodeItem? && Linkable(site, item.spelling) then 1 else 0) + Count(Linker(site), masked)
  {
    var a := RenderItem(item);
    if item.CodeItem? {
      CodeMatches(item.spelling, masked);
      CountHit(Linker(site), a, masked, Linkable(site, item.spelling));
    } else {
      QuietWithout(Span, Spaces(|a|), masked);
      CountQuiet(Linker(site), Spaces(|a|), masked);
    }
  }

  /** On a tokenised page `fix` rewrites the linkable code spans and touches nothing else. */
  lemma {:induction false} FixOnPage(site: Site, page: Page)
    requires ValidPage(page)
    ensures Fixed(site, Render(page)) == Render(FixPage(site, page))
  {
    var rule := Linker(site);
    var text := page.text;
    if page.Last? {
      TextBlanked(text, "");
      assert text + "" == text;
      QuietWithout(Span, text, Blanked(""));
      RewriteQuiet(rule, text, text, "", Blanked(""));
    } else {
      PageFollows(page);
      var after := Render(page.rest);
      TextBlanked(text, Tail(page));
      ItemBlanked(page.item, after);
      QuietWithout(Span, text, Blanked(Tail(page)));
      RewriteQuiet(rule, text, text, Tail(page), Blanked(Tail(page)));
      ItemRewritten(site, page.item, after, Blanked(after));
      FixOnPage(site, page.rest);
    }
  }

  lemma {:induction false} CountOnPage(site: Site, page: Page)
    requires ValidPage(page)
    ensures Count(Linker(site), Blanked(Render(page))) == LinkableCount(site, page)
  {
    var text := page.text;
    if page.Last? {
      TextBlanked(text, "");
      assert text + "" == text;
      QuietWithout(Span, text, Blanked(""));
      CountQuiet(Linker(site), text, Blanked(""));
    } else {
      PageFollows(page);
      var after := Render(page.rest);
      TextBlanked(text, Tail(page));
      ItemBlanked(page.item, after);
      QuietWithout(Span, text, Blanked(Tail(page)));
      CountQuiet(Linker(site), text, Blanked(Tail(page)));
      ItemCount(site, page.item, Blanked(after));
      CountOnPage(site, page.rest);
    }
  }

  // --- Nothing left to do ----------------------------------------------------------

  lemma {:induction false} FreeIsClosed(s: string)
    requires LinkFree(s)
    ensures LinkClosed(s)
  {
    if s != [] {
      assert s[0..] == s;
      NoLink(s, "");
      assert s + "" == s;
      forall i | 0 <= i < |s[1..]| && s[1..][i] == '[' ensures Stuck(s[1..][i..]) {
        assert s[1..][i..] == s[i + 1..];
      }
      FreeIsClosed(s[1..]);
    }
  }

  lemma FreeExtended(s: string, tail: string)
    requires LinkFree(s) && Without(tail, '[') && tail != [] && tail[0] != '('
    ensures LinkFree(s + tail)
  {
    var t := s + tail;
    forall i | 0 <= i < |t| && t[i] == '[' ensures Stuck(t[i..]) {
      assert i < |s|;
      assert t[i..] == s[i..] + tail;
      SeekInFront(s[i..], tail, ']', 1);
    }
  }

  lemma FixItemValid(site: Site, item: Item)
    requires ValidSite(site) && ValidItem(item)
    ensures ValidItem(FixItem(site, item))
    ensures !(FixItem(site, item).CodeItem? && Linkable(site, FixItem(site, item).spelling))
  {
    if item.CodeItem? && Linkable(site, item.spelling) {
      match SourcePath(site, item.spelling)
      case Some(path) => LinkValid(site, item.spelling);
      case None => RoleValid(site, item.spelling);
    }
  }

  lemma RoleValid(site: Site, spelling: string)
    requires ValidSite(site) && ValidItem(CodeItem(spelling)) && Resolve(site, spelling).Some?
    ensures ValidItem(RoleItem("py:obj", spelling + " <" + Resolve(site, spelling).value + ">"))
  {
    var target := Resolve(site, spelling).value;
    assert Without(target, '`') && Without(target, '[');
    RoleBody(spelling, target);
    assert forall i | 0 <= i < |"py:obj"| :: IsRoleChar("py:obj"[i]);
  }

  lemma RoleBody(spelling: string, target: string)
    requires ValidText(spelling) && Without(target, '`') && Without(target, '[')
    ensures Without(spelling + " <" + target + ">", '`') && LinkClosed(spelling + " <" + target + ">")
  {
    var tail := " <" + target + ">";
    assert spelling + " <" + target + ">" == spelling + tail;
    assert Without(tail, '`') && Without(tail, '[');
    FreeExtended(spelling, tail);
    FreeIsClosed(spelling + tail);
  }

  lemma LinkValid(site: Site, spelling: string)
    requires ValidSite(site) && ValidItem(CodeItem(spelling)) && SourcePath(site, spelling).Some?
    ensures var path := SourcePath(site, spelling).value;
            ValidItem(LinkItem("`" + spelling + "`", (if path in site.dirs then site.tree else site.blob) + path))
  {
    var path := SourcePath(site, spelling).value;
    forall i | 0 <= i < |spelling| ensures spelling[i] != ']' && spelling[i] != '{' {
      SourceSpelling(site, spelling, i);
    }
    TickedValid(spelling);
    UrlExtended(if path in site.dirs then site.tree else site.blob, path);
  }

  lemma TickedValid(spelling: string)
    requires spelling != [] && Without(spelling, ']') && Without(spelling, '{') && Without(spelling, '`')
    ensures var shown := "`" + spelling + "`"; Without(shown, ']') && Without(shown, '{') && NoTriple(shown)
  {
    var shown := "`" + spelling + "`";
    assert forall i | 1 <= i < |shown| - 1 :: shown[i] == spelling[i - 1];
  }

  lemma UrlExtended(base: string, path: string)
    requires ValidUrl(base) && PathLike(path)
    ensures ValidUrl(base + path)
  {
    PathChars(path);
  }

  lemma {:induction false} FixPageValid(site: Site, page: Page)
    requires ValidSite(site) && ValidPage(page)
    ensures ValidPage(FixPage(site, page)) && LinkableCount(site, FixPage(site, page)) == 0
  {
    if page.More? {
      FixItemValid(site, page.item);
      FixPageValid(site, page.rest);
    }
  }

  /** The number `fix` returns is the number of linkable code spans, and a second `fix`
      finds nothing and leaves the page as it is. */
  lemma SecondFixFindsNothing(site: Site, page: Page, once: string)
    requires ValidSite(site) && ValidPage(page) && once == Fixed(site, Render(page))
    ensures |SpansFrom(Linker(site), Blanked(Render(page)), 0)| == LinkableCount(site, page)
    ensures SpansFrom(Linker(site), Blanked(once), 0) == [] && Fixed(site, once) == once
  {
    var next := FixPage(site, page);
    FixOnPage(site, page);
    FixPageValid(site, page);
    CountOnPage(site, page);
    CountSpans(Linker(site), Blanked(Render(page)), 0);
    CountOnPage(site, next);
    CountSpans(Linker(site), Blanked(once), 0);
    FixReplacesSpans(site, once, []);
    assert Gaps(once, [], 0) == [once] && Replacements(Linker(site), []) == [];
    assert Originals(once, []) == [];
  }
}
