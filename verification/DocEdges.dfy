/** The linker outside tokenised pages: inputs on which a second pass finds more, and on
    which text is lost.
 */
module DocEdges {
  import opened Common
  import opened Text
  import opened DocNames
  import opened Splicing
  import opened DocLinks
  import opened DocPages

  lemma TickBlanked(rest: string)
    requires !ThreeTicks("`" + rest)
    ensures Blanked("`" + rest) == "`" + Blanked(rest)
  {
    forall p | p in {Fence, Role, Link} ensures Passes(Finder(p), "`", rest, "`") {
      assert !Hit(Finder(p), "`" + rest);
      BlankStep(Finder(p), '`', rest);
    }
    BlankedConcat("`", rest, "`", "`", "`");
    OverlaySelf("`");
  }

  lemma LastTick()
    ensures Blanked("`") == "`" && SpanLen("`").None?
  {
    TickBlanked("");
    assert "`" + "" == "`";
  }

  lemma SpaceTick()
    ensures Blanked(" `") == " `"
  {
    LastTick();
    TextBlanked(" ", "`");
    assert " " + "`" == " `";
  }

  lemma {:induction false} DottedIff(s: string)
    ensures Dotted(s) <==> exists i :: 0 <= i < |s| && s[i] == '.' && Without(s[..i], '(')
  {
    if s != [] && s[0] != '(' {
      DottedIff(s[1..]);
      if exists i :: 0 <= i < |s| && s[i] == '.' && Without(s[..i], '(') {
        var i :| 0 <= i < |s| && s[i] == '.' && Without(s[..i], '(');
        if i > 0 {
          assert s[1..][i - 1] == '.' && s[1..][..i - 1] == s[..i][1..];
        }
      }
      if Dotted(s[1..]) {
        var i :| 0 <= i < |s[1..]| && s[1..][i] == '.' && Without(s[1..][..i], '(');
        assert s[i + 1] == '.' && s[..i + 1] == [s[0]] + s[1..][..i];
      }
      assert s[0] == '.' ==> Without(s[..0], '(');
    }
  }

  lemma PaddedDotted(m: nat, spelling: string, n: nat)
    requires Dotted(spelling)
    ensures Dotted(Spaces(m) + spelling + Spaces(n))
  {
    var s := Spaces(m) + spelling + Spaces(n);
    DottedIff(spelling);
    DottedIff(s);
    var i :| 0 <= i < |spelling| && spelling[i] == '.' && Without(spelling[..i], '(');
    assert s[m + i] == '.' && s[..m + i] == Spaces(m) + spelling[..i];
  }

  /** Surrounding blanks do not change what a spelling resolves to. */
  lemma PaddedLinkable(site: Site, m: nat, spelling: string, n: nat)
    requires Trimmed(spelling) && Linkable(site, spelling)
    ensures Linkable(site, Spaces(m) + spelling + Spaces(n))
  {
    StripPadded(Spaces(m), spelling, Spaces(n));
    StripTrimmed(spelling);
    if Dotted(spelling) {
      PaddedDotted(m, spelling, n);
    }
    LinkableByStrip(site, spelling, Spaces(m) + spelling + Spaces(n));
  }

  lemma LinkableByStrip(site: Site, a: string, b: string)
    requires Strip(a) == Strip(b) && (Dotted(a) ==> Dotted(b)) && Linkable(site, a)
    ensures Linkable(site, b)
  {
  }

  /** A backtick, a code span and a second spelling with a closing backtick. */
  function Staggered(first: Item, second: string): string {
    "`" + (RenderItem(first) + (second + "`"))
  }

  lemma StaggeredBlanked(first: Item, second: string)
    requires ValidItem(first) && !first.FenceItem? && ValidItem(CodeItem(second))
    ensures Blanked(Staggered(first, second))
         == "`" + ((if first.CodeItem? then RenderItem(first) else Spaces(|RenderItem(first)|)) + (second + "`"))
  {
    LastTick();
    TextBlanked(second, "`");
    assert NoTick(second + "`");
    ItemBlanked(first, second + "`");
    var s := "`" + (RenderItem(first) + (second + "`"));
    assert first.CodeItem? ==> s[2] == first.spelling[0];
    assert !first.CodeItem? ==> s[1] == RenderItem(first)[0];
    TickBlanked(RenderItem(first) + (second + "`"));
  }

  lemma StaggeredFixed(site: Site, first: string, second: string)
    requires ValidItem(CodeItem(first)) && ValidItem(CodeItem(second))
    ensures Fixed(site, Staggered(CodeItem(first), second)) == Staggered(FixItem(site, CodeItem(first)), second)
  {
    var rule, item := Linker(site), CodeItem(first);
    var tail := second + "`";
    StaggeredBlanked(item, second);
    LastTick();
    assert SpanEnd("`" + (RenderItem(item) + tail), 1) == 1;
    assert "`"[0..] + (RenderItem(item) + tail) == "`" + (RenderItem(item) + tail);
    assert Quiet(rule.matcher, "`", RenderItem(item) + tail);
    RewriteQuiet(rule, "`", "`", RenderItem(item) + tail, RenderItem(item) + tail);
    ItemRewritten(site, item, tail, tail);
    QuietWithout(Span, second, "`");
    RewriteQuiet(rule, second, second, "`", "`");
    assert "`"[0..] + "" == "`" && "`" + "" == "`";
    assert Quiet(rule.matcher, "`", "");
    RewriteQuiet(rule, "`", "`", "", "");
  }

  lemma WholeCode(inner: string)
    requires inner != [] && Without(inner, '`') && Without(inner, '\n')
    ensures SpanLen(RenderItem(CodeItem(inner))) == Some(|RenderItem(CodeItem(inner))|)
    ensures Inner(RenderItem(CodeItem(inner)), |RenderItem(CodeItem(inner))|) == inner
  {
    assert RenderItem(CodeItem(inner)) + "" == RenderItem(CodeItem(inner));
    CodeMatches(inner, "");
  }

  /** A masked page that is one padded linkable span. */
  lemma PaddedSpan(site: Site, text: string, inner: string)
    requires inner != [] && Without(inner, '`') && Without(inner, '\n') && Linkable(site, inner)
    requires |text| == |RenderItem(CodeItem(inner))|
    ensures Count(Linker(site), RenderItem(CodeItem(inner))) == 1
    ensures Rewrite(Linker(site), text, RenderItem(CodeItem(inner))) == Markup(site, inner)
  {
    var code, rule := RenderItem(CodeItem(inner)), Linker(site);
    WholeCode(inner);
    assert rule.matcher(code) == |code| && rule.wanted(inner);
    WholeHit(rule, text, code);
  }

  lemma PaddedPlain(m: nat, spelling: string, n: nat)
    requires ValidItem(CodeItem(spelling))
    ensures var inner := Spaces(m) + spelling + Spaces(n);
            inner != [] && Without(inner, '`') && Without(inner, '\n')
  {
  }

  /** The second pass over a staggered page whose first span has become a link. */
  lemma LinkedThenBlanked(item: Item, second: string)
    requires ValidItem(item) && !item.FenceItem? && !item.CodeItem? && ValidItem(CodeItem(second))
    ensures Blanked(Staggered(item, second))
         == RenderItem(CodeItem(Spaces(|RenderItem(item)|) + second + Spaces(0)))
  {
    var n := |RenderItem(item)|;
    StaggeredBlanked(item, second);
    assert Spaces(n) + second + Spaces(0) == Spaces(n) + second;
    assert "`" + (Spaces(n) + (second + "`")) == "`" + ((Spaces(n) + second) + "`");
  }

  lemma LinkedItem(site: Site, spelling: string)
    requires ValidSite(site) && ValidItem(CodeItem(spelling)) && Linkable(site, spelling)
    ensures var item := FixItem(site, CodeItem(spelling));
            ValidItem(item) && !item.FenceItem? && !item.CodeItem?
  {
    FixItemValid(site, CodeItem(spelling));
  }

  /** Where code spans are not cleanly delimited a second `fix` can find more: the first
      pass takes the inner span, its markup is masked on the second pass, and the outer
      backticks then enclose another spelling. */
  lemma SecondFixFindsMore(site: Site, first: string, second: string, item: Item)
    requires ValidSite(site) && ValidItem(CodeItem(first)) && ValidItem(CodeItem(second))
    requires Linkable(site, first) && Linkable(site, second) && Trimmed(second)
    requires item == FixItem(site, CodeItem(first))
    ensures Fixed(site, Staggered(CodeItem(first), second)) == Staggered(item, second)
    ensures Count(Linker(site), Blanked(Staggered(item, second))) == 1
  {
    StaggeredFixed(site, first, second);
    LinkedItem(site, first);
    LinkedThenBlanked(item, second);
    var n := |RenderItem(item)|;
    PaddedLinkable(site, n, second, 0);
    PaddedPlain(n, second, 0);
    PaddedSpan(site, Staggered(item, second), Spaces(n) + second + Spaces(0));
  }

  lemma LoneTick(spelling: string, rest: string)
    requires ValidItem(CodeItem(spelling))
    ensures Blanked("`" + (spelling + rest)) == "`" + Blanked(spelling + rest)
  {
    assert ("`" + (spelling + rest))[1] == spelling[0];
    TickBlanked(spelling + rest);
  }

  lemma LostBlanked(spelling: string, shown: string, url: string)
    requires ValidItem(CodeItem(spelling)) && ValidItem(LinkItem(shown, url))
    ensures
      var inside := RenderItem(LinkItem(shown, url));
      Blanked("`" + (spelling + (inside + " `"))) == "`" + (spelling + (Spaces(|inside|) + " `"))
  {
    var inside := RenderItem(LinkItem(shown, url));
    SpaceTick();
    ItemBlanked(LinkItem(shown, url), " `");
    TextBlanked(spelling, inside + " `");
    LoneTick(spelling, inside + " `");
  }

  /** A link inside a linkable code span does not survive: the span is spelled from the
      masked text, so what the page says there is replaced by blanks. */
  lemma LinkInsideCodeIsLost(site: Site, spelling: string, shown: string, url: string)
    requires ValidItem(CodeItem(spelling)) && ValidItem(LinkItem(shown, url))
    requires Linkable(site, spelling) && Trimmed(spelling)
    ensures
      var inside := RenderItem(LinkItem(shown, url));
      Fixed(site, "`" + (spelling + (inside + " `"))) == Markup(site, spelling + Spaces(|inside| + 1))
  {
    var inside := RenderItem(LinkItem(shown, url));
    var n := |inside| + 1;
    var inner := Spaces(0) + spelling + Spaces(n);
    LostBlanked(spelling, shown, url);
    BlanksRegrouped(spelling, |inside|);
    PaddedLinkable(site, 0, spelling, n);
    PaddedPlain(0, spelling, n);
    PaddedSpan(site, "`" + (spelling + (inside + " `")), inner);
  }

  lemma BlanksRegrouped(spelling: string, k: nat)
    ensures "`" + (spelling + (Spaces(k) + " `")) == "`" + ((Spaces(0) + spelling + Spaces(k + 1)) + "`")
    ensures Spaces(0) + spelling + Spaces(k + 1) == spelling + Spaces(k + 1)
  {
    assert Spaces(k) + " `" == Spaces(k + 1) + "`";
  }
}
