/** The text round trips behind two generated documentation tables: splitting a union
    annotation into its alternatives, and escaping prose for a Markdown cell.
 */
module TableText {
  import opened Text

  // --- Union annotations -----------------------------------------------------------

  function Turn(c: char): int {
    if c == '[' then 1 else if c == ']' then -1 else 0
  }

  function Depth(s: string): int {
    if s == [] then 0 else Turn(s[0]) + Depth(s[1..])
  }

  /** The pieces with `front` put before the first. */
  function Prefixed(front: string, pieces: seq<string>): (r: seq<string>)
    requires pieces != []
    ensures r != []
  {
    [front + pieces[0]] + pieces[1..]
  }

  lemma PrefixedEmpty(pieces: seq<string>)
    requires pieces != []
    ensures Prefixed("", pieces) == pieces
  {
    assert "" + pieces[0] == pieces[0];
    assert [pieces[0]] + pieces[1..] == pieces;
  }

  lemma PrefixedTwice(a: string, b: string, pieces: seq<string>)
    requires pieces != []
    ensures Prefixed(a, Prefixed(b, pieces)) == Prefixed(a + b, pieces)
  {
    assert a + (b + pieces[0]) == (a + b) + pieces[0];
  }

  /** The pieces of `s` between the bars at depth 0, starting at depth `d`. */
  function Cut(s: string, d: int): (r: seq<string>)
    ensures r != []
  {
    if s == [] then [""]
    else
      var r := Cut(s[1..], d + Turn(s[0]));
      if s[0] == '|' && d == 0 then [""] + r else Prefixed([s[0]], r)
  }

  function StripAll(parts: seq<string>): (r: seq<string>)
    ensures |r| == |parts| && forall i | 0 <= i < |r| :: r[i] == Strip(parts[i])
  {
    if parts == [] then [] else [Strip(parts[0])] + StripAll(parts[1..])
  }

  function SplitUnion(text: string): seq<string> {
    StripAll(Cut(text, 0))
  }

  /** `_split_union`: one pass with a bracket depth. */
  method ScanUnion(text: string) returns (r: seq<string>)
    ensures r == SplitUnion(text)
  {
    var parts: seq<string>, depth, current := [], 0, "";
    ghost var all := SplitUnion(text);
    assert text[0..] == text && [] + all == all;
    PrefixedEmpty(Cut(text, 0));
    for i := 0 to |text|
      invariant all == parts + Ahead(current, text[i..], depth)
    {
      ScanStep(text, i, depth, parts, current, all);
      if text[i] == '[' {
        depth := depth + 1;
      }
      if text[i] == ']' {
        depth := depth - 1;
      }
      if text[i] == '|' && depth == 0 {
        parts := parts + [Strip(current)];
        current := "";
      } else {
        current := current + [text[i]];
      }
    }
    assert text[|text|..] == "" && Cut("", depth) == Cut("", 0);
    ScanEnd(parts, current, all);
    return parts + [Strip(current)];
  }

  /** What is still to come: the piece being read, and the pieces after it. */
  function Ahead(current: string, s: string, depth: int): seq<string> {
    StripAll(Prefixed(current, Cut(s, depth)))
  }

  lemma ScanBar(text: string, i: nat, current: string)
    requires i < |text| && text[i] == '|'
    ensures Ahead(current, text[i..], 0) == [Strip(current)] + Ahead("", text[i + 1..], 0)
  {
    assert text[i..][0] == text[i] && text[i..][1..] == text[i + 1..];
    var rest := Cut(text[i + 1..], 0);
    PrefixedEmpty(rest);
    assert current + "" == current;
    assert Prefixed(current, [""] + rest) == [current] + rest;
    assert StripAll([current] + rest) == [Strip(current)] + StripAll(rest);
  }

  lemma ScanChar(text: string, i: nat, depth: int, current: string)
    requires i < |text| && !(text[i] == '|' && depth == 0)
    ensures Ahead(current, text[i..], depth) == Ahead(current + [text[i]], text[i + 1..], depth + Turn(text[i]))
  {
    assert text[i..][0] == text[i] && text[i..][1..] == text[i + 1..];
    PrefixedTwice(current, [text[i]], Cut(text[i + 1..], depth + Turn(text[i])));
  }

  lemma ScanStep(text: string, i: nat, depth: int, parts: seq<string>, current: string, all: seq<string>)
    requires i < |text| && all == parts + Ahead(current, text[i..], depth)
    ensures text[i] == '|' && depth == 0 ==> all == (parts + [Strip(current)]) + Ahead("", text[i + 1..], 0)
    ensures !(text[i] == '|' && depth == 0) ==>
              all == parts + Ahead(current + [text[i]], text[i + 1..], depth + Turn(text[i]))
  {
    if text[i] == '|' && depth == 0 {
      ScanBar(text, i, current);
    } else {
      ScanChar(text, i, depth, current);
    }
  }

  lemma ScanEnd(parts: seq<string>, current: string, all: seq<string>)
    requires all == parts + Ahead(current, "", 0)
    ensures all == parts + [Strip(current)]
  {
    assert current + "" == current;
    assert Prefixed(current, [""]) == [current];
  }

  /** Nothing is lost: before trimming, the pieces joined by bars are the text. */
  lemma {:induction false} CutLossless(s: string, d: int)
    ensures Join(Cut(s, d), '|') == s
  {
    if s != [] {
      var r := Cut(s[1..], d + Turn(s[0]));
      CutLossless(s[1..], d + Turn(s[0]));
      assert s == [s[0]] + s[1..];
      if s[0] == '|' && d == 0 {
        JoinBlank(r, '|');
      } else {
        JoinPrefixed([s[0]], r, '|');
      }
    }
  }

  lemma JoinBlank(pieces: seq<string>, c: char)
    requires pieces != []
    ensures Join([""] + pieces, c) == [c] + Join(pieces, c)
  {
    assert ([""] + pieces)[1..] == pieces;
    assert "" + ([c] + Join(pieces, c)) == [c] + Join(pieces, c);
  }

  lemma JoinPrefixed(front: string, pieces: seq<string>, c: char)
    requires pieces != []
    ensures Join(Prefixed(front, pieces), c) == front + Join(pieces, c)
  {
    var r := Prefixed(front, pieces);
    assert r[0] == front + pieces[0] && r[1..] == pieces[1..];
    if |pieces| > 1 {
      Regrouped(front, pieces[0], [c] + Join(pieces[1..], c));
    }
  }

  /** No bar of `s` stands at depth 0 when `s` starts at depth `d`. */
  predicate NoTopBar(s: string, d: int) {
    s == [] || (!(s[0] == '|' && d == 0) && NoTopBar(s[1..], d + Turn(s[0])))
  }

  /** Every piece is free of top-level bars: the cut is complete. */
  lemma {:induction false} CutComplete(s: string, d: int, i: nat)
    requires i < |Cut(s, d)|
    ensures if i == 0 then NoTopBar(Cut(s, d)[0], d) else NoTopBar(Cut(s, d)[i], 0)
  {
    if s != [] {
      var e := d + Turn(s[0]);
      var r := Cut(s[1..], e);
      if s[0] == '|' && d == 0 {
        if i > 0 {
          CutComplete(s[1..], e, i - 1);
        }
      } else {
        CutComplete(s[1..], e, i);
        assert ([s[0]] + r[0])[1..] == r[0];
      }
    }
  }

  lemma {:induction false} CutFront(p: string, rest: string, d: int)
    requires NoTopBar(p, d)
    ensures Cut(p + rest, d) == Prefixed(p, Cut(rest, d + Depth(p)))
  {
    if p == [] {
      assert p + rest == rest;
      PrefixedEmpty(Cut(rest, d));
    } else {
      assert (p + rest)[0] == p[0] && (p + rest)[1..] == p[1..] + rest;
      CutFront(p[1..], rest, d + Turn(p[0]));
      assert p == [p[0]] + p[1..];
      PrefixedTwice([p[0]], p[1..], Cut(rest, d + Depth(p)));
    }
  }

  /** An alternative of a union: trimmed, balanced, with every bar inside brackets. */
  predicate Alternative(p: string) {
    Trimmed(p) && NoTopBar(p, 0) && Depth(p) == 0
  }

  /** `" | ".join(parts)`. */
  function UnionText(parts: seq<string>): string
    requires parts != []
  {
    if |parts| == 1 then parts[0] else parts[0] + (" |" + (" " + UnionText(parts[1..])))
  }

  lemma {:induction false} SplitPadded(pad: string, parts: seq<string>)
    requires parts != [] && (forall i | 0 <= i < |parts| :: Alternative(parts[i]))
    requires pad in ["", " "]
    ensures SplitUnion(pad + UnionText(parts)) == parts
    decreases |parts|
  {
    var p := parts[0];
    assert Alternative(p);
    if |parts| == 1 {
      assert p + "" == p && parts == [p];
      CutPiece(pad, p, "");
      StripPiece(pad, p, "");
      assert Cut("", 0) == [""];
      PiecesStripped(pad + p, "", []);
    } else {
      var tail := " " + UnionText(parts[1..]);
      CutPiece(pad, p, " |" + tail);
      CutSeparator(tail);
      SplitPadded(" ", parts[1..]);
      StripPiece(pad, p, " ");
      PiecesStripped(pad + p, " ", Cut(tail, 0));
      assert parts == [p] + parts[1..];
    }
  }

  lemma PiecesStripped(front: string, first: string, rest: seq<string>)
    ensures StripAll(Prefixed(front, [first] + rest)) == [Strip(front + first)] + StripAll(rest)
  {
    assert Prefixed(front, [first] + rest) == [front + first] + rest;
    assert ([front + first] + rest)[1..] == rest;
  }

  lemma CutPiece(pad: string, p: string, rest: string)
    requires Alternative(p) && pad in ["", " "]
    ensures Cut(pad + (p + rest), 0) == Prefixed(pad + p, Cut(rest, 0))
  {
    assert NoTopBar(pad, 0) && Depth(pad) == 0;
    CutFront(pad, p + rest, 0);
    CutFront(p, rest, 0);
    PrefixedTwice(pad, p, Cut(rest, 0));
  }

  lemma StripPiece(pad: string, p: string, tail: string)
    requires Trimmed(p) && pad in ["", " "] && tail in ["", " "]
    ensures Strip(pad + p + tail) == p
  {
    StripPadded(pad, p, tail);
  }

  lemma CutSeparator(tail: string)
    ensures Cut(" |" + tail, 0) == [" "] + Cut(tail, 0)
  {
    var s := " |" + tail;
    assert s[0] == ' ' && s[1..] == "|" + tail;
    assert ("|" + tail)[0] == '|' && ("|" + tail)[1..] == tail;
    assert Cut("|" + tail, 0) == [""] + Cut(tail, 0);
    assert [' '] + "" == " ";
  }

  /** Splitting undoes joining. */
  lemma SplitUndoesJoin(parts: seq<string>)
    requires parts != [] && forall i | 0 <= i < |parts| :: Alternative(parts[i])
    ensures SplitUnion(UnionText(parts)) == parts
  {
    SplitPadded("", parts);
    assert "" + UnionText(parts) == UnionText(parts);
  }

  // --- Whitespace ------------------------------------------------------------------

  /** `s.split()`, the words of a text; `word` is the one being read. */
  function Words(s: string, word: string): seq<string> {
    if s == [] then (if word == "" then [] else [word])
    else if IsSpace(s[0]) then (if word == "" then [] else [word]) + Words(s[1..], "")
    else Words(s[1..], word + [s[0]])
  }

  /** `" ".join(s.split())`. */
  function Normalized(s: string): string {
    Join(Words(s, ""), ' ')
  }

  predicate IsWordText(w: string) {
    w != "" && forall i | 0 <= i < |w| :: !IsSpace(w[i])
  }

  lemma {:induction false} WordsAreWords(s: string, word: string)
    requires word == "" || IsWordText(word)
    ensures forall i | 0 <= i < |Words(s, word)| :: IsWordText(Words(s, word)[i])
  {
    if s != [] {
      if IsSpace(s[0]) {
        WordsAreWords(s[1..], "");
      } else {
        WordsAreWords(s[1..], word + [s[0]]);
      }
    }
  }

  /** No whitespace but the plain space, so no line break. */
  predicate OneLine(s: string) {
    forall i | 0 <= i < |s| :: IsSpace(s[i]) ==> s[i] == ' '
  }

  lemma {:induction false} JoinOneLine(words: seq<string>)
    requires forall i | 0 <= i < |words| :: IsWordText(words[i])
    ensures OneLine(Join(words, ' '))
  {
    if |words| > 1 {
      JoinOneLine(words[1..]);
    }
  }

  lemma NormalizedOneLine(s: string)
    ensures OneLine(Normalized(s))
  {
    WordsAreWords(s, "");
    JoinOneLine(Words(s, ""));
  }

  // --- Escaping --------------------------------------------------------------------

  const SPECIAL := ['\\', '`', '*', '_', '<', '>', '[', ']', '{', '}', '|', '$', '&', '~', '^']

  /** A backslash before every special character. */
  function Escape(s: string): string {
    if s == [] then ""
    else (if s[0] in SPECIAL then ['\\', s[0]] else [s[0]]) + Escape(s[1..])
  }

  /** A backslash before every bar. */
  function EscapeBars(s: string): string {
    if s == [] then ""
    else (if s[0] == '|' then ['\\', '|'] else [s[0]]) + EscapeBars(s[1..])
  }

  /** Alternate pieces are prose and code. */
  function EscapeParts(parts: seq<string>, code: bool): string {
    if parts == [] then ""
    else
      (if code then "`" + (EscapeBars(parts[0]) + "`") else Escape(parts[0]))
      + EscapeParts(parts[1..], !code)
  }

  /** `_prose`. */
  function Prose(text: string): string {
    var line := Normalized(text);
    var parts := Split(line, '`');
    if |parts| % 2 == 0 then Escape(line) else EscapeParts(parts, false)
  }

  /** Reads a cell back: a backslash quotes the next character in prose and only a bar in
      code, and a bare backtick opens or closes code. */
  function Unescape(s: string, code: bool): string
    decreases |s|
  {
    if s == [] then ""
    else if s[0] == '\\' && |s| > 1 && (!code || s[1] == '|') then [s[1]] + Unescape(s[2..], code)
    else if s[0] == '`' then "`" + Unescape(s[1..], !code)
    else [s[0]] + Unescape(s[1..], code)
  }

  lemma UnescapeQuoted(c: char, more: string, code: bool)
    requires !code || c == '|'
    ensures Unescape(['\\', c] + more, code) == [c] + Unescape(more, code)
  {
    assert (['\\', c] + more)[2..] == more;
  }

  lemma UnescapePlain(c: char, more: string, code: bool)
    requires c != '`' && (c == '\\' ==> more == [] || (code && more[0] != '|'))
    ensures Unescape([c] + more, code) == [c] + Unescape(more, code)
  {
    assert ([c] + more)[1..] == more;
  }

  lemma BarsStart(p: string, rest: string)
    requires rest != [] && rest[0] != '|'
    ensures (EscapeBars(p) + rest)[0] != '|'
  {
  }

  lemma Regrouped(a: string, b: string, c: string)
    ensures (a + b) + c == a + (b + c)
  {
  }

  lemma {:induction false} UnescapeProse(p: string, rest: string)
    ensures Unescape(Escape(p) + rest, false) == p + Unescape(rest, false)
  {
    if p == [] {
      assert Escape(p) + rest == rest;
    } else {
      var c, more := p[0], Escape(p[1..]) + rest;
      var head := if c in SPECIAL then ['\\', c] else [c];
      UnescapeProse(p[1..], rest);
      assert p == [c] + p[1..];
      Regrouped([c], p[1..], Unescape(rest, false));
      Regrouped(head, Escape(p[1..]), rest);
      if c in SPECIAL {
        UnescapeQuoted(c, more, false);
      } else {
        UnescapePlain(c, more, false);
      }
    }
  }

  lemma {:induction false} UnescapeCode(p: string, rest: string)
    requires Without(p, '`') && rest != [] && rest[0] == '`'
    ensures Unescape(EscapeBars(p) + rest, true) == p + Unescape(rest, true)
  {
    if p == [] {
      assert EscapeBars(p) + rest == rest;
    } else {
      var c, more := p[0], EscapeBars(p[1..]) + rest;
      var head := if c == '|' then ['\\', '|'] else [c];
      UnescapeCode(p[1..], rest);
      assert p == [c] + p[1..];
      Regrouped([c], p[1..], Unescape(rest, true));
      Regrouped(head, EscapeBars(p[1..]), rest);
      if c == '|' {
        UnescapeQuoted(c, more, true);
      } else {
        BarsStart(p[1..], rest);
        UnescapePlain(c, more, true);
      }
    }
  }

  lemma {:induction false} UnescapeParts(parts: seq<string>)
    requires |parts| % 2 == 1 && forall i | 0 <= i < |parts| :: Without(parts[i], '`')
    ensures Unescape(EscapeParts(parts, false), false) == Join(parts, '`')
    decreases |parts|
  {
    var p := parts[0];
    if |parts| == 1 {
      assert EscapeParts(parts, false) == Escape(p) + "";
      UnescapeProse(p, "");
      assert p + "" == p;
    } else {
      var c, others := parts[1], parts[2..];
      assert parts[1..][0] == c && parts[1..][1..] == others;
      var tail := EscapeParts(others, false);
      var close := "`" + tail;
      assert EscapeParts(parts[1..], true) == "`" + (EscapeBars(c) + "`") + tail;
      assert "`" + (EscapeBars(c) + "`") + tail == "`" + (EscapeBars(c) + close);
      UnescapeProse(p, "`" + (EscapeBars(c) + close));
      UnescapeTick(EscapeBars(c) + close, false);
      UnescapeCode(c, close);
      UnescapeTick(tail, true);
      UnescapeParts(others);
      assert Join(parts, '`') == p + (['`'] + (c + (['`'] + Join(others, '`'))));
    }
  }

  lemma UnescapeTick(rest: string, code: bool)
    ensures Unescape("`" + rest, code) == "`" + Unescape(rest, !code)
  {
    assert ("`" + rest)[1..] == rest;
  }

  lemma {:induction false} JoinSplit(s: string, c: char)
    ensures Join(Split(s, c), c) == s
  {
    if s != [] {
      JoinSplit(s[1..], c);
      var r := Split(s[1..], c);
      assert s == [s[0]] + s[1..];
      if s[0] == c {
        JoinBlank(r, c);
      } else {
        assert Split(s, c) == Prefixed([s[0]], r);
        JoinPrefixed([s[0]], r, c);
      }
    }
  }

  /** Whatever the text, the cell can be read back to it up to whitespace. */
  lemma ProseInvertible(text: string)
    ensures Unescape(Prose(text), false) == Normalized(text)
  {
    var line := Normalized(text);
    var parts := Split(line, '`');
    if |parts| % 2 == 0 {
      UnescapeProse(line, "");
      assert Escape(line) + "" == Escape(line) && line + "" == line;
    } else {
      SplitWithout(line, '`');
      UnescapeParts(parts);
      JoinSplit(line, '`');
    }
  }

  /** Every bar directly follows a backslash, so none ends the table cell. */
  predicate BarsQuoted(s: string) {
    forall i | 0 <= i < |s| && s[i] == '|' :: i > 0 && s[i - 1] == '\\'
  }

  lemma QuotedConcat(a: string, b: string)
    requires BarsQuoted(a) && BarsQuoted(b)
    ensures BarsQuoted(a + b)
  {
    forall i | 0 <= i < |a + b| && (a + b)[i] == '|' ensures i > 0 && (a + b)[i - 1] == '\\' {
      if i >= |a| {
        assert b[i - |a|] == '|';
      }
    }
  }

  lemma {:induction false} EscapeQuotes(s: string)
    ensures BarsQuoted(Escape(s)) && BarsQuoted(EscapeBars(s))
  {
    if s != [] {
      EscapeQuotes(s[1..]);
      QuotedConcat(if s[0] in SPECIAL then ['\\', s[0]] else [s[0]], Escape(s[1..]));
      QuotedConcat(if s[0] == '|' then ['\\', '|'] else [s[0]], EscapeBars(s[1..]));
    }
  }

  lemma {:induction false} PartsQuote(parts: seq<string>, code: bool)
    ensures BarsQuoted(EscapeParts(parts, code))
  {
    if parts != [] {
      EscapeQuotes(parts[0]);
      PartsQuote(parts[1..], !code);
      if code {
        QuotedConcat(EscapeBars(parts[0]), "`");
        QuotedConcat("`", EscapeBars(parts[0]) + "`");
      }
      QuotedConcat(
        if code then "`" + (EscapeBars(parts[0]) + "`") else Escape(parts[0]), EscapeParts(parts[1..], !code));
    }
  }

  lemma ProseQuotesBars(text: string)
    ensures BarsQuoted(Prose(text))
  {
    EscapeQuotes(Normalized(text));
    PartsQuote(Split(Normalized(text), '`'), false);
  }

  lemma {:induction false} EscapeOneLine(s: string)
    requires OneLine(s)
    ensures OneLine(Escape(s)) && OneLine(EscapeBars(s))
  {
    if s != [] {
      EscapeOneLine(s[1..]);
    }
  }

  lemma {:induction false} SplitOneLine(s: string, c: char)
    requires OneLine(s)
    ensures forall i | 0 <= i < |Split(s, c)| :: OneLine(Split(s, c)[i])
  {
    if s != [] {
      SplitOneLine(s[1..], c);
    }
  }

  lemma {:induction false} PartsOneLine(parts: seq<string>, code: bool)
    requires forall i | 0 <= i < |parts| :: OneLine(parts[i])
    ensures OneLine(EscapeParts(parts, code))
  {
    if parts != [] {
      EscapeOneLine(parts[0]);
      PartsOneLine(parts[1..], !code);
    }
  }

  /** The cell stays on one line. */
  lemma ProseOneLine(text: string)
    ensures OneLine(Prose(text))
  {
    var line := Normalized(text);
    NormalizedOneLine(text);
    EscapeOneLine(line);
    SplitOneLine(line, '`');
    PartsOneLine(Split(line, '`'), false);
  }
}
