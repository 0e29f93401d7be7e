/**
 Comment extraction from C-style and hash-commented sources
 (tools/comment_check.py). A lexer that cuts a text into tokens is the
 reference; the scanner's loop is proved to report what the tokens say.
 */
module CommentScan {
  import opened Strings

  datatype Block = Block(open: string, close: string)

  /** The line-comment markers of a language and its block comment, if it has one. */
  datatype Syntax = Syntax(line: seq<string>, block: Option<Block>)

  const C_STYLE := Syntax(["//"], Some(Block("/*", "*/")))
  const HASH := Syntax(["#"], None)

  datatype Unit = Unit(line: nat, text: string)

  predicate IsQuote(c: char) {
    c == '"' || c == '\'' || c == '`'
  }

  predicate IsMarker(m: string) {
    m != "" && forall i :: 0 <= i < |m| ==> m[i] != '\n' && m[i] != '\\' && !IsQuote(m[i])
  }

  function Markers(y: Syntax): seq<string> {
    y.line + (if y.block.Some? then [y.block.value.open] else [])
  }

  predicate IsSyntax(y: Syntax) {
    && y.line != []
    && (forall i :: 0 <= i < |Markers(y)| ==> IsMarker(Markers(y)[i]))
    && (y.block.Some? ==> IsMarker(y.block.value.close))
  }

  lemma BothAreSyntaxes()
    ensures IsSyntax(C_STYLE) && IsSyntax(HASH)
  {
    assert Markers(C_STYLE) == ["//", "/*"];
    assert Markers(HASH) == ["#"];
  }

  // ----- searching -------------------------------------------------------------

  /** Index of the first occurrence of a nonempty `p`, as `s.find(p)`. */
  function Find(s: string, p: string): (r: Option<nat>)
    requires p != ""
    ensures r.Some? ==> r.value + |p| <= |s| && s[r.value..r.value + |p|] == p
  {
    if Starts(s, p) then Some(0)
    else if s == "" then None
    else match Find(s[1..], p)
      case None => None
      case Some(k) => Some(k + 1)
  }

  predicate Contains(s: string, p: string)
    requires p != ""
  {
    Find(s, p).Some?
  }

  function Newlines(s: string): nat {
    if s == "" then 0 else (if s[0] == '\n' then 1 else 0) + Newlines(s[1..])
  }

  lemma {:induction false} NewlinesConcat(a: string, b: string)
    ensures Newlines(a + b) == Newlines(a) + Newlines(b)
  {
    if a == "" {
      assert a + b == b;
    } else {
      assert (a + b)[1..] == a[1..] + b;
      NewlinesConcat(a[1..], b);
    }
  }

  /** `s.split("\n")`. */
  function Split(s: string): (parts: seq<string>)
    ensures |parts| == Newlines(s) + 1
    ensures forall j :: 0 <= j < |parts| ==> Newlines(parts[j]) == 0
  {
    if s == "" then [""]
    else if s[0] == '\n' then [""] + Split(s[1..])
    else
      var rest := Split(s[1..]);
      assert ([s[0]] + rest[0])[1..] == rest[0];
      [[s[0]] + rest[0]] + rest[1..]
  }

  // ----- tokens ------------------------------------------------------------------

  datatype End = Closed | Cut | Dangling

  /** How many characters after an opening quote belong to the literal, and how it ends. */
  datatype Body = Body(length: nat, end: End)

  function QuoteBody(s: string, q: char): (b: Body)
    ensures b.length <= |s|
  {
    if s == "" || s[0] == '\n' then Body(0, Cut)
    else if s[0] == '\\' then
      if |s| == 1 then Body(1, Dangling)
      else var b := QuoteBody(s[2..], q); Body(b.length + 2, b.end)
    else if s[0] == q then Body(1, Closed)
    else var b := QuoteBody(s[1..], q); Body(b.length + 1, b.end)
  }

  datatype Token =
    | Code(text: string)
    | Newline(text: string)
    | Quoted(text: string, end: End)
    | BlockComment(text: string, closed: bool)
    | LineComment(text: string)

  predicate StartsLine(s: string, markers: seq<string>) {
    exists i :: 0 <= i < |markers| && Starts(s, markers[i])
  }

  function NextToken(s: string, y: Syntax): (t: Token)
    requires s != "" && IsSyntax(y)
    ensures 0 < |t.text| <= |s| && t.text == s[..|t.text|]
  {
    if s[0] == '\n' then Newline("\n")
    else if IsQuote(s[0]) then
      var b := QuoteBody(s[1..], s[0]);
      Quoted(s[..1 + b.length], b.end)
    else if y.block.Some? && Starts(s, y.block.value.open) then
      OpenIsMarker(y);
      var o := |y.block.value.open|;
      match Find(s[o..], y.block.value.close)
      case None => BlockComment(s, false)
      case Some(k) => BlockComment(s[..o + k + |y.block.value.close|], true)
    else if StartsLine(s, y.line) then
      match Find(s, "\n")
      case None => LineComment(s)
      case Some(k) => LineEndIsLater(s, k); LineComment(s[..k])
    else Code(s[..1])
  }

  lemma OpenIsMarker(y: Syntax)
    requires IsSyntax(y) && y.block.Some?
    ensures IsMarker(y.block.value.open) && IsMarker(y.block.value.close)
  {
    assert Markers(y)[|y.line|] == y.block.value.open;
  }

  lemma LineIsMarker(y: Syntax, i: nat)
    requires IsSyntax(y) && i < |y.line|
    ensures IsMarker(y.line[i])
  {
    assert Markers(y)[i] == y.line[i];
  }

  lemma LineEndIsLater(s: string, k: nat)
    requires s != "" && s[0] != '\n' && Find(s, "\n") == Some(k)
    ensures k > 0
  {
  }

  function Lex(s: string, y: Syntax): seq<Token>
    requires IsSyntax(y)
    decreases |s|
  {
    if s == "" then [] else
      var t := NextToken(s, y);
      [t] + Lex(s[|t.text|..], y)
  }

  function Flat(ts: seq<Token>): string {
    if ts == [] then "" else ts[0].text + Flat(ts[1..])
  }

  /** The tokens are the whole text, in order. */
  lemma {:induction false} LexIsLossless(s: string, y: Syntax)
    requires IsSyntax(y)
    ensures Flat(Lex(s, y)) == s
    decreases |s|
  {
    if s != "" {
      var t := NextToken(s, y);
      LexIsLossless(s[|t.text|..], y);
      assert s == t.text + s[|t.text|..];
    }
  }

  // ----- what is reported of the tokens --------------------------------------------

  function PartsAsUnits(parts: seq<string>, line: nat): (us: seq<Unit>) {
    seq(|parts|, j requires 0 <= j < |parts| => Unit(line + j, parts[j]))
  }

  function UnitsOf(t: Token, line: nat): seq<Unit> {
    match t
    case LineComment(text) => [Unit(line, text)]
    case BlockComment(text, _) => PartsAsUnits(Split(text), line)
    case _ => []
  }

  predicate HidesMarker(region: string, y: Syntax)
    requires IsSyntax(y)
  {
    exists i :: 0 <= i < |Markers(y)| && Contains(region, Markers(y)[i])
  }

  function UnbalancedOf(t: Token, line: nat, y: Syntax): seq<nat>
    requires IsSyntax(y)
  {
    if t.Quoted? && t.end != Closed && HidesMarker(t.text, y) then [line + Newlines(t.text)] else []
  }

  function Units(ts: seq<Token>, line: nat): seq<Unit> {
    if ts == [] then [] else UnitsOf(ts[0], line) + Units(ts[1..], line + Newlines(ts[0].text))
  }

  function Unbalanced(ts: seq<Token>, line: nat, y: Syntax): seq<nat>
    requires IsSyntax(y)
  {
    if ts == [] then []
    else UnbalancedOf(ts[0], line, y) + Unbalanced(ts[1..], line + Newlines(ts[0].text), y)
  }

  // ----- the scanner ------------------------------------------------------------------

  /** What the tokens from position `i` on, which is on line `line`, report. */
  ghost function UnitsFrom(text: string, i: nat, line: nat, y: Syntax): seq<Unit>
    requires i <= |text| && IsSyntax(y)
  {
    Units(Lex(text[i..], y), line)
  }

  ghost function UnbalancedFrom(text: string, i: nat, line: nat, y: Syntax): seq<nat>
    requires i <= |text| && IsSyntax(y)
  {
    Unbalanced(Lex(text[i..], y), line, y)
  }

  /** The first token at `i` reports first, and the rest from behind it. */
  lemma TokenStep(text: string, i: nat, line: nat, y: Syntax)
    requires IsSyntax(y) && i < |text|
    ensures var t := NextToken(text[i..], y);
            var j, line' := i + |t.text|, line + Newlines(t.text);
            && j <= |text| && t.text == text[i..j]
            && UnitsFrom(text, i, line, y) == UnitsOf(t, line) + UnitsFrom(text, j, line', y)
            && UnbalancedFrom(text, i, line, y) == UnbalancedOf(t, line, y) + UnbalancedFrom(text, j, line', y)
  {
    hide NextToken, UnitsOf, UnbalancedOf, Newlines, IsSyntax;
    var t := NextToken(text[i..], y);
    assert text[i..][|t.text|..] == text[i + |t.text|..];
  }

  /** A literal's body is found by the same rule from any point inside it. */
  ghost predicate BodyFrom(text: string, start: nat, i: nat, q: char) {
    && start < i && start < |text| && text[start] == q && IsQuote(q)
    && (if i <= |text| then
          var whole, rest := QuoteBody(text[start + 1..], q), QuoteBody(text[i..], q);
          whole == Body(rest.length + (i - start - 1), rest.end)
        else
          i == |text| + 1 && QuoteBody(text[start + 1..], q) == Body(|text| - start - 1, Dangling))
  }

  function Min(a: int, b: int): int { if a <= b then a else b }

  /** Inside the literal opened at `at`, position `i` is on line `line`. */
  ghost predicate InLiteral(text: string, at: nat, atLine: nat, i: nat, line: nat, q: char) {
    && BodyFrom(text, at, i, q)
    && line == atLine + Newlines(text[at..Min(i, |text|)])
  }

  lemma NewlinesGrow(text: string, start: nat, i: nat, j: nat)
    requires start <= i <= j <= |text|
    ensures Newlines(text[start..j]) == Newlines(text[start..i]) + Newlines(text[i..j])
  {
    assert text[start..j] == text[start..i] + text[i..j];
    NewlinesConcat(text[start..i], text[i..j]);
  }

  lemma NewlinesOfOne(text: string, i: nat)
    requires i < |text|
    ensures Newlines(text[i..i + 1]) == if text[i] == '\n' then 1 else 0
  {
    assert text[i..i + 1][1..] == "";
  }

  lemma OpenStep(text: string, i: nat, line: nat)
    requires i < |text| && IsQuote(text[i])
    ensures InLiteral(text, i, line, i + 1, line, text[i])
  {
    NewlinesOfOne(text, i);
  }

  lemma EscapeInBody(text: string, at: nat, i: nat, q: char)
    requires i < |text| && BodyFrom(text, at, i, q) && text[i] == '\\'
    ensures BodyFrom(text, at, i + 2, q)
  {
    if i + 1 < |text| {
      assert text[i..][2..] == text[i + 2..];
    }
  }

  lemma EscapeStep(text: string, at: nat, atLine: nat, i: nat, line: nat, q: char)
    requires i < |text| && InLiteral(text, at, atLine, i, line, q) && text[i] == '\\'
    ensures var more := if i + 1 < |text| && text[i + 1] == '\n' then 1 else 0;
            InLiteral(text, at, atLine, i + 2, line + more, q)
  {
    EscapeInBody(text, at, i, q);
    hide Newlines, BodyFrom;
    NewlinesGrow(text, at, i, i + 1);
    NewlinesOfOne(text, i);
    if i + 1 < |text| {
      NewlinesGrow(text, at, i + 1, i + 2);
      NewlinesOfOne(text, i + 1);
    }
  }

  /** A literal that reaches position `i` whole is one token, and reports only when cut off. */
  lemma LiteralStep(text: string, at: nat, atLine: nat, i: nat, line: nat, q: char, end: End, y: Syntax)
    requires IsSyntax(y) && at < i <= |text| && text[at] == q && IsQuote(q)
    requires QuoteBody(text[at + 1..], q) == Body(i - at - 1, end)
    requires line == atLine + Newlines(text[at..i])
    ensures UnitsFrom(text, at, atLine, y) == UnitsFrom(text, i, line, y)
    ensures UnbalancedFrom(text, at, atLine, y)
         == (if end != Closed && HidesMarker(text[at..i], y) then [line] else []) + UnbalancedFrom(text, i, line, y)
  {
    hide Units, Unbalanced, Lex, UnitsFrom, UnbalancedFrom, QuoteBody, HidesMarker, Newlines, Split, PartsAsUnits;
    TokenStep(text, at, atLine, y);
    assert text[at..][1..] == text[at + 1..];
    assert NextToken(text[at..], y) == Quoted(text[at..i], end);
  }

  /** A character inside a literal; the one that closes it ends the token. */
  lemma BodyStep(text: string, at: nat, atLine: nat, i: nat, line: nat, q: char, y: Syntax)
    requires IsSyntax(y) && i < |text| && InLiteral(text, at, atLine, i, line, q)
    requires text[i] != '\n' && text[i] != '\\'
    ensures text[i] != q ==> InLiteral(text, at, atLine, i + 1, line, q)
    ensures at < |text|
    ensures text[i] == q ==>
      && UnitsFrom(text, at, atLine, y) == UnitsFrom(text, i + 1, line, y)
      && UnbalancedFrom(text, at, atLine, y) == UnbalancedFrom(text, i + 1, line, y)
  {
    hide Units, Unbalanced, Lex, UnitsFrom, UnbalancedFrom;
    assert text[i..][1..] == text[i + 1..];
    NewlinesGrow(text, at, i, i + 1);
    NewlinesOfOne(text, i);
    if text[i] == q {
      LiteralStep(text, at, atLine, i + 1, line, q, Closed, y);
    }
  }

  /** A line break cuts the literal off. */
  lemma CutStep(text: string, at: nat, atLine: nat, i: nat, line: nat, q: char, y: Syntax)
    requires IsSyntax(y) && i < |text| && InLiteral(text, at, atLine, i, line, q) && text[i] == '\n'
    ensures at < i
    ensures UnitsFrom(text, at, atLine, y) == UnitsFrom(text, i, line, y)
    ensures UnbalancedFrom(text, at, atLine, y)
         == (if HidesMarker(text[at..i], y) then [line] else []) + UnbalancedFrom(text, i, line, y)
  {
    hide Units, Unbalanced, Lex, UnitsFrom, UnbalancedFrom;
    LiteralStep(text, at, atLine, i, line, q, Cut, y);
  }

  /** So does the end of the text, and the backslash that would escape past it. */
  lemma EndStep(text: string, at: nat, atLine: nat, i: nat, line: nat, q: char, y: Syntax)
    requires IsSyntax(y) && i >= |text| && InLiteral(text, at, atLine, i, line, q)
    ensures at < |text|
    ensures UnitsFrom(text, at, atLine, y) == []
    ensures UnbalancedFrom(text, at, atLine, y) == if HidesMarker(text[at..|text|], y) then [line] else []
  {
    hide Units, Unbalanced, Lex, UnitsFrom, UnbalancedFrom;
    var end := QuoteBody(text[at + 1..], q).end;
    LiteralStep(text, at, atLine, |text|, line, q, end, y);
    NothingLeft(text, line, y);
  }

  lemma NewlineStep(text: string, i: nat, line: nat, y: Syntax)
    requires IsSyntax(y) && i < |text| && text[i] == '\n'
    ensures UnitsFrom(text, i, line, y) == UnitsFrom(text, i + 1, line + 1, y)
    ensures UnbalancedFrom(text, i, line, y) == UnbalancedFrom(text, i + 1, line + 1, y)
  {
    TokenStep(text, i, line, y);
    NewlinesOfOne(text, i);
  }

  lemma CodeStep(text: string, i: nat, line: nat, y: Syntax)
    requires IsSyntax(y) && i < |text| && text[i] != '\n' && !IsQuote(text[i])
    requires !(y.block.Some? && Starts(text[i..], y.block.value.open)) && !StartsLine(text[i..], y.line)
    ensures UnitsFrom(text, i, line, y) == UnitsFrom(text, i + 1, line, y)
    ensures UnbalancedFrom(text, i, line, y) == UnbalancedFrom(text, i + 1, line, y)
  {
    TokenStep(text, i, line, y);
    NewlinesOfOne(text, i);
  }

  function BlockEnd(text: string, i: nat, b: Block): (end: nat)
    requires i + |b.open| <= |text| && b.open != "" && b.close != ""
    ensures i < end <= |text|
  {
    match Find(text[i + |b.open|..], b.close)
    case None => |text|
    case Some(k) => i + |b.open| + k + |b.close|
  }

  lemma BlockToken(text: string, i: nat, y: Syntax)
    requires IsSyntax(y) && i < |text| && text[i] != '\n' && !IsQuote(text[i])
    requires y.block.Some? && Starts(text[i..], y.block.value.open)
    ensures i + |y.block.value.open| <= |text| && y.block.value.open != "" && y.block.value.close != ""
    ensures var t := NextToken(text[i..], y);
            t.BlockComment? && i + |t.text| == BlockEnd(text, i, y.block.value)
  {
    hide IsSyntax, Find, StartsLine;
    OpenIsMarker(y);
    assert text[i..][|y.block.value.open|..] == text[i + |y.block.value.open|..];
  }

  lemma BlockReports(text: string, closed: bool, line: nat, y: Syntax)
    requires IsSyntax(y)
    ensures UnitsOf(BlockComment(text, closed), line) == PartsAsUnits(Split(text), line)
    ensures UnbalancedOf(BlockComment(text, closed), line, y) == []
  {
  }

  lemma BlockStep(text: string, i: nat, line: nat, y: Syntax)
    requires IsSyntax(y) && i < |text| && text[i] != '\n' && !IsQuote(text[i])
    requires y.block.Some? && Starts(text[i..], y.block.value.open)
    ensures i + |y.block.value.open| <= |text| && y.block.value.open != "" && y.block.value.close != ""
    ensures var end := BlockEnd(text, i, y.block.value);
            var line' := line + Newlines(text[i..end]);
            && UnitsFrom(text, i, line, y) == PartsAsUnits(Split(text[i..end]), line) + UnitsFrom(text, end, line', y)
            && UnbalancedFrom(text, i, line, y) == UnbalancedFrom(text, end, line', y)
  {
    hide *;
    BlockToken(text, i, y);
    TokenStep(text, i, line, y);
    var t := NextToken(text[i..], y);
    BlockReports(t.text, t.closed, line, y);
  }

  lemma LineStep(text: string, i: nat, line: nat, end: nat, y: Syntax)
    requires IsSyntax(y) && i < |text| && text[i] != '\n' && !IsQuote(text[i])
    requires !(y.block.Some? && Starts(text[i..], y.block.value.open)) && StartsLine(text[i..], y.line)
    requires i <= end && Find(text[i..], "\n") == if end == |text| then None else Some(end - i)
    ensures i < end <= |text|
    ensures UnitsFrom(text, i, line, y) == [Unit(line, text[i..end])] + UnitsFrom(text, end, line, y)
    ensures UnbalancedFrom(text, i, line, y) == UnbalancedFrom(text, end, line, y)
  {
    TokenStep(text, i, line, y);
    NoNewlineBefore(text[i..], end - i);
    assert text[i..][..end - i] == text[i..end];
  }

  lemma {:induction false} NoNewlineBefore(s: string, k: nat)
    requires k <= |s|
    requires Find(s, "\n") == if k == |s| then None else Some(k)
    ensures Newlines(s[..k]) == 0
  {
    if k > 0 {
      NoNewlineBefore(s[1..], k - 1);
      assert s[..k][1..] == s[1..][..k - 1];
    }
  }

  method SwallowedAMarker(text: string, start: nat, stop: nat, y: Syntax) returns (r: bool)
    requires start <= stop <= |text| && IsSyntax(y)
    ensures r == HidesMarker(text[start..stop], y)
  {
    var region := text[start..stop];
    var markers := Markers(y);
    r := false;
    for k := 0 to |markers|
      invariant r == exists i :: 0 <= i < k && Contains(region, markers[i])
    {
      r := r || Contains(region, markers[k]);
    }
  }

  /** One unit per line a block comment spans. */
  method AppendParts(units: seq<Unit>, text: string, line: nat) returns (r: seq<Unit>)
    ensures r == units + PartsAsUnits(Split(text), line)
  {
    var parts := Split(text);
    r := units;
    for offset := 0 to |parts|
      invariant r == units + PartsAsUnits(parts, line)[..offset]
    {
      r := r + [Unit(line + offset, parts[offset])];
    }
  }

  /** `_comment_units`: the loop reports exactly what the tokens of the text say. */
  method CommentUnits(text: string, y: Syntax) returns (units: seq<Unit>, unbalanced: seq<nat>)
    requires IsSyntax(y)
    ensures units == Units(Lex(text, y), 1)
    ensures unbalanced == Unbalanced(Lex(text, y), 1, y)
  {
    hide *;
    units, unbalanced := [], [];
    var i: nat, line: nat, n := 0, 1, |text|;
    var quote, quoteStart: nat := None, 0;
    ghost var at: nat, atLine: nat := 0, 1;   // where the current token starts
    ghost var allUnits, allUnbalanced := UnitsFrom(text, 0, 1, y), UnbalancedFrom(text, 0, 1, y);
    WholeText(text, y);
    while i < n
      invariant at <= n
      invariant allUnits == units + UnitsFrom(text, at, atLine, y)
      invariant allUnbalanced == unbalanced + UnbalancedFrom(text, at, atLine, y)
      invariant quote.None? ==> i == at && line == atLine
      invariant quote.Some? ==> quoteStart == at && InLiteral(text, at, atLine, i, line, quote.value)
      decreases n - i
    {
      var ch := text[i];
      if ch == '\n' {
        if quote.Some? {
          CutStep(text, at, atLine, i, line, quote.value, y);
          var swallowed := SwallowedAMarker(text, quoteStart, i, y);
          if swallowed {
            unbalanced := unbalanced + [line];
          }
          quote := None;
        }
        NewlineStep(text, i, line, y);
        line := line + 1;
        i := i + 1;
        at, atLine := i, line;
      } else if quote.Some? {
        if ch == '\\' {
          EscapeStep(text, at, atLine, i, line, quote.value);
          if i + 1 < n && text[i + 1] == '\n' {
            line := line + 1;
          }
          i := i + 2;
        } else {
          BodyStep(text, at, atLine, i, line, quote.value, y);
          if ch == quote.value {
            quote := None;
            at, atLine := i + 1, line;
          }
          i := i + 1;
        }
      } else if IsQuote(ch) {
        OpenStep(text, i, line);
        quote, quoteStart := Some(ch), i;
        i := i + 1;
      } else if y.block.Some? && Starts(text[i..], y.block.value.open) {
        BlockStep(text, i, line, y);
        var end := BlockEnd(text, i, y.block.value);
        units := AppendParts(units, text[i..end], line);
        line := line + Newlines(text[i..end]);
        i := end;
        at, atLine := i, line;
      } else if StartsLine(text[i..], y.line) {
        var found := Find(text[i..], "\n");
        var end := if found.None? then n else i + found.value;
        LineStep(text, i, line, end, y);
        units := units + [Unit(line, text[i..end])];
        i := end;
        at, atLine := i, line;
      } else {
        CodeStep(text, i, line, y);
        i := i + 1;
        at, atLine := i, line;
      }
    }
    if quote.Some? {
      EndStep(text, at, atLine, i, line, quote.value, y);
      var swallowed := SwallowedAMarker(text, quoteStart, n, y);
      if swallowed {
        unbalanced := unbalanced + [line];
      }
    } else {
      NothingLeft(text, atLine, y);
    }
  }

  lemma WholeText(text: string, y: Syntax)
    requires IsSyntax(y)
    ensures UnitsFrom(text, 0, 1, y) == Units(Lex(text, y), 1)
    ensures UnbalancedFrom(text, 0, 1, y) == Unbalanced(Lex(text, y), 1, y)
  {
    assert text[0..] == text;
  }

  lemma NothingLeft(text: string, line: nat, y: Syntax)
    requires IsSyntax(y)
    ensures UnitsFrom(text, |text|, line, y) == [] && UnbalancedFrom(text, |text|, line, y) == []
  {
  }

}
