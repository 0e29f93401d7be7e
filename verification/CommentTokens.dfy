/**
 What the tokens of a text are, said without the lexer (tools/comment_check.py): where
 each kind of token starts and ends, and what is reported of it.
 */
module CommentTokens {
  import opened Strings
  import opened CommentScan
  import opened CommentScanProperties

  /** `p` stands at position `k`. */
  predicate Occurs(s: string, p: string, k: nat) {
    k + |p| <= |s| && s[k..k + |p|] == p
  }

  lemma OccursBehind(s: string, n: nat, p: string, k: nat)
    requires n <= |s|
    ensures Occurs(s[n..], p, k) <==> Occurs(s, p, n + k)
  {
    if n + k + |p| <= |s| {
      assert s[n..][k..k + |p|] == s[n + k..n + k + |p|];
    }
  }

  lemma StartsIsOccurs(s: string, p: string)
    ensures Starts(s, p) <==> Occurs(s, p, 0)
  {
  }

  lemma NothingOccurs(p: string, k: nat)
    requires p != ""
    ensures !Occurs("", p, k)
  {
  }

  lemma {:induction false} FindIsFirst(s: string, p: string)
    requires p != ""
    ensures match Find(s, p)
            case None => forall k: nat :: !Occurs(s, p, k)
            case Some(n) => Occurs(s, p, n) && forall k: nat :: k < n ==> !Occurs(s, p, k)
  {
    hide Occurs, Starts;
    StartsIsOccurs(s, p);
    if s == "" {
      forall k: nat ensures !Occurs(s, p, k) {
        NothingOccurs(p, k);
      }
    } else if !Occurs(s, p, 0) {
      FindIsFirst(s[1..], p);
      forall k: nat ensures Occurs(s[1..], p, k) <==> Occurs(s, p, 1 + k) {
        OccursBehind(s, 1, p, k);
      }
      forall k: nat | 0 < k ensures Occurs(s, p, k) <==> Occurs(s[1..], p, k - 1) {
        assert k == 1 + (k - 1);
      }
    }
  }

  // ----- literals ----------------------------------------------------------------------

  /** How many backslashes stand right before position `k`. */
  function Backslashes(s: string, k: nat): nat
    requires k <= |s|
  {
    if k == 0 || s[k - 1] != '\\' then 0 else 1 + Backslashes(s, k - 1)
  }

  /** An odd number of backslashes stands right before. */
  predicate Escaped(s: string, k: nat)
    requires k <= |s|
  {
    Backslashes(s, k) % 2 == 1
  }

  /** A quote or a line break that is not escaped: the body of a literal goes on to here and no further. */
  predicate Stops(s: string, k: nat, q: char) {
    k < |s| && !Escaped(s, k) && (s[k] == q || s[k] == '\n')
  }

  /** The first `n` characters of `s` are the body of a literal, with its closing quote if it has one. */
  ghost predicate IsBody(s: string, q: char, n: nat, end: End) {
    match end
    case Closed => 0 < n && Stops(s, n - 1, q) && s[n - 1] == q && forall k: nat :: k < n - 1 ==> !Stops(s, k, q)
    case Cut =>
      && (forall k: nat :: k < n ==> !Stops(s, k, q))
      && (if n < |s| then s[n] == '\n' && Stops(s, n, q) else n == |s| && !Escaped(s, n))
    case Dangling => n == |s| && Escaped(s, n) && forall k: nat :: k < n ==> !Stops(s, k, q)
  }

  /** Whether a position is escaped does not depend on a whole character, or escape, in front. */
  lemma {:induction false} EscapedLater(s: string, n: nat, k: nat)
    requires n <= |s| && n + k <= |s|
    requires if n == 2 then s[0] == '\\' else n == 1 && s[0] != '\\'
    ensures Escaped(s, n + k) <==> Escaped(s[n..], k)
  {
    if k == 0 {
      assert n == 2 && s[1] == '\\' ==> Backslashes(s, 2) == 1 + Backslashes(s, 1);
      assert n == 2 ==> Backslashes(s, 1) == 1 + Backslashes(s, 0);
    } else {
      EscapedLater(s, n, k - 1);
      assert s[n..][k - 1] == s[n + k - 1];
    }
  }

  lemma StopsLater(s: string, n: nat, k: nat, q: char)
    requires n <= |s|
    requires if n == 2 then s[0] == '\\' else n == 1 && s[0] != '\\'
    ensures Stops(s, n + k, q) <==> Stops(s[n..], k, q)
  {
    if n + k < |s| {
      EscapedLater(s, n, k);
    }
  }

  lemma {:induction false} QuoteBodyIsBody(s: string, q: char)
    requires IsQuote(q)
    ensures var b := QuoteBody(s, q); IsBody(s, q, b.length, b.end)
  {
    hide Escaped;
    var b := QuoteBody(s, q);
    NotEscapedAtFirst(s);
    if s != "" && s[0] != '\n' && s != "\\" && s[0] != q {
      var n := if s[0] == '\\' then 2 else 1;
      QuoteBodyIsBody(s[n..], q);
      BodyLater(s, q, n, b.length - n, b.end);
    } else if s == "\\" {
      assert Escaped(s, 1) by { OneBackslash(); }
    }
  }

  lemma OneBackslash()
    ensures Escaped("\\", 1)
  {
    assert Backslashes("\\", 1) == 1 + Backslashes("\\", 0);
  }

  lemma NotEscapedAtFirst(s: string)
    ensures !Escaped(s, 0)
  {
  }

  /** A body goes on behind a character, or an escape, that does not stop it. */
  lemma BodyLater(s: string, q: char, n: nat, m: nat, end: End)
    requires IsQuote(q) && n <= |s| && s != "" && s[0] != '\n' && s[0] != q
    requires if n == 2 then s[0] == '\\' else n == 1 && s[0] != '\\'
    requires IsBody(s[n..], q, m, end)
    ensures IsBody(s, q, n + m, end)
  {
    forall k: nat ensures Stops(s, n + k, q) <==> Stops(s[n..], k, q) {
      StopsLater(s, n, k, q);
    }
    if n + m <= |s| {
      EscapedLater(s, n, m);
    }
    FirstGoesOn(s, q, n);
    hide Stops, Escaped;
    forall k: nat | n <= k ensures Stops(s, k, q) <==> Stops(s[n..], k - n, q) {
      assert k == n + (k - n);
    }
  }

  lemma FirstGoesOn(s: string, q: char, n: nat)
    requires IsQuote(q) && n <= |s| && s != "" && s[0] != '\n' && s[0] != q
    requires if n == 2 then s[0] == '\\' else n == 1 && s[0] != '\\'
    ensures forall k: nat :: k < n ==> !Stops(s, k, q)
  {
    assert Backslashes(s, 1) == if s[0] == '\\' then 1 else 0;
  }

  lemma BodyIsUnique(s: string, q: char, m: nat, d: End, n: nat, e: End)
    requires IsQuote(q) && IsBody(s, q, m, d) && IsBody(s, q, n, e)
    ensures m == n && d == e
  {
    hide Escaped;
    if d == Closed && m - 1 < n {
      assert Stops(s, m - 1, q);
    }
    if e == Closed && n - 1 < m {
      assert Stops(s, n - 1, q);
    }
  }

  // ----- tokens ------------------------------------------------------------------------

  predicate MarkerAt(s: string, markers: seq<string>) {
    exists i :: 0 <= i < |markers| && Occurs(s, markers[i], 0)
  }

  predicate BlockAt(s: string, y: Syntax) {
    y.block.Some? && Occurs(s, y.block.value.open, 0)
  }

  /** `t` is what the scanner's rules make of the beginning of `s`. */
  ghost predicate AsWritten(t: Token, s: string, y: Syntax) {
    && s != "" && t.text != "" && Occurs(s, t.text, 0)
    && if s[0] == '\n' then t == Newline("\n")
       else if IsQuote(s[0]) then t.Quoted? && IsBody(s[1..], s[0], |t.text| - 1, t.end)
       else if BlockAt(s, y) then t.BlockComment? && BlockIs(t.text, t.closed, s, y.block.value)
       else if MarkerAt(s, y.line) then t.LineComment? && LineIs(t.text, s)
       else t.Code? && |t.text| == 1
  }

  /**
   A block comment ends with the first close marker behind its open marker, or else with
   the text.
   */
  ghost predicate BlockIs(comment: string, closed: bool, s: string, b: Block) {
    && |b.open| <= |comment|
    && (forall k: nat :: |b.open| <= k < |comment| - |b.close| ==> !Occurs(comment, b.close, k))
    && (closed <==> |b.open| + |b.close| <= |comment| && Occurs(comment, b.close, |comment| - |b.close|))
    && (!closed ==> comment == s && forall k: nat :: |b.open| <= k ==> !Occurs(comment, b.close, k))
  }

  /** A line comment ends before the first line break, or else with the text. */
  predicate LineIs(comment: string, s: string) {
    '\n' !in comment && |comment| <= |s| && (|comment| < |s| ==> s[|comment|] == '\n')
  }

  lemma OccursIn(s: string, n: nat, p: string, k: nat)
    requires k + |p| <= n <= |s|
    ensures Occurs(s[..n], p, k) <==> Occurs(s, p, k)
  {
    assert s[..n][k..k + |p|] == s[k..k + |p|];
  }

  lemma BlockReads(s: string, b: Block)
    requires Occurs(s, b.open, 0) && b.open != "" && b.close != ""
    ensures match Find(s[|b.open|..], b.close)
            case None => BlockIs(s, false, s, b)
            case Some(k) => BlockIs(s[..|b.open| + k + |b.close|], true, s, b)
  {
    var o := |b.open|;
    hide Occurs, Find;
    assert o <= |s| by { OccursFits(s, b.open, 0); }
    FindIsFirst(s[o..], b.close);
    forall k: nat ensures Occurs(s[o..], b.close, k) <==> Occurs(s, b.close, o + k) {
      OccursBehind(s, o, b.close, k);
    }
    match Find(s[o..], b.close)
    case None =>
      forall k: nat | o <= k ensures !Occurs(s, b.close, k) {
        assert !Occurs(s[o..], b.close, k - o);
      }
    case Some(n) =>
      var end := o + n + |b.close|;
      forall k: nat | o <= k <= o + n ensures Occurs(s[..end], b.close, k) <==> k == o + n {
        OccursIn(s, end, b.close, k);
        assert Occurs(s[o..], b.close, k - o) <==> Occurs(s, b.close, o + (k - o));
      }
  }

  lemma OccursFits(s: string, p: string, k: nat)
    requires Occurs(s, p, k)
    ensures k + |p| <= |s|
  {
  }

  lemma LineReads(s: string)
    requires s != ""
    ensures match Find(s, "\n")
            case None => LineIs(s, s)
            case Some(k) => LineIs(s[..k], s)
  {
    FindIsFirst(s, "\n");
    forall k: nat | k < |s| ensures Occurs(s, "\n", k) <==> s[k] == '\n' {
      assert s[k..k + 1] == [s[k]];
    }
  }

  lemma LineStarts(s: string, y: Syntax)
    ensures StartsLine(s, y.line) <==> MarkerAt(s, y.line)
  {
    hide Starts, Occurs;
    forall p: string ensures Starts(s, p) <==> Occurs(s, p, 0) {
      StartsIsOccurs(s, p);
    }
    if StartsLine(s, y.line) {
      var i :| 0 <= i < |y.line| && Starts(s, y.line[i]);
      assert Occurs(s, y.line[i], 0);
    }
    if MarkerAt(s, y.line) {
      var i :| 0 <= i < |y.line| && Occurs(s, y.line[i], 0);
      assert Starts(s, y.line[i]);
    }
  }

  lemma NextTokenIsAsWritten(s: string, y: Syntax)
    requires IsSyntax(y) && s != ""
    ensures AsWritten(NextToken(s, y), s, y)
  {
    hide MarkerAt, StartsLine, BlockIs, LineIs, IsBody, QuoteBody, IsSyntax;
    LineStarts(s, y);
    if s[0] != '\n' && IsQuote(s[0]) {
      QuoteBodyIsBody(s[1..], s[0]);
    } else if s[0] != '\n' && BlockAt(s, y) {
      OpenIsMarker(y);
      StartsIsOccurs(s, y.block.value.open);
      BlockReads(s, y.block.value);
    } else if s[0] != '\n' {
      if y.block.Some? { StartsIsOccurs(s, y.block.value.open); }
      LineReads(s);
    }
  }

  lemma BlockIsUnique(a: string, c: bool, b: string, d: bool, s: string, y: Block)
    requires Occurs(s, a, 0) && Occurs(s, b, 0) && BlockIs(a, c, s, y) && BlockIs(b, d, s, y) && y.close != ""
    ensures a == b && c == d
  {
    assert a == s[..|a|] && b == s[..|b|];
    var n := |y.close|;
    if c && |a| < |b| {
      OccursIn(s, |a|, y.close, |a| - n);
      OccursIn(s, |b|, y.close, |a| - n);
    }
    if d && |b| < |a| {
      OccursIn(s, |b|, y.close, |b| - n);
      OccursIn(s, |a|, y.close, |b| - n);
    }
  }

  lemma LineIsUnique(a: string, b: string, s: string)
    requires Occurs(s, a, 0) && Occurs(s, b, 0) && LineIs(a, s) && LineIs(b, s)
    ensures a == b
  {
    assert a == s[..|a|] && b == s[..|b|];
  }

  /** The rules leave one token. */
  lemma AsWrittenIsUnique(t: Token, u: Token, s: string, y: Syntax)
    requires IsSyntax(y) && AsWritten(t, s, y) && AsWritten(u, s, y)
    ensures t == u
  {
    hide MarkerAt, BlockAt, BlockIs, LineIs, IsBody, IsSyntax;
    assert t.text == s[..|t.text|] && u.text == s[..|u.text|];
    if s[0] != '\n' {
      if IsQuote(s[0]) {
        BodyIsUnique(s[1..], s[0], |t.text| - 1, t.end, |u.text| - 1, u.end);
      } else if BlockAt(s, y) {
        assert y.block.Some? by { BlockIsThere(s, y); }
        OpenIsMarker(y);
        BlockIsUnique(t.text, t.closed, u.text, u.closed, s, y.block.value);
      } else if MarkerAt(s, y.line) {
        LineIsUnique(t.text, u.text, s);
      }
    }
  }

  lemma BlockIsThere(s: string, y: Syntax)
    requires BlockAt(s, y)
    ensures y.block.Some?
  {
  }

  /** A reading of a text: its tokens, each as written at its place, with nothing left. */
  ghost predicate Reads(ts: seq<Token>, s: string, y: Syntax)
    decreases |ts|
  {
    if ts == [] then s == ""
    else AsWritten(ts[0], s, y) && Reads(ts[1..], s[|ts[0].text|..], y)
  }

  lemma AsWrittenFits(t: Token, s: string, y: Syntax)
    requires AsWritten(t, s, y)
    ensures s != "" && 0 < |t.text| <= |s|
  {
  }

  /** The lexer's tokens are the one reading of a text. */
  lemma {:induction false} LexIsTheReading(ts: seq<Token>, s: string, y: Syntax)
    requires IsSyntax(y)
    ensures Reads(ts, s, y) <==> ts == Lex(s, y)
    decreases |s|
  {
    hide AsWritten, NextToken, IsSyntax;
    if s != "" {
      var t := NextToken(s, y);
      NextTokenIsAsWritten(s, y);
      LexIsTheReading(Lex(s, y)[1..], s[|t.text|..], y);
      if ts != [] {
        if AsWritten(ts[0], s, y) {
          AsWrittenIsUnique(ts[0], t, s, y);
          LexIsTheReading(ts[1..], s[|t.text|..], y);
          assert ts == [ts[0]] + ts[1..];
        }
      }
    } else if ts != [] {
      if AsWritten(ts[0], s, y) {
        AsWrittenFits(ts[0], s, y);
      }
    }
  }

  /** Every token the lexer finds is as written at its place. */
  lemma {:induction false} TokensAreAsWritten(s: string, n: nat, y: Syntax)
    requires IsSyntax(y) && n < |Lex(s, y)|
    ensures |Flat(Lex(s, y)[..n])| <= |s|
    ensures AsWritten(Lex(s, y)[n], s[|Flat(Lex(s, y)[..n])|..], y)
    decreases n
  {
    hide AsWritten, NextToken, IsSyntax;
    var t, ts := NextToken(s, y), Lex(s, y);
    NextTokenIsAsWritten(s, y);
    if n == 0 {
      assert ts[..0] == [] && s[0..] == s;
    } else {
      var rest := s[|t.text|..];
      TokensAreAsWritten(rest, n - 1, y);
      assert ts[..n][0] == t && ts[..n][1..] == Lex(rest, y)[..n - 1];
      var k := |Flat(Lex(rest, y)[..n - 1])|;
      assert rest[k..] == s[|t.text| + k..];
    }
  }

  /** A block comment among the tokens ends at its first close marker, or at the end of the text without one. */
  lemma BlockCommentsEnd(s: string, n: nat, y: Syntax)
    requires IsSyntax(y) && n < |Lex(s, y)| && Lex(s, y)[n].BlockComment?
    ensures y.block.Some? && y.block.value.close != ""
    ensures var t, open, close := Lex(s, y)[n], y.block.value.open, y.block.value.close;
            var end := |Flat(Lex(s, y)[..n])| + |t.text|;
            && end <= |s| && s[end - |t.text|..end] == t.text && Occurs(t.text, open, 0)
            && (forall k: nat :: |open| <= k < |t.text| - |close| ==> !Occurs(t.text, close, k))
            && (t.closed <==> |open| + |close| <= |t.text| && Occurs(t.text, close, |t.text| - |close|))
            && (!t.closed ==> end == |s| && forall k: nat :: |open| <= k ==> !Occurs(t.text, close, k))
  {
    TokensAreAsWritten(s, n, y);
    hide NextToken, IsSyntax, Lex, Flat;
    var t := Lex(s, y)[n];
    var at := |Flat(Lex(s, y)[..n])|;
    BlockIsThere(s[at..], y);
    OpenIsMarker(y);
    OccursBehind(s, at, t.text, 0);
    OccursIn(s[at..], |t.text|, y.block.value.open, 0);
  }

  // ----- reports -------------------------------------------------------------------------

  /** `"\n".join(parts)`. */
  function JoinLines(parts: seq<string>): string {
    if parts == [] then ""
    else if |parts| == 1 then parts[0]
    else parts[0] + ("\n" + JoinLines(parts[1..]))
  }

  lemma {:induction false} JoinOfSplit(s: string)
    ensures JoinLines(Split(s)) == s && forall j :: 0 <= j < |Split(s)| ==> '\n' !in Split(s)[j]
  {
    if s != "" {
      JoinOfSplit(s[1..]);
      var rest := Split(s[1..]);
      if s[0] == '\n' {
        assert ([""] + rest)[1..] == rest && "" + ("\n" + s[1..]) == s;
      } else {
        var first := [s[0]] + rest[0];
        assert ([first] + rest[1..])[1..] == rest[1..];
        assert s == [s[0]] + s[1..];
        FirstLonger(s[0], rest);
      }
    }
  }

  lemma FirstLonger(c: char, parts: seq<string>)
    requires parts != []
    ensures JoinLines([[c] + parts[0]] + parts[1..]) == [c] + JoinLines(parts)
  {
    var more := [[c] + parts[0]] + parts[1..];
    assert more[1..] == parts[1..];
  }

  function Texts(us: seq<Unit>): (texts: seq<string>)
    ensures |texts| == |us| && forall j :: 0 <= j < |us| ==> texts[j] == us[j].text
  {
    seq(|us|, j requires 0 <= j < |us| => us[j].text)
  }

  /** The units of one token are its lines, numbered on from the line it starts on. */
  lemma UnitsOfToken(t: Token, line: nat)
    ensures var us := UnitsOf(t, line);
            if t.LineComment? then us == [Unit(line, t.text)]
            else if t.BlockComment? then
              && JoinLines(Texts(us)) == t.text
              && forall j :: 0 <= j < |us| ==> us[j].line == line + j && '\n' !in us[j].text
            else us == []
  {
    if t.BlockComment? {
      JoinOfSplit(t.text);
      assert Texts(UnitsOf(t, line)) == Split(t.text);
    }
  }

  /** A marker of the language stands somewhere in the region. */
  ghost predicate MarkerIn(region: string, y: Syntax) {
    exists i, k: nat :: 0 <= i < |Markers(y)| && Occurs(region, Markers(y)[i], k)
  }

  lemma HidesIsMarkerIn(region: string, y: Syntax)
    requires IsSyntax(y)
    ensures HidesMarker(region, y) <==> MarkerIn(region, y)
  {
    forall i | 0 <= i < |Markers(y)|
      ensures Contains(region, Markers(y)[i]) <==> exists k: nat :: Occurs(region, Markers(y)[i], k)
    {
      FindIsFirst(region, Markers(y)[i]);
    }
    hide Contains, Occurs, Markers;
    if MarkerIn(region, y) {
      var i, k: nat :| 0 <= i < |Markers(y)| && Occurs(region, Markers(y)[i], k);
      assert Contains(region, Markers(y)[i]);
    }
    if HidesMarker(region, y) {
      var i :| 0 <= i < |Markers(y)| && Contains(region, Markers(y)[i]);
      var k: nat :| Occurs(region, Markers(y)[i], k);
    }
  }

  /** A literal that is not closed is reported with its last line iff a marker stands in it. */
  lemma UnbalancedOfToken(t: Token, line: nat, y: Syntax)
    requires IsSyntax(y)
    ensures UnbalancedOf(t, line, y) ==
            if t.Quoted? && t.end != Closed && MarkerIn(t.text, y) then [line + Newlines(t.text)] else []
  {
    HidesIsMarkerIn(t.text, y);
  }

  /** What is reported of a text is what is reported of its tokens, each at its line. */
  lemma ReportsOfTokens(before: seq<Token>, t: Token, after: seq<Token>, y: Syntax)
    requires IsSyntax(y)
    ensures var ts, line := before + [t] + after, 1 + Newlines(Flat(before));
            && Units(ts, 1) == Units(before, 1) + UnitsOf(t, line) + Units(after, line + Newlines(t.text))
            && Unbalanced(ts, 1, y) ==
                 Unbalanced(before, 1, y) + UnbalancedOf(t, line, y) + Unbalanced(after, line + Newlines(t.text), y)
  {
    hide UnitsOf, UnbalancedOf, Newlines, Flat, IsSyntax;
    assert before + [t] + after == before + ([t] + after);
    ReportsConcat(before, [t] + after, 1, y);
    assert ([t] + after)[1..] == after;
  }

  /** The scanner reports exactly the comments of the text's one reading, and the literals that hide a marker. */
  lemma ScanReportsTheComments(text: string, y: Syntax, before: seq<Token>, t: Token, after: seq<Token>)
    requires IsSyntax(y) && Reads(before + [t] + after, text, y)
    ensures var line := 1 + Newlines(Flat(before));
            var units, unbalanced := Units(Lex(text, y), 1), Unbalanced(Lex(text, y), 1, y);
            && units == Units(before, 1) + UnitsOf(t, line) + Units(after, line + Newlines(t.text))
            && unbalanced ==
                 Unbalanced(before, 1, y) + (if t.Quoted? && t.end != Closed && MarkerIn(t.text, y)
                                             then [line + Newlines(t.text)] else [])
                 + Unbalanced(after, line + Newlines(t.text), y)
            && (t.LineComment? ==> UnitsOf(t, line) == [Unit(line, t.text)])
            && (t.BlockComment? ==> JoinLines(Texts(UnitsOf(t, line))) == t.text)
            && (forall j :: 0 <= j < |UnitsOf(t, line)| ==> UnitsOf(t, line)[j].line == line + j)
            && (!t.LineComment? && !t.BlockComment? ==> UnitsOf(t, line) == [])
  {
    hide UnitsOf, UnbalancedOf, Newlines, Flat, IsSyntax, Reads, Lex, Units, Unbalanced, MarkerIn, JoinLines, Texts;
    LexIsTheReading(before + [t] + after, text, y);
    ReportsOfTokens(before, t, after, y);
    UnitsOfToken(t, 1 + Newlines(Flat(before)));
    UnbalancedOfToken(t, 1 + Newlines(Flat(before)), y);
  }
}
