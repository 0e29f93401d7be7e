/**
 What the scanner's documentation promises (tools/comment_check.py), proved of
 the tokens it reports: it resynchronises at line breaks, it misses nothing in
 silence, and what it reports is on the lines it names.
 */
module CommentScanProperties {
  import opened Strings
  import opened CommentScan

  // ----- resynchronising at a line break ---------------------------------------------

  /** No token of the text would have read on past its end: no dangling escape, no open block. */
  ghost predicate Complete(ts: seq<Token>) {
    forall k :: 0 <= k < |ts| ==> Whole(ts[k])
  }

  predicate Whole(t: Token) {
    !(t.Quoted? && t.end == Dangling) && !(t.BlockComment? && !t.closed)
  }

  lemma DropAcross(a: string, b: string, k: nat)
    requires k <= |a|
    ensures (a + "\n" + b)[k..] == a[k..] + "\n" + b
  {
  }

  lemma StartsAcross(s: string, r: string, m: string)
    requires s != "" && IsMarker(m)
    ensures Starts(s + "\n" + r, m) <==> Starts(s, m)
  {
    var l := s + "\n" + r;
    if |m| > |s| {
      StartsNoBreak(l, m, |s|);
    } else {
      assert l[..|m|] == s[..|m|];
    }
  }

  lemma StartsNoBreak(l: string, m: string, k: nat)
    requires IsMarker(m) && k < |m| && k < |l| && l[k] == '\n'
    ensures !Starts(l, m)
  {
    if |m| <= |l| {
      assert l[..|m|][k] == l[k];
    }
  }

  lemma {:induction false} FindAcross(s: string, r: string, p: string)
    requires IsMarker(p) && Find(s, p).Some?
    ensures Find(s + "\n" + r, p) == Find(s, p)
  {
    assert s != "";
    StartsAcross(s, r, p);
    DropAcross(s, r, 1);
    if !Starts(s, p) {
      FindAcross(s[1..], r, p);
    }
  }

  lemma {:induction false} FindBreakAcross(s: string, r: string)
    ensures Find(s + "\n" + r, "\n") == match Find(s, "\n") case None => Some(|s|) case Some(k) => Some(k)
  {
    var l := s + "\n" + r;
    if s == "" {
      assert l[..1] == "\n";
    } else {
      assert l[..1] == s[..1];
      DropAcross(s, r, 1);
      FindBreakAcross(s[1..], r);
    }
  }

  lemma {:induction false} QuoteBodyAcross(s: string, r: string, q: char)
    requires QuoteBody(s, q).end != Dangling
    ensures QuoteBody(s + "\n" + r, q) == QuoteBody(s, q)
  {
    var l := s + "\n" + r;
    if s == "" {
      assert l[0] == '\n';
    } else if s[0] != '\n' && s[0] == '\\' {
      if |s| > 1 { DropAcross(s, r, 2); }
      QuoteBodyAcross(s[2..], r, q);
    } else if s[0] != '\n' && s[0] != q {
      DropAcross(s, r, 1);
      QuoteBodyAcross(s[1..], r, q);
    }
  }

  lemma TakeAcross(a: string, b: string, k: nat)
    requires k <= |a|
    ensures (a + "\n" + b)[..k] == a[..k]
  {
  }

  /** A whole token is the first one whatever follows on later lines. */
  lemma NextTokenAcross(s: string, r: string, y: Syntax)
    requires s != "" && IsSyntax(y) && Whole(NextToken(s, y))
    ensures NextToken(s + "\n" + r, y) == NextToken(s, y)
  {
    hide IsSyntax, Starts, StartsLine, Find, QuoteBody;
    DropAcross(s, r, 1);
    TakeAcross(s, r, 1);
    assert (s + "\n" + r)[0] == s[0];
    if IsQuote(s[0]) {
      QuoteBodyAcross(s[1..], r, s[0]);
      TakeAcross(s, r, 1 + QuoteBody(s[1..], s[0]).length);
    } else if s[0] != '\n' {
      StartsLineAcross(s, r, y);
      BlockAcross(s, r, y);
      FindBreakAcross(s, r);
      TakeAcross(s, r, match Find(s, "\n") case None => |s| case Some(k) => k);
    }
  }

  lemma BlockAcross(s: string, r: string, y: Syntax)
    requires s != "" && IsSyntax(y)
    ensures y.block.Some? ==>
      var l, open, close := s + "\n" + r, y.block.value.open, y.block.value.close;
      && open != "" && close != ""
      && (Starts(l, open) <==> Starts(s, open))
      && (Starts(s, open) ==>
        && |open| <= |s| && |open| <= |l|
        && (Find(s[|open|..], close).Some? ==>
          && Find(l[|open|..], close) == Find(s[|open|..], close)
          && var end := |open| + Find(s[|open|..], close).value + |close|;
             end <= |s| && l[..end] == s[..end]))
  {
    if y.block.Some? {
      OpenIsMarker(y);
      var open, close := y.block.value.open, y.block.value.close;
      StartsAcross(s, r, open);
      if Starts(s, open) {
        DropAcross(s, r, |open|);
        if Find(s[|open|..], close).Some? {
          FindAcross(s[|open|..], r, close);
          TakeAcross(s, r, |open| + Find(s[|open|..], close).value + |close|);
        }
      }
    }
  }

  lemma StartsLineAcross(s: string, r: string, y: Syntax)
    requires s != "" && IsSyntax(y)
    ensures StartsLine(s + "\n" + r, y.line) <==> StartsLine(s, y.line)
  {
    forall i | 0 <= i < |y.line|
      ensures Starts(s + "\n" + r, y.line[i]) <==> Starts(s, y.line[i])
    {
      LineIsMarker(y, i);
      StartsAcross(s, r, y.line[i]);
    }
  }

  lemma LexFirst(s: string, y: Syntax)
    requires IsSyntax(y) && s != ""
    ensures var t := NextToken(s, y);
            0 < |t.text| <= |s| && t.text == s[..|t.text|] && Lex(s, y) == [t] + Lex(s[|t.text|..], y)
  {
  }

  lemma DropTwice(a: string, k: nat, n: nat)
    requires k + n <= |a|
    ensures a[k..][n..] == a[k + n..]
  {
  }

  /** Tokens before one that is cut short stay as they are when lines are added. */
  lemma {:induction false} LexAcross(a: string, b: string, before: seq<Token>, after: seq<Token>, y: Syntax)
    requires IsSyntax(y) && Lex(a, y) == before + after && Complete(before)
    ensures |Flat(before)| <= |a|
    ensures Lex(a + "\n" + b, y) == before + Lex(a[|Flat(before)|..] + "\n" + b, y)
    decreases before
  {
    hide *;
    FlatOfNone();
    if before == [] {
      assert a[0..] == a && before + after == after;
      assert before + Lex(a + "\n" + b, y) == Lex(a + "\n" + b, y);
    } else {
      LexAcrossOne(a, b, before, after, y);
      var t, rest := before[0], before[1..];
      var a' := a[|t.text|..];
      LexAcross(a', b, rest, after, y);
      DropTwice(a, |t.text|, |Flat(rest)|);
      ConsCat(t, rest, Lex(a'[|Flat(rest)|..] + "\n" + b, y), before);
    }
  }

  lemma FlatOfNone()
    ensures Flat([]) == ""
  {
  }

  lemma ConsCat<T>(t: T, rest: seq<T>, more: seq<T>, whole: seq<T>)
    requires whole == [t] + rest
    ensures [t] + (rest + more) == whole + more
  {
  }

  lemma LexAcrossOne(a: string, b: string, before: seq<Token>, after: seq<Token>, y: Syntax)
    requires IsSyntax(y) && Lex(a, y) == before + after && Complete(before) && before != []
    ensures var t := before[0];
            && |t.text| <= |a| && Complete(before[1..])
            && Flat(before) == t.text + Flat(before[1..])
            && Lex(a[|t.text|..], y) == before[1..] + after
            && Lex(a + "\n" + b, y) == [t] + Lex(a[|t.text|..] + "\n" + b, y)
  {
    hide *;
    var t := before[0];
    LexOfNone(y);
    LexFirst(a, y);
    assert Lex(a, y)[0] == t;
    CompleteParts(before);
    NextTokenAcross(a, b, y);
    LexFirst(a + "\n" + b, y);
    DropAcross(a, b, |t.text|);
    assert Lex(a, y)[1..] == before[1..] + after;
  }

  lemma LexOfNone(y: Syntax)
    requires IsSyntax(y)
    ensures Lex("", y) == []
  {
  }

  lemma CompleteParts(ts: seq<Token>)
    requires Complete(ts) && ts != []
    ensures Whole(ts[0]) && Complete(ts[1..]) && Flat(ts) == ts[0].text + Flat(ts[1..])
  {
    hide Whole;
    assert forall k :: 0 <= k < |ts[1..]| ==> ts[1..][k] == ts[k + 1];
  }

  /** The tokens of a complete text, a line break, and the tokens of what follows. */
  lemma LexAtLineBreak(a: string, b: string, y: Syntax)
    requires IsSyntax(y) && Complete(Lex(a, y))
    ensures Lex(a + "\n" + b, y) == Lex(a, y) + [Newline("\n")] + Lex(b, y)
  {
    hide *;
    var ts := Lex(a, y);
    assert ts == ts + [];
    LexAcross(a, b, ts, [], y);
    LexIsLossless(a, y);
    assert a[|a|..] + "\n" + b == "\n" + b;
    LexOfBreak(b, y);
    assert ts + ([Newline("\n")] + Lex(b, y)) == ts + [Newline("\n")] + Lex(b, y);
  }

  lemma LexOfBreak(b: string, y: Syntax)
    requires IsSyntax(y)
    ensures Lex("\n" + b, y) == [Newline("\n")] + Lex(b, y)
  {
    var l := "\n" + b;
    assert l[0] == '\n' && l[1..] == b;
    assert NextToken(l, y) == Newline("\n");
  }

  lemma {:induction false} UnitsConcat(ts: seq<Token>, us: seq<Token>, line: nat)
    ensures Units(ts + us, line) == Units(ts, line) + Units(us, line + Newlines(Flat(ts)))
  {
    hide UnitsOf;
    if ts == [] {
      assert ts + us == us;
    } else {
      assert (ts + us)[1..] == ts[1..] + us;
      NewlinesConcat(ts[0].text, Flat(ts[1..]));
      UnitsConcat(ts[1..], us, line + Newlines(ts[0].text));
    }
  }

  lemma {:induction false} UnbalancedConcat(ts: seq<Token>, us: seq<Token>, line: nat, y: Syntax)
    requires IsSyntax(y)
    ensures Unbalanced(ts + us, line, y) == Unbalanced(ts, line, y) + Unbalanced(us, line + Newlines(Flat(ts)), y)
  {
    hide UnbalancedOf, IsSyntax;
    if ts == [] {
      assert ts + us == us;
    } else {
      assert (ts + us)[1..] == ts[1..] + us;
      NewlinesConcat(ts[0].text, Flat(ts[1..]));
      UnbalancedConcat(ts[1..], us, line + Newlines(ts[0].text), y);
    }
  }

  lemma ReportsConcat(ts: seq<Token>, us: seq<Token>, line: nat, y: Syntax)
    requires IsSyntax(y)
    ensures var line' := line + Newlines(Flat(ts));
            && Units(ts + us, line) == Units(ts, line) + Units(us, line')
            && Unbalanced(ts + us, line, y) == Unbalanced(ts, line, y) + Unbalanced(us, line', y)
  {
    hide *;
    UnitsConcat(ts, us, line);
    UnbalancedConcat(ts, us, line, y);
  }

  /** Scanning `a`, a line break and `b` reports what scanning `a` and then `b`, lines counted on, does. */
  ghost predicate Resynchronises(a: string, b: string, y: Syntax)
    requires IsSyntax(y)
  {
    var whole, ts, us := Lex(a + "\n" + b, y), Lex(a, y), Lex(b, y);
    var line := 2 + Newlines(a);
    && Units(whole, 1) == Units(ts, 1) + Units(us, line)
    && Unbalanced(whole, 1, y) == Unbalanced(ts, 1, y) + Unbalanced(us, line, y)
  }

  lemma CompleteResynchronises(a: string, b: string, y: Syntax)
    requires IsSyntax(y) && Complete(Lex(a, y))
    ensures Resynchronises(a, b, y)
  {
    hide NextToken, IsSyntax, Lex, Units, Unbalanced, Newlines, Flat, Complete;
    var ts, us := Lex(a, y), Lex(b, y);
    LexAtLineBreak(a, b, y);
    LexIsLossless(a, y);
    assert ts + [Newline("\n")] + us == ts + ([Newline("\n")] + us);
    ReportsConcat(ts, [Newline("\n")] + us, 1, y);
    LineBreakReports(us, 1 + Newlines(a), y);
  }

  lemma LineBreakReports(us: seq<Token>, line: nat, y: Syntax)
    requires IsSyntax(y)
    ensures Units([Newline("\n")] + us, line) == Units(us, line + 1)
    ensures Unbalanced([Newline("\n")] + us, line, y) == Unbalanced(us, line + 1, y)
  {
    assert Newlines("\n") == 1 by { assert "\n"[1..] == ""; }
    assert ([Newline("\n")] + us)[1..] == us;
  }

  /**
   The scanner resynchronises at the line break after `a`, whatever follows, iff
   every token of `a` is complete. What follows an incomplete one can always tell.
   */
  lemma ResynchronisesIffComplete(a: string, y: Syntax)
    requires IsSyntax(y)
    ensures Complete(Lex(a, y)) <==> forall b :: Resynchronises(a, b, y)
  {
    if Complete(Lex(a, y)) {
      forall b ensures Resynchronises(a, b, y) {
        CompleteResynchronises(a, b, y);
      }
    } else {
      var b := IncompleteTells(a, y);
    }
  }

  /** Only the last token can be incomplete, and it reaches the end. */
  lemma {:induction false} IncompleteIsLast(a: string, y: Syntax) returns (before: seq<Token>, n: nat)
    requires IsSyntax(y) && !Complete(Lex(a, y))
    ensures n < |a| && n == |Flat(before)| && Complete(before)
    ensures Lex(a, y) == before + [NextToken(a[n..], y)]
    ensures !Whole(NextToken(a[n..], y)) && NextToken(a[n..], y).text == a[n..]
    decreases |a|
  {
    hide *;
    NoneIsComplete();
    LexOfNone(y);
    LexFirst(a, y);
    var t := NextToken(a, y);
    var a' := a[|t.text|..];
    if !Whole(t) {
      IncompleteReachesEnd(a, y);
      before, n := [], 0;
      assert a[0..] == a && a' == "";
    } else {
      IncompleteLater(t, Lex(a', y));
      before, n := IncompleteIsLast(a', y);
      DropTwice(a, |t.text|, n);
      FlatAfter(t, before);
      ConsCat(t, before, [NextToken(a'[n..], y)], [t] + before);
      before, n := [t] + before, |t.text| + n;
    }
  }

  lemma NoneIsComplete()
    ensures Complete([]) && Flat([]) == ""
  {
  }

  lemma IncompleteLater(t: Token, ts: seq<Token>)
    requires Whole(t) && !Complete([t] + ts)
    ensures !Complete(ts)
  {
    hide Whole;
    var k :| 0 <= k < |[t] + ts| && !Whole(([t] + ts)[k]);
    assert ts[k - 1] == ([t] + ts)[k];
  }

  lemma FlatAfter(t: Token, ts: seq<Token>)
    requires Whole(t) && Complete(ts)
    ensures Flat([t] + ts) == t.text + Flat(ts) && Complete([t] + ts)
  {
    hide Whole;
    assert ([t] + ts)[1..] == ts;
  }

  lemma IncompleteReachesEnd(s: string, y: Syntax)
    requires IsSyntax(y) && s != "" && !Whole(NextToken(s, y))
    ensures NextToken(s, y).text == s
  {
    if IsQuote(s[0]) {
      DanglingReachesEnd(s[1..], s[0]);
      assert s[..|s|] == s;
    }
  }

  lemma {:induction false} DanglingReachesEnd(s: string, q: char)
    requires IsQuote(q) && QuoteBody(s, q).end == Dangling
    ensures QuoteBody(s, q).length == |s|
    ensures forall r :: QuoteBody(s + "\n" + [q] + r, q) == Body(|s| + 2, Closed)
  {
    if |s| == 1 {
      forall r ensures QuoteBody(s + "\n" + [q] + r, q) == Body(3, Closed) {
        var l := s + "\n" + [q] + r;
        assert l[2..] == [q] + r && l[0] == '\\';
        assert QuoteBody(l[2..], q) == Body(1, Closed);
      }
    } else {
      var n := if s[0] == '\\' then 2 else 1;
      DanglingReachesEnd(s[n..], q);
      forall r ensures QuoteBody(s + "\n" + [q] + r, q) == Body(|s| + 2, Closed) {
        var l := s + "\n" + [q] + r;
        assert l[n..] == s[n..] + "\n" + [q] + r && l[0] == s[0];
      }
    }
  }

  lemma IncompleteTells(a: string, y: Syntax) returns (b: string)
    requires IsSyntax(y) && !Complete(Lex(a, y))
    ensures !Resynchronises(a, b, y)
  {
    hide NextToken, Lex, Units, Unbalanced, Newlines, Flat, Complete;
    var before, n := IncompleteIsLast(a, y);
    var t := NextToken(a[n..], y);
    var line := 1 + Newlines(Flat(before));
    b := if t.BlockComment? then "" else [t.text[0]] + y.line[0];
    LexAcross(a, b, before, [t], y);
    ReportsConcat(before, [t], 1, y);
    ReportsConcat(before, Lex(t.text + "\n" + b, y), 1, y);
    if t.BlockComment? {
      OpenBlockReadsOn(t.text, line, y);
    } else {
      DanglingReadsOn(t.text, line, y);
    }
  }

  lemma OpenBlockReadsOn(s: string, line: nat, y: Syntax)
    requires IsSyntax(y) && s != "" && NextToken(s, y) == BlockComment(s, false)
    ensures |Units(Lex(s + "\n" + "", y), line)| == |Units([BlockComment(s, false)], line)| + 1
    ensures forall n: nat :: Units(Lex("", y), n) == []
  {
    OpenIsMarker(y);
    var o, c := |y.block.value.open|, y.block.value.close;
    var l := s + "\n" + "";
    StartsAcross(s, "", y.block.value.open);
    assert l[o..] == s[o..] + "\n";
    NotFoundAcross(s[o..], c);
    assert NextToken(l, y) == BlockComment(l, false);
    assert l[|l|..] == "";
    OpenBlockParts(s, l, line, y);
  }

  lemma OpenBlockParts(s: string, l: string, line: nat, y: Syntax)
    requires IsSyntax(y) && l == s + "\n" + "" && NextToken(l, y) == BlockComment(l, false)
    ensures |Units(Lex(l, y), line)| == |Units([BlockComment(s, false)], line)| + 1
  {
    hide NextToken, IsSyntax;
    assert l[|l|..] == "";
    assert Lex(l, y) == [BlockComment(l, false)];
    NewlinesConcat(s, "\n" + "");
    assert l == s + ("\n" + "");
    assert Newlines("\n" + "") == 1 by { assert ("\n" + "")[1..] == ""; }
  }

  lemma {:induction false} NotFoundAcross(s: string, c: string)
    requires IsMarker(c) && Find(s, c).None?
    ensures Find(s + "\n", c).None?
  {
    assert s + "\n" == s + "\n" + "";
    if s == "" {
      StartsNoBreak("\n", c, 0);
      assert "\n"[1..] == "";
    } else {
      StartsAcross(s, "", c);
      assert (s + "\n")[1..] == s[1..] + "\n";
      NotFoundAcross(s[1..], c);
    }
  }

  /** After a dangling escape the next line is still inside the literal, and a quote there closes it. */
  lemma DanglingReadsOn(s: string, line: nat, y: Syntax)
    requires IsSyntax(y) && s != "" && NextToken(s, y) == Quoted(s, Dangling)
    ensures var b := [s[0]] + y.line[0];
            && |Units(Lex(s + "\n" + b, y), line)| > 0
            && Units([Quoted(s, Dangling)], line) == []
            && forall n: nat :: Units(Lex(b, y), n) == []
  {
    hide *;
    DanglingIsQuote(s, line, y);
    QuoteAndMarker(s[0], y);
    var m := y.line[0];
    var l := s + "\n" + ([s[0]] + m);
    ClosesAcross(s, m, y);
    LexFirst(l, y);
    assert l[|s| + 2..] == m;
    var first := NextToken(l, y);
    MarkerReports(m, line + Newlines(first.text), y);
    QuotedReportsLater(first, Lex(m, y), line);
  }

  lemma DanglingIsQuote(s: string, line: nat, y: Syntax)
    requires IsSyntax(y) && s != "" && NextToken(s, y).Quoted?
    ensures IsQuote(s[0]) && y.line != [] && IsMarker(y.line[0])
    ensures Units([Quoted(s, Dangling)], line) == []
  {
    LineIsMarker(y, 0);
  }

  lemma QuotedReportsLater(t: Token, ts: seq<Token>, line: nat)
    requires t.Quoted?
    ensures Units([t] + ts, line) == Units(ts, line + Newlines(t.text))
  {
    assert ([t] + ts)[1..] == ts;
  }

  /** On its own, a quote and a marker are one literal, cut off. */
  lemma QuoteAndMarker(q: char, y: Syntax)
    requires IsSyntax(y) && IsQuote(q)
    ensures forall n: nat :: Units(Lex([q] + y.line[0], y), n) == []
  {
    var m := y.line[0];
    LineIsMarker(y, 0);
    MarkerIsBody(m, q);
    var r := [q] + m;
    assert r[1..] == m && NextToken(r, y).text == r;
    assert r[|r|..] == "";
    assert Lex(r, y) == [NextToken(r, y)];
  }

  lemma ClosesAcross(s: string, m: string, y: Syntax)
    requires IsSyntax(y) && s != "" && NextToken(s, y) == Quoted(s, Dangling)
    ensures var l := s + "\n" + ([s[0]] + m);
            NextToken(l, y) == Quoted(l[..|s| + 2], Closed)
  {
    hide IsSyntax, StartsLine;
    var l := s + "\n" + ([s[0]] + m);
    DanglingReachesEnd(s[1..], s[0]);
    assert l[1..] == s[1..] + "\n" + [s[0]] + m;
  }

  lemma MarkerReports(m: string, line: nat, y: Syntax)
    requires IsSyntax(y) && m == y.line[0] && IsMarker(m)
    ensures |Units(Lex(m, y), line)| > 0
  {
    hide Newlines;
    assert Starts(m, y.line[0]);
    var t := NextToken(m, y);
    assert t.BlockComment? || t.LineComment?;
    assert |UnitsOf(t, line)| > 0;
  }

  lemma {:induction false} MarkerIsBody(m: string, q: char)
    requires IsQuote(q)
    requires forall i :: 0 <= i < |m| ==> m[i] != '\n' && m[i] != '\\' && !IsQuote(m[i])
    ensures QuoteBody(m, q) == Body(|m|, Cut)
  {
    if m != "" {
      MarkerIsBody(m[1..], q);
    }
  }

  // ----- nothing is missed, nothing is invented ------------------------------------------

  /** Unit `u` is the slice of the text at `a`, without a line break, and names the line it is on. */
  ghost predicate LiesAt(text: string, u: Unit, a: nat) {
    && a + |u.text| <= |text| && text[a..a + |u.text|] == u.text
    && Newlines(u.text) == 0
    && u.line == 1 + Newlines(text[..a])
  }

  lemma NewlinesUpTo(text: string, i: nat, j: nat)
    requires i <= j <= |text|
    ensures Newlines(text[..j]) == Newlines(text[..i]) + Newlines(text[i..j])
  {
    assert text[..j] == text[..i] + text[i..j];
    NewlinesConcat(text[..i], text[i..j]);
  }

  lemma NewlinesOfNone()
    ensures Newlines("") == 0
  {
  }

  /** One step of `Split` at position `i`. */
  lemma SplitStep(text: string, i: nat, end: nat)
    requires i < end <= |text|
    ensures var parts, rest := Split(text[i..end]), Split(text[i + 1..end]);
            && |rest| > 0
            && parts == if text[i] == '\n' then [""] + rest else [[text[i]] + rest[0]] + rest[1..]
    ensures Newlines(text[..i + 1]) == Newlines(text[..i]) + (if text[i] == '\n' then 1 else 0)
  {
    assert text[i..end][1..] == text[i + 1..end];
    NewlinesUpTo(text, i, i + 1);
    NewlinesOfOne(text, i);
  }

  lemma EmptyLies(text: string, i: nat)
    requires i <= |text|
    ensures LiesAt(text, Unit(1 + Newlines(text[..i]), ""), i)
  {
  }

  lemma PrependLies(text: string, i: nat, line: nat, part: string)
    requires i < |text| && text[i] != '\n' && LiesAt(text, Unit(line, part), i + 1)
    requires Newlines(text[..i + 1]) == Newlines(text[..i])
    ensures LiesAt(text, Unit(line, [text[i]] + part), i)
  {
    assert ([text[i]] + part)[1..] == part;
  }

  lemma {:induction false} PartLies(text: string, i: nat, end: nat, j: nat) returns (a: nat)
    requires i <= end <= |text| && j < |Split(text[i..end])|
    ensures i <= a && a + |Split(text[i..end])[j]| <= end && (j == 0 ==> a == i)
    ensures LiesAt(text, Unit(1 + Newlines(text[..i]) + j, Split(text[i..end])[j]), a)
    decreases end - i
  {
    hide *;
    if i == end {
      a := i;
      assert text[i..end] == "";
      SplitOfNone();
      EmptyLies(text, i);
    } else {
      SplitStep(text, i, end);
      if text[i] == '\n' {
        if j == 0 {
          a := i;
          EmptyLies(text, i);
        } else {
          a := PartLies(text, i + 1, end, j - 1);
        }
      } else {
        a := PartLies(text, i + 1, end, j);
        if j == 0 {
          a := i;
          PrependLies(text, i, 1 + Newlines(text[..i]), Split(text[i + 1..end])[0]);
        }
      }
    }
  }

  lemma SplitOfNone()
    ensures Split("") == [""]
  {
  }

  /** Every character of a block comment but its line breaks is in one of its parts. */
  lemma {:induction false} PartCovers(text: string, i: nat, end: nat, p: nat) returns (j: nat, a: nat)
    requires i <= p < end <= |text| && text[p] != '\n'
    ensures j < |Split(text[i..end])| && a <= p < a + |Split(text[i..end])[j]|
    ensures LiesAt(text, Unit(1 + Newlines(text[..i]) + j, Split(text[i..end])[j]), a)
    ensures j == 0 ==> a == i
    decreases end - i
  {
    hide *;
    SplitStep(text, i, end);
    if p == i {
      j := 0;
      a := PartLies(text, i, end, 0);
    } else {
      j, a := PartCovers(text, i + 1, end, p);
      if text[i] == '\n' {
        j := j + 1;
      } else if j == 0 {
        a := PartLies(text, i, end, 0);
      }
    }
  }

  ghost predicate Lies(text: string, u: Unit) {
    exists a: nat :: LiesAt(text, u, a)
  }

  ghost predicate Covers(text: string, u: Unit, p: nat) {
    exists a: nat :: LiesAt(text, u, a) && a <= p < a + |u.text|
  }

  /** Units in text order: each a slice of its line, on lines from `from` to `to`. */
  ghost predicate InOrder(text: string, us: seq<Unit>, from: nat, to: nat) {
    && (forall k :: 0 <= k < |us| ==> Lies(text, us[k]) && from <= us[k].line <= to)
    && (forall k :: 0 < k < |us| ==> us[k - 1].line <= us[k].line)
  }

  lemma InOrderConcat(text: string, us: seq<Unit>, ws: seq<Unit>, from: nat, mid: nat, to: nat)
    requires from <= mid <= to && InOrder(text, us, from, mid) && InOrder(text, ws, mid, to)
    ensures InOrder(text, us + ws, from, to)
  {
    hide Lies;
  }

  lemma InOrderNone(text: string, from: nat, to: nat)
    ensures InOrder(text, [], from, to)
  {
  }

  lemma NextTokenIsLonger(text: string, i: nat, y: Syntax)
    requires IsSyntax(y) && i < |text|
    ensures |NextToken(text[i..], y).text| > 0
  {
  }

  lemma TokenUnitsInOrder(text: string, i: nat, y: Syntax)
    requires IsSyntax(y) && i < |text|
    ensures var t, line := NextToken(text[i..], y), 1 + Newlines(text[..i]);
            InOrder(text, UnitsOf(t, line), line, line + Newlines(t.text))
  {
    hide NextToken, Newlines, IsSyntax, Lex, UnitsFrom, UnbalancedFrom, LiesAt;
    var t, line := NextToken(text[i..], y), 1 + Newlines(text[..i]);
    var end := i + |t.text|;
    TokenStep(text, i, line, y);
    if t.BlockComment? {
      forall k | 0 <= k < |Split(t.text)| ensures Lies(text, UnitsOf(t, line)[k]) {
        var a := PartLies(text, i, end, k);
      }
    } else if t.LineComment? {
      LineHasNoBreak(text[i..], y);
      LineLies(text, i, end);
    }
  }

  lemma LineHasNoBreak(s: string, y: Syntax)
    requires IsSyntax(y) && s != "" && NextToken(s, y).LineComment?
    ensures Newlines(NextToken(s, y).text) == 0
  {
    hide Newlines, IsSyntax;
    var k := |NextToken(s, y).text|;
    NoNewlineBefore(s, k);
    assert NextToken(s, y).text == s[..k];
  }

  lemma {:induction false} UnitsInOrderFrom(text: string, i: nat, y: Syntax)
    requires IsSyntax(y) && i <= |text|
    ensures InOrder(text, UnitsFrom(text, i, 1 + Newlines(text[..i]), y), 1 + Newlines(text[..i]), 1 + Newlines(text))
    decreases |text| - i
  {
    hide *;
    var line := 1 + Newlines(text[..i]);
    assert text[..|text|] == text;
    NewlinesUpTo(text, i, |text|);
    if i == |text| {
      NothingLeft(text, line, y);
      InOrderNone(text, line, 1 + Newlines(text));
    } else {
      TokenStep(text, i, line, y);
      TokenUnitsInOrder(text, i, y);
      var t := NextToken(text[i..], y);
      var j := i + |t.text|;
      NextTokenIsLonger(text, i, y);
      NewlinesUpTo(text, i, j);
      NewlinesUpTo(text, j, |text|);
      UnitsInOrderFrom(text, j, y);
      var line' := line + Newlines(t.text);
      InOrderConcat(text, UnitsOf(t, line), UnitsFrom(text, j, line', y), line, line', 1 + Newlines(text));
    }
  }

  /** Every reported unit is a slice of the line it names, and lines never go backwards. */
  lemma UnitsInOrder(text: string, y: Syntax)
    requires IsSyntax(y)
    ensures InOrder(text, Units(Lex(text, y), 1), 1, 1 + Newlines(text))
  {
    hide *;
    UnitsInOrderFrom(text, 0, y);
    WholeText(text, y);
    NewlinesOfNone();
    assert text[..0] == "";
  }

  /** Position `p` lies in token `n` from `i` on, which accounts for a marker there. */
  ghost predicate Accounted(text: string, i: nat, p: nat, n: nat, y: Syntax)
    requires IsSyntax(y) && i <= |text|
  {
    var ts, line := Lex(text[i..], y), 1 + Newlines(text[..i]);
    && n < |ts|
    && var start := i + |Flat(ts[..n])|;
       var end := start + |ts[n].text|;
       && start <= p < end <= |text|
       && match ts[n]
          case Quoted(_, Closed) => true
          case Quoted(_, _) => 1 + Newlines(text[..end]) in UnbalancedFrom(text, i, line, y)
          case Code(_) => false
          case Newline(_) => false
          case _ => exists u :: u in UnitsFrom(text, i, line, y) && Covers(text, u, p)
  }

  lemma {:induction false} BodyEndsAtBreak(s: string, q: char)
    ensures var b := QuoteBody(s, q);
            b.end != Closed && b.length < |s| ==> s[b.length] == '\n'
  {
    if s == "" || s[0] == '\n' {
    } else if s[0] == '\\' {
      if |s| > 1 { BodyEndsAtBreak(s[2..], q); }
    } else if s[0] != q {
      BodyEndsAtBreak(s[1..], q);
    }
  }

  lemma {:induction false} FindThere(s: string, p: string, k: nat)
    requires p != "" && k + |p| <= |s| && s[k..k + |p|] == p
    ensures Find(s, p).Some?
  {
    if k > 0 {
      assert s[1..][k - 1..k - 1 + |p|] == p;
      FindThere(s[1..], p, k - 1);
    }
  }

  /** A literal that is cut off ends at a line break or at the end of the text. */
  lemma CutEndsAtBreak(text: string, i: nat, y: Syntax)
    requires IsSyntax(y) && i < |text|
    requires var t := NextToken(text[i..], y); t.Quoted? && t.end != Closed
    ensures var end := i + |NextToken(text[i..], y).text|; end < |text| ==> text[end] == '\n'
  {
    hide IsSyntax, StartsLine, QuoteBody;
    var s := text[i..];
    BodyEndsAtBreak(s[1..], s[0]);
  }

  /** A marker inside a cut-off literal is wholly inside it. */
  lemma MarkerInsideCut(text: string, i: nat, p: nat, m: string, y: Syntax)
    requires IsSyntax(y) && i <= p < |text| && IsMarker(m) && Starts(text[p..], m)
    requires var t := NextToken(text[i..], y); t.Quoted? && t.end != Closed && p < i + |t.text|
    ensures Contains(NextToken(text[i..], y).text, m)
  {
    CutEndsAtBreak(text, i, y);
    var t := NextToken(text[i..], y);
    hide IsSyntax, NextToken;
    var end := i + |t.text|;
    if end < |text| && p + |m| > end {
      StartsNoBreak(text[p..], m, end - p);
    }
    assert text[p..][..|m|] == text[p..p + |m|];
    assert t.text[p - i..p - i + |m|] == text[p..p + |m|] by { assert t.text == text[i..end]; }
    FindThere(t.text, m, p - i);
  }

  lemma MarkerIsOne(y: Syntax, k: nat)
    requires IsSyntax(y) && k < |Markers(y)|
    ensures IsMarker(Markers(y)[k])
  {
  }

  /** The token at `i` accounts for every marker that starts in it. */
  lemma AccountedHere(text: string, i: nat, p: nat, k: nat, y: Syntax)
    requires IsSyntax(y) && i <= p < |text| && k < |Markers(y)| && Starts(text[p..], Markers(y)[k])
    requires p < i + |NextToken(text[i..], y).text|
    ensures Accounted(text, i, p, 0, y)
  {
    hide Newlines, LiesAt, Covers, Starts, IsSyntax, Lex, UnitsFrom, UnbalancedFrom, NextToken, Markers;
    var m, t, line := Markers(y)[k], NextToken(text[i..], y), 1 + Newlines(text[..i]);
    var end := i + |t.text|;
    FirstToken(text, i, y);
    TokenStep(text, i, line, y);
    NewlinesUpTo(text, i, end);
    MarkerIsOne(y, k);
    NoMarkerInCode(text, i, p, k, y);
    match t
    case Quoted(_, e) =>
      if e != Closed {
        MarkerInsideCut(text, i, p, m, y);
        assert line + Newlines(t.text) in UnbalancedOf(t, line, y);
      }
    case LineComment(_) =>
      LineHasNoBreak(text[i..], y);
      LineLies(text, i, end);
      CoversAt(text, Unit(line, t.text), i, p);
      assert UnitsOf(t, line)[0] == Unit(line, t.text);
    case BlockComment(_, _) =>
      StartsAtNoBreak(text, p, m);
      var j, a := PartCovers(text, i, end, p);
      CoversAt(text, Unit(line + j, Split(text[i..end])[j]), a, p);
      assert UnitsOf(t, line)[j] == Unit(line + j, Split(text[i..end])[j]);
    case Code(_) =>
    case Newline(_) =>
  }

  lemma StartsAtNoBreak(text: string, p: nat, m: string)
    requires p < |text| && IsMarker(m) && Starts(text[p..], m)
    ensures text[p] != '\n' && !IsQuote(text[p])
  {
    assert text[p..][..|m|][0] == text[p];
  }

  lemma CoversAt(text: string, u: Unit, a: nat, p: nat)
    requires LiesAt(text, u, a) && a <= p < a + |u.text|
    ensures Covers(text, u, p)
  {
  }

  lemma LineLies(text: string, i: nat, end: nat)
    requires i <= end <= |text| && Newlines(text[i..end]) == 0
    ensures LiesAt(text, Unit(1 + Newlines(text[..i]), text[i..end]), i)
  {
  }

  lemma FirstToken(text: string, i: nat, y: Syntax)
    requires IsSyntax(y) && i < |text|
    ensures var ts := Lex(text[i..], y); |ts| > 0 && ts[0] == NextToken(text[i..], y) && Flat(ts[..0]) == ""
  {
  }

  /** The lexer passes over a character as code only where no marker starts. */
  lemma NoMarkerInCode(text: string, i: nat, p: nat, k: nat, y: Syntax)
    requires IsSyntax(y) && i <= p < |text| && k < |Markers(y)| && Starts(text[p..], Markers(y)[k])
    requires p < i + |NextToken(text[i..], y).text|
    ensures !NextToken(text[i..], y).Code? && !NextToken(text[i..], y).Newline?
  {
    MarkerIsOne(y, k);
    StartsAtNoBreak(text, p, Markers(y)[k]);
    assert k < |y.line| ==> Starts(text[p..], y.line[k]);
  }

  /** Counting tokens from one token earlier. */
  lemma AccountedLater(text: string, i: nat, p: nat, n: nat, y: Syntax)
    requires IsSyntax(y) && i < |text|
    requires var j := i + |NextToken(text[i..], y).text|; j <= |text| && Accounted(text, j, p, n, y)
    ensures Accounted(text, i, p, n + 1, y)
  {
    hide Covers, IsSyntax, NextToken, Newlines, UnitsOf, UnbalancedOf, UnitsFrom, UnbalancedFrom;
    var t, line := NextToken(text[i..], y), 1 + Newlines(text[..i]);
    var j := i + |t.text|;
    TokenStep(text, i, line, y);
    NewlinesUpTo(text, i, j);
    FirstToken(text, i, y);
    var ts, us := Lex(text[i..], y), Lex(text[j..], y);
    assert text[i..][|t.text|..] == text[j..];
    assert ts == [t] + us && ts[..n + 1] == [t] + us[..n];
    assert ts[..n + 1][1..] == us[..n];
  }

  lemma {:induction false} AccountedFrom(text: string, i: nat, p: nat, k: nat, y: Syntax) returns (n: nat)
    requires IsSyntax(y) && i <= p < |text| && k < |Markers(y)| && Starts(text[p..], Markers(y)[k])
    ensures Accounted(text, i, p, n, y)
    decreases |text| - i
  {
    hide Accounted, IsSyntax, Starts, Markers, NextToken;
    var t := NextToken(text[i..], y);
    if p < i + |t.text| {
      AccountedHere(text, i, p, k, y);
      n := 0;
    } else {
      n := AccountedFrom(text, i + |t.text|, p, k, y);
      AccountedLater(text, i, p, n, y);
      n := n + 1;
    }
  }

  /**
   No comment is lost in silence: wherever a marker starts, that place is in a
   reported unit, in a literal closed by its own quote, or in a cut-off literal
   whose last line is reported as unbalanced.
   */
  lemma NoSilentMiss(text: string, p: nat, k: nat, y: Syntax)
    requires IsSyntax(y) && p < |text| && k < |Markers(y)| && Starts(text[p..], Markers(y)[k])
    ensures exists n :: Accounted(text, 0, p, n, y)
  {
    var n := AccountedFrom(text, 0, p, k, y);
  }
}
