/**
 When the binary search for a title that fits finds the longest one
 (backend/src/foragerr/naming.py): a shorter title must never render wider.
 */
module TitleFit {
  import opened Strings
  import opened Naming
  import opened FileNames
  import Utf8

  // ----- narrower texts ------------------------------------------------------------

  /** `c` takes no more bytes than `d`, and cleaning treats the two alike. */
  predicate Like(t: Tables, c: char, d: char) {
    && |Utf8.Octets(c)| <= |Utf8.Octets(d)| && Illegal(c) == Illegal(d) && (c in " \t") == (d in " \t")
    && t.space(c) == t.space(d) && SpaceOrDot(c) == SpaceOrDot(d)
  }

  /** `a` is what is left of `b` when characters are dropped or exchanged for ones like them. */
  predicate Covers(t: Tables, a: string, b: string)
    decreases |b|
  {
    a == "" || (b != "" && ((Like(t, a[0], b[0]) && Covers(t, a[1..], b[1..])) || Covers(t, a, b[1..])))
  }

  lemma CoversStep(t: Tables, c: char, a: string, d: char, b: string)
    ensures Like(t, c, d) && Covers(t, a, b) ==> Covers(t, [c] + a, [d] + b)
    ensures Covers(t, a, b) ==> Covers(t, a, [d] + b)
  {
    hide Like;
    assert ([c] + a)[1..] == a && ([d] + b)[1..] == b;
  }

  lemma {:induction false} CoversItself(t: Tables, a: string)
    ensures Covers(t, a, a)
  {
    if a != "" {
      CoversItself(t, a[1..]);
    }
  }

  lemma {:induction false} CoversBehind(t: Tables, a: string, x: string, b: string)
    requires Covers(t, a, b)
    ensures Covers(t, a, x + b)
  {
    hide Like, Covers;
    if x == "" {
      assert x + b == b;
    } else {
      CoversBehind(t, a, x[1..], b);
      CoversStep(t, x[0], a, x[0], x[1..] + b);
      assert x + b == [x[0]] + (x[1..] + b);
    }
  }

  lemma {:induction false} CoversConcat(t: Tables, a: string, b: string, c: string, d: string)
    requires Covers(t, a, b) && Covers(t, c, d)
    ensures Covers(t, a + c, b + d)
    decreases |b|
  {
    hide Like;
    if a == "" {
      assert a + c == c;
      CoversBehind(t, c, b, d);
    } else {
      assert (b + d)[1..] == b[1..] + d && (a + c)[1..] == a[1..] + c;
      if Like(t, a[0], b[0]) && Covers(t, a[1..], b[1..]) {
        CoversConcat(t, a[1..], b[1..], c, d);
      } else {
        CoversConcat(t, a, b[1..], c, d);
      }
    }
  }

  /** Dropping a character at either end leaves a text narrower. */
  lemma {:induction false} CoversLess(t: Tables, a: string, b: string)
    requires a != "" && Covers(t, a, b)
    ensures Covers(t, a[1..], b) && Covers(t, a[..|a| - 1], b)
    decreases |b|
  {
    hide Like;
    if Like(t, a[0], b[0]) && Covers(t, a[1..], b[1..]) {
      CoversStep(t, a[0], a[1..], b[0], b[1..]);
      assert [b[0]] + b[1..] == b;
      if |a| > 1 {
        CoversLess(t, a[1..], b[1..]);
        assert a[..|a| - 1][1..] == a[1..][..|a| - 2];
      }
    } else {
      CoversLess(t, a, b[1..]);
      assert [b[0]] + b[1..] == b;
      CoversStep(t, a[0], a[1..], b[0], b[1..]);
      CoversStep(t, a[0], a[..|a| - 1], b[0], b[1..]);
    }
  }

  /** The same, looking from the end. */
  lemma {:induction false} CoversFromEnd(t: Tables, a: string, b: string)
    requires b != "" && Covers(t, a, b)
    ensures var c := b[..|b| - 1];
            Covers(t, a, c) || (a != "" && Like(t, a[|a| - 1], b[|b| - 1]) && Covers(t, a[..|a| - 1], c))
    decreases |b|
  {
    hide Like;
    if a != "" && |b| > 1 {
      assert b[..|b| - 1][1..] == b[1..][..|b| - 2];
      if Like(t, a[0], b[0]) && Covers(t, a[1..], b[1..]) {
        CoversFromEnd(t, a[1..], b[1..]);
        if |a| > 1 {
          assert a[..|a| - 1][1..] == a[1..][..|a| - 2];
        }
      } else {
        CoversFromEnd(t, a, b[1..]);
      }
    }
  }

  lemma {:induction false} NarrowerInBytes(t: Tables, a: string, b: string)
    requires Covers(t, a, b)
    ensures ByteLength(a) <= ByteLength(b)
    decreases |b|
  {
    if a == "" {
      Utf8.NoOctets();
    } else {
      Utf8.EncodeCons(a);
      Utf8.EncodeCons(b);
      if Like(t, a[0], b[0]) && Covers(t, a[1..], b[1..]) {
        NarrowerInBytes(t, a[1..], b[1..]);
      } else {
        NarrowerInBytes(t, a, b[1..]);
      }
    }
  }

  // ----- cleaning keeps a narrower text narrower --------------------------------------

  lemma LikeItself(t: Tables, c: char)
    ensures Like(t, c, c)
  {
  }

  lemma {:induction false} ReplacingKeepsNarrower(t: Tables, a: string, b: string)
    requires Covers(t, a, b)
    ensures Covers(t, ReplaceIllegal(a), ReplaceIllegal(b))
    decreases |b|
  {
    if a != "" {
      var d := if Illegal(b[0]) then ' ' else b[0];
      if Like(t, a[0], b[0]) && Covers(t, a[1..], b[1..]) {
        ReplacingKeepsNarrower(t, a[1..], b[1..]);
        var c := if Illegal(a[0]) then ' ' else a[0];
        LikeItself(t, ' ');
        hide Like;
        CoversStep(t, c, ReplaceIllegal(a[1..]), d, ReplaceIllegal(b[1..]));
      } else {
        ReplacingKeepsNarrower(t, a, b[1..]);
        hide Like;
        CoversStep(t, d, ReplaceIllegal(a), d, ReplaceIllegal(b[1..]));
      }
    }
  }

  /** What a collapsed text may still owe: the one space of a run its counterpart has begun. */
  function Pending(p: bool, q: bool): string {
    if q && !p then " " else ""
  }

  predicate Blank(c: char) {
    c == ' ' || c == '\t'
  }

  lemma {:induction false} CollapsingKeepsNarrower(t: Tables, a: string, p: bool, b: string, q: bool)
    requires Covers(t, a, b)
    ensures Covers(t, Collapse(a, p), Pending(p, q) + Collapse(b, q))
    decreases |b|
  {
    hide Like, Collapse, Blank;
    if a == "" {
      assert Collapse(a, p) == "" by { CollapseNothing(p); }
    } else {
      var blank := Blank(b[0]);
      if Like(t, a[0], b[0]) && Covers(t, a[1..], b[1..]) {
        CollapsingKeepsNarrower(t, a[1..], blank, b[1..], blank);
        assert Pending(blank, blank) + Collapse(b[1..], blank) == Collapse(b[1..], blank);
        CollapseMatch(t, a, p, b, q);
      } else {
        CollapsingKeepsNarrower(t, a, p, b[1..], blank);
        CollapseSkip(t, a, p, b, q);
      }
    }
  }

  lemma CollapseNothing(p: bool)
    ensures Collapse("", p) == ""
  {
  }

  lemma CollapseStep(s: string, after: bool)
    requires s != ""
    ensures Collapse(s, after) ==
            (if !Blank(s[0]) then [s[0]] else if after then "" else " ") + Collapse(s[1..], Blank(s[0]))
  {
  }

  lemma BlankLikeBlank(t: Tables, c: char, d: char)
    requires Like(t, c, d)
    ensures Blank(c) == Blank(d) && Like(t, ' ', ' ')
  {
  }

  lemma CollapseMatch(t: Tables, a: string, p: bool, b: string, q: bool)
    requires a != "" && b != "" && Like(t, a[0], b[0])
    requires Covers(t, Collapse(a[1..], Blank(b[0])), Collapse(b[1..], Blank(b[0])))
    ensures Covers(t, Collapse(a, p), Pending(p, q) + Collapse(b, q))
  {
    hide Like, Covers, Collapse, Blank;
    BlankLikeBlank(t, a[0], b[0]);
    CollapseStep(a, p);
    CollapseStep(b, q);
    var ca, cb := Collapse(a[1..], Blank(b[0])), Collapse(b[1..], Blank(b[0]));
    if Blank(b[0]) {
      CoversStep(t, ' ', ca, ' ', cb);
      assert Pending(p, q) + ((if q then "" else " ") + cb) == (if p && q then "" else " ") + cb;
      assert "" + ca == ca && "" + cb == cb && [' '] + ca == " " + ca && [' '] + cb == " " + cb;
    } else {
      CoversStep(t, a[0], ca, b[0], cb);
      CoversBehind(t, [a[0]] + ca, Pending(p, q), [b[0]] + cb);
    }
  }

  lemma CollapseSkip(t: Tables, a: string, p: bool, b: string, q: bool)
    requires b != ""
    requires Covers(t, Collapse(a, p), Pending(p, Blank(b[0])) + Collapse(b[1..], Blank(b[0])))
    ensures Covers(t, Collapse(a, p), Pending(p, q) + Collapse(b, q))
  {
    hide Like, Covers, Collapse, Blank;
    CollapseStep(b, q);
    var ca, cb := Collapse(a, p), Collapse(b[1..], Blank(b[0]));
    assert "" + cb == cb;
    if Blank(b[0]) {
      assert Pending(p, q) + ((if q then "" else " ") + cb) == (if p && q then "" else " ") + cb;
      if p && !q {
        CoversBehind(t, ca, " ", cb);
      }
    } else {
      CoversBehind(t, ca, Pending(p, q) + [b[0]], cb);
      assert Pending(p, q) + [b[0]] + cb == Pending(p, q) + ([b[0]] + cb);
    }
  }

  lemma {:induction false} StripLeftKeepsNarrower(t: Tables, a: string, b: string, p: char -> bool)
    requires Covers(t, a, b) && forall c, d :: Like(t, c, d) ==> p(c) == p(d)
    ensures Covers(t, StripLeft(a, p), StripLeft(b, p))
    decreases |a| + |b|
  {
    hide Like;
    if a == "" {
    } else if p(a[0]) {
      CoversLess(t, a, b);
      StripLeftKeepsNarrower(t, a[1..], b, p);
    } else if p(b[0]) {
      StripLeftKeepsNarrower(t, a, b[1..], p);
    }
  }

  lemma {:induction false} StripRightKeepsNarrower(t: Tables, a: string, b: string, p: char -> bool)
    requires Covers(t, a, b) && forall c, d :: Like(t, c, d) ==> p(c) == p(d)
    ensures Covers(t, StripRight(a, p), StripRight(b, p))
    decreases |a| + |b|
  {
    hide Like;
    if a == "" {
    } else if p(a[|a| - 1]) {
      CoversLess(t, a, b);
      StripRightKeepsNarrower(t, a[..|a| - 1], b, p);
    } else if p(b[|b| - 1]) {
      CoversFromEnd(t, a, b);
      StripRightKeepsNarrower(t, a, b[..|b| - 1], p);
    }
  }

  lemma StripKeepsNarrower(t: Tables, a: string, b: string, p: char -> bool)
    requires Covers(t, a, b) && forall c, d :: Like(t, c, d) ==> p(c) == p(d)
    ensures Covers(t, Strip(a, p), Strip(b, p))
  {
    hide Like, Covers, StripLeft, StripRight;
    StripLeftKeepsNarrower(t, a, b, p);
    StripRightKeepsNarrower(t, StripLeft(a, p), StripLeft(b, p), p);
  }

  /** Cleaning a narrower render gives a narrower body. */
  lemma CleaningKeepsNarrower(t: Tables, template: string, f: Fields, g: Fields, replaceIllegal: bool)
    requires Covers(t, Rendered(t, f, template), Rendered(t, g, template))
    ensures ByteLength(RenderBody(t, template, f, replaceIllegal)) <=
            ByteLength(RenderBody(t, template, g, replaceIllegal))
  {
    hide Covers, ReplaceIllegal, Collapse, Strip, ByteLength, Rendered;
    assert forall c, d :: Like(t, c, d) ==> t.space(c) == t.space(d) && SpaceOrDot(c) == SpaceOrDot(d);
    hide Like;
    var a, b := Rendered(t, f, template), Rendered(t, g, template);
    ReplacingKeepsNarrower(t, a, b);
    var a', b' := if replaceIllegal then ReplaceIllegal(a) else a, if replaceIllegal then ReplaceIllegal(b) else b;
    CollapsingKeepsNarrower(t, a', false, b', false);
    assert Pending(false, false) + Collapse(b', false) == Collapse(b', false);
    StripKeepsNarrower(t, Collapse(a', false), Collapse(b', false), t.space);
    StripKeepsNarrower(t, Strip(Collapse(a', false), t.space), Strip(Collapse(b', false), t.space), SpaceOrDot);
    NarrowerInBytes(t, RenderBody(t, template, f, replaceIllegal), RenderBody(t, template, g, replaceIllegal));
  }

  // ----- a shorter title renders narrower ----------------------------------------------

  /** Case conversion of a prefix is narrower than that of the whole. */
  ghost predicate CaseGrows(t: Tables) {
    forall u: string, v: string :: u <= v ==> Covers(t, t.upper(u), t.upper(v)) && Covers(t, t.lower(u), t.lower(v))
  }

  /** The guard under which padding changes anything: a digit in front, behind a sign if there is one. */
  predicate StartsNumeric(digit: DigitTable, title: string) {
    var core := if Starts(title, "-") then title[1..] else title;
    core != "" && digit(core[0])
  }

  /** A token that can lengthen the title: it names it and pads it to two digits or more. */
  predicate PadsTitle(t: Tables, p: Piece) {
    p.Token? && FieldOf(t, p.name) == Some(SeriesTitle) && p.pad.Some? && |p.pad.value| >= 2
  }

  predicate NonePads(t: Tables, ps: seq<Piece>) {
    forall k :: 0 <= k < |ps| ==> !PadsTitle(t, ps[k])
  }

  /** No token of the template pads the title to two digits or more. */
  predicate NeverPadsTitle(t: Tables, template: string) {
    forall k :: 0 <= k < |Parts(template)| ==> NonePads(t, Pieces(Parts(template)[k].text))
  }

  /** Nothing in the template can pad this title. */
  predicate NoPadding(t: Tables, template: string, title: string) {
    NeverPadsTitle(t, template) || !StartsNumeric(t.digit, title)
  }

  lemma NarrowPadIsNoPad(digit: DigitTable, value: string, pad: string)
    requires |pad| <= 1
    ensures ApplyPad(digit, value, pad) == value
  {
    hide AllDigits;
    TextOfDissect(value);
    var n := Dissect(value);
    assert n.(whole := n.whole) == n;
  }

  lemma WholeStartsNumeric(digit: DigitTable, u: string)
    requires IsDigits(digit, Dissect(u).whole)
    ensures StartsNumeric(digit, u)
  {
    var core := if Starts(u, "-") then u[1..] else u;
    var whole := core[..Dot(core)];
    hide Dot;
    assert whole[0] == core[0];
  }

  lemma NumericPrefix(digit: DigitTable, u: string, title: string)
    requires u <= title && StartsNumeric(digit, u)
    ensures StartsNumeric(digit, title)
  {
    assert title[0] == u[0];
    assert u[..1] == [u[0]] == title[..1];
    if Starts(u, "-") {
      assert title[1] == u[1];
    }
  }

  lemma NameIsNotPadded(digit: DigitTable, title: string, u: string, pad: string)
    requires u <= title && !StartsNumeric(digit, title)
    ensures ApplyPad(digit, u, pad) == u
  {
    hide StartsNumeric, Dissect, NumberText, IsDigits;
    if IsDigits(digit, Dissect(u).whole) {
      WholeStartsNumeric(digit, u);
      NumericPrefix(digit, u, title);
    }
  }

  /** What the title's tokens do to a title nothing pads. */
  lemma TitleValue(t: Tables, fields: Fields, p: Piece, title: string, u: string)
    requires p.Token? && FieldOf(t, p.name) == Some(SeriesTitle) && u <= title &&
             (!PadsTitle(t, p) || !StartsNumeric(t.digit, title))
    ensures RenderPiece(t, fields[SeriesTitle := u], p) == ApplyCase(t, p.name, u)
  {
    hide FieldOf, ApplyCase, ApplyPad, StartsNumeric;
    if p.pad.Some? {
      if |p.pad.value| <= 1 {
        NarrowPadIsNoPad(t.digit, u, p.pad.value);
      } else {
        NameIsNotPadded(t.digit, title, u, p.pad.value);
      }
    }
  }

  lemma CaseOfPrefix(t: Tables, name: string, u: string, v: string)
    requires CaseGrows(t) && u <= v
    ensures Covers(t, ApplyCase(t, name, u), ApplyCase(t, name, v))
  {
    hide Like;
    if u != "" {
      assert Covers(t, t.upper(u), t.upper(v)) && Covers(t, t.lower(u), t.lower(v));
      CoversItself(t, u);
      CoversConcat(t, u, u, "", v[|u|..]);
      assert u + "" == u && u + v[|u|..] == v;
    }
  }

  lemma PieceNarrower(t: Tables, fields: Fields, p: Piece, title: string, u: string, v: string)
    requires CaseGrows(t) && u <= v <= title && (!PadsTitle(t, p) || !StartsNumeric(t.digit, title))
    ensures Covers(t, RenderPiece(t, fields[SeriesTitle := u], p), RenderPiece(t, fields[SeriesTitle := v], p))
  {
    hide Like, Covers, CaseGrows, ApplyCase, ApplyPad, StartsNumeric, FieldOf;
    if p.Token? && FieldOf(t, p.name) == Some(SeriesTitle) {
      TitleValue(t, fields, p, title, u);
      TitleValue(t, fields, p, title, v);
      CaseOfPrefix(t, p.name, u, v);
    } else {
      CoversItself(t, RenderPiece(t, fields[SeriesTitle := u], p));
    }
  }

  lemma {:induction false} PiecesNarrower(t: Tables, fields: Fields, ps: seq<Piece>, title: string, u: string,
                                          v: string)
    requires CaseGrows(t) && u <= v <= title && (NonePads(t, ps) || !StartsNumeric(t.digit, title))
    ensures Covers(t, RenderPieces(t, fields[SeriesTitle := u], ps), RenderPieces(t, fields[SeriesTitle := v], ps))
    ensures AllTokensEmpty(t, fields[SeriesTitle := v], ps) ==> AllTokensEmpty(t, fields[SeriesTitle := u], ps)
  {
    hide Like, CaseGrows, RenderPiece, StartsNumeric, PadsTitle;
    var f, g := fields[SeriesTitle := u], fields[SeriesTitle := v];
    forall k | 0 <= k < |ps| ensures Covers(t, RenderPiece(t, f, ps[k]), RenderPiece(t, g, ps[k])) {
      PieceNarrower(t, fields, ps[k], title, u, v);
    }
    if ps != [] {
      PiecesNarrower(t, fields, ps[1..], title, u, v);
      CoversConcat(t, RenderPiece(t, f, ps[0]), RenderPiece(t, g, ps[0]), RenderPieces(t, f, ps[1..]),
          RenderPieces(t, g, ps[1..]));
    }
  }

  lemma PartNarrower(t: Tables, fields: Fields, part: Part, title: string, u: string, v: string)
    requires CaseGrows(t) && u <= v <= title && (NonePads(t, Pieces(part.text)) || !StartsNumeric(t.digit, title))
    ensures Covers(t, RenderPart(t, fields[SeriesTitle := u], part), RenderPart(t, fields[SeriesTitle := v], part))
  {
    var ps := Pieces(part.text);
    var f, g := fields[SeriesTitle := u], fields[SeriesTitle := v];
    hide Like, CaseGrows, RenderPieces, Empties, AllTrue, AllTokensEmpty, HasToken, Pieces, NonePads, StartsNumeric,
        Covers;
    PiecesNarrower(t, fields, ps, title, u, v);
    if part.Group? {
      EmptiesAreTheTokens(t, f, ps);
      EmptiesAreTheTokens(t, g, ps);
      NothingIsNarrower(t, RenderPart(t, g, part));
      CoversItself(t, "[");
      CoversItself(t, "]");
      CoversConcat(t, "[", "[", RenderPieces(t, f, ps), RenderPieces(t, g, ps));
      CoversConcat(t, "[" + RenderPieces(t, f, ps), "[" + RenderPieces(t, g, ps), "]", "]");
    }
  }

  lemma NothingIsNarrower(t: Tables, b: string)
    ensures Covers(t, "", b)
  {
  }

  lemma {:induction false} PartsNarrower(t: Tables, fields: Fields, parts: seq<Part>, title: string, u: string,
                                         v: string)
    requires CaseGrows(t) && u <= v <= title
    requires !StartsNumeric(t.digit, title) || forall k :: 0 <= k < |parts| ==> NonePads(t, Pieces(parts[k].text))
    ensures Covers(t, RenderParts(t, fields[SeriesTitle := u], parts), RenderParts(t, fields[SeriesTitle := v], parts))
  {
    hide Like, CaseGrows, RenderPart, Pieces, NonePads, StartsNumeric, Covers;
    var f, g := fields[SeriesTitle := u], fields[SeriesTitle := v];
    if parts == [] {
      NothingIsNarrower(t, "");
    } else {
      PartNarrower(t, fields, parts[0], title, u, v);
      PartsNarrower(t, fields, parts[1..], title, u, v);
      CoversConcat(t, RenderPart(t, f, parts[0]), RenderPart(t, g, parts[0]), RenderParts(t, f, parts[1..]),
          RenderParts(t, g, parts[1..]));
    }
  }

  lemma {:induction false} TrimmedPrefix(s: string, j: nat, k: nat, p: char -> bool)
    requires j <= k <= |s|
    ensures StripRight(s[..j], p) <= StripRight(s[..k], p)
    decreases k
  {
    if k > 0 && p(s[k - 1]) && j < k {
      TrimmedPrefix(s, j, k - 1, p);
      assert s[..k][..k - 1] == s[..k - 1];
    } else if j < k {
      assert StripRight(s[..k], p) == s[..k];
      var r := StripRight(s[..j], p);
      assert r == s[..j][..|r|] == s[..k][..|r|];
    }
  }

  // ----- the search ----------------------------------------------------------------------

  /** The search ends on the longest trimmed prefix of the title that fits. */
  predicate FindsLongest(t: Tables, fields: Fields, template: string, replaceIllegal: bool, budget: int) {
    var at := Search(t, fields, template, replaceIllegal, budget, 0, |Title(fields)|, -1);
    forall k :: 0 <= k <= |Title(fields)| && k > at ==> !FitsAt(t, fields, template, replaceIllegal, budget, k)
  }

  lemma {:induction false} SearchFindsLongest(t: Tables, fields: Fields, template: string, replaceIllegal: bool,
                                              budget: int, lo: int, hi: int, at: int)
    requires 0 <= lo <= hi + 1 <= |Title(fields)| + 1 && at == lo - 1
    requires DownwardClosed(t, fields, template, replaceIllegal, budget)
    requires forall k :: hi < k <= |Title(fields)| ==> !FitsAt(t, fields, template, replaceIllegal, budget, k)
    ensures var r := Search(t, fields, template, replaceIllegal, budget, lo, hi, at);
            forall k :: 0 <= k <= |Title(fields)| && k > r ==> !FitsAt(t, fields, template, replaceIllegal, budget, k)
    decreases hi - lo + 1
  {
    hide FitsAt;
    if lo <= hi {
      var mid := (lo + hi) / 2;
      if FitsAt(t, fields, template, replaceIllegal, budget, mid) {
        SearchFindsLongest(t, fields, template, replaceIllegal, budget, mid + 1, hi, mid);
      } else {
        SearchFindsLongest(t, fields, template, replaceIllegal, budget, lo, mid - 1, at);
      }
    }
  }

  /**
   Where nothing pads the title, a shorter one never renders wider, whatever the
   fields, the budget and the rest of the template; so the search finds the longest.
   */
  lemma UnpaddedSearchFindsLongest(t: Tables, fields: Fields, template: string, replaceIllegal: bool, budget: int)
    requires CaseGrows(t) && NoPadding(t, template, Title(fields))
    ensures DownwardClosed(t, fields, template, replaceIllegal, budget)
    ensures FindsLongest(t, fields, template, replaceIllegal, budget)
  {
    hide Like, Covers, CaseGrows, RenderBody, StartsNumeric, NonePads, ByteLength, Search, Pieces, FitsAt;
    var title := Title(fields);
    forall j: nat, k: nat | j <= k <= |title| && FitsAt(t, fields, template, replaceIllegal, budget, k)
      ensures FitsAt(t, fields, template, replaceIllegal, budget, j)
    {
      TrimmedPrefix(title, j, k, t.space);
      var u, v := Trial(t, fields, j), Trial(t, fields, k);
      PartsNarrower(t, fields, Parts(template), title, u, v);
      CleaningKeepsNarrower(t, template, fields[SeriesTitle := u], fields[SeriesTitle := v], replaceIllegal);
      FitsIs(t, fields, template, replaceIllegal, budget, j);
      FitsIs(t, fields, template, replaceIllegal, budget, k);
    }
    SearchFindsLongest(t, fields, template, replaceIllegal, budget, 0, |title|, -1);
  }

  // ----- a padded title ------------------------------------------------------------------

  lemma BodyOfRender(t: Tables, template: string, fields: Fields)
    ensures RenderBody(t, template, fields, true)
         == Strip(Strip(Collapse(ReplaceIllegal(Rendered(t, fields, template)), false), t.space), SpaceOrDot)
  {
  }

  lemma RunIs(s: string, stop: string, n: nat)
    requires n < |s| && s[n] in stop && forall i :: 0 <= i < n ==> s[i] !in stop
    ensures Run(s, stop) == n
  {
  }

  lemma {:induction false} NoGroup(s: string)
    requires '[' !in s
    ensures FindGroup(s).None?
  {
    if s != "" {
      NoGroup(s[1..]);
    }
  }

  /** Nothing in `s` is illegal, white space or a dot. */
  predicate Clean(s: string, space: char -> bool) {
    forall i :: 0 <= i < |s| ==> !Illegal(s[i]) && !SpaceOrDot(s[i]) && s[i] != '\t' && !space(s[i])
  }

  lemma {:induction false} NothingToReplace(s: string, space: char -> bool)
    requires Clean(s, space)
    ensures ReplaceIllegal(s) == s && Collapse(s, false) == s
  {
    hide Illegal;
    if s != "" {
      NothingToReplace(s[1..], space);
      assert s == [s[0]] + s[1..];
    }
  }

  lemma NothingToClean(s: string, space: char -> bool)
    requires Clean(s, space)
    ensures Strip(Strip(Collapse(ReplaceIllegal(s), false), space), SpaceOrDot) == s
  {
    NothingToReplace(s, space);
    hide Illegal, Collapse, ReplaceIllegal;
  }

  /** The template of one padded title token. */
  function Padded(pad: string): string {
    "{Series Title:" + pad + "}"
  }

  predicate PlainPad(pad: string) {
    forall i :: 0 <= i < |pad| ==> pad[i] !in "{}[]"
  }

  /** The name of the token is read as the title's, in its own case, and these characters are no white space. */
  predicate ReadsSeriesTitle(t: Tables) {
    && t.canonical("Series Title") == "series title" && t.caseOf("Series Title") == AsIs
    && !t.space('0') && !t.space('5') && !t.space(':')
  }

  /** A token as templates write it. */
  predicate IsToken(p: Piece) {
    && p.Token? && p.name != "" && (forall i :: 0 <= i < |p.name| ==> p.name[i] !in "{}:")
    && (p.pad.Some? ==> forall i :: 0 <= i < |p.pad.value| ==> p.pad.value[i] !in "{}")
  }

  lemma NameRuns(name: string, tail: string)
    requires (forall i :: 0 <= i < |name| ==> name[i] !in "{}:") && tail != "" && tail[0] in "{}:"
    ensures var s := "{" + (name + tail);
            Run(s[1..], "{}:") == |name| && s[1..|name| + 1] == name && s[|name| + 1..] == tail
  {
    var s := "{" + (name + tail);
    assert s[1..] == name + tail;
    assert forall i :: 0 <= i < |name| ==> s[1..][i] == name[i];
    RunIs(s[1..], "{}:", |name|);
  }

  lemma PadRuns(pad: string, tail: string)
    requires (forall i :: 0 <= i < |pad| ==> pad[i] !in "{}") && tail != "" && tail[0] == '}'
    ensures Run(pad + tail, "{}") == |pad|
  {
    assert forall i :: 0 <= i < |pad| ==> (pad + tail)[i] == pad[i];
    RunIs(pad + tail, "{}", |pad|);
  }

  lemma BareTokenReads(name: string, rest: string)
    requires IsToken(Token(name, None))
    ensures TokenAt("{" + (name + ("}" + rest))) == Some(Token(name, None))
  {
    hide Run;
    NameRuns(name, "}" + rest);
    var s := "{" + (name + ("}" + rest));
    assert s[|name| + 1] == s[|name| + 1..][0];
  }

  lemma ColonLeadsToPad(s: string, n: nat)
    requires 0 < n && n + 1 < |s| && s[0] == '{' && Run(s[1..], "{}:") == n && s[n + 1] == ':'
    ensures TokenAt(s) == PadAt(s, n)
  {
    hide Run, PadAt;
  }

  lemma PadAtIs(s: string, n: nat, pad: string)
    requires 0 < n && n + 1 < |s| && s[0] == '{' && s[n + 1] == ':'
    requires Run(s[n + 2..], "{}") == |pad| && n + 2 + |pad| < |s|
    requires s[n + 2..n + 2 + |pad|] == pad && s[n + 2 + |pad|] == '}'
    ensures PadAt(s, n) == Some(Token(s[1..n + 1], Some(pad)))
  {
    hide Run;
  }

  lemma TailOfPad(s: string, n: nat, pad: string, rest: string)
    requires n + 1 < |s| && s[n + 1..] == ":" + (pad + ("}" + rest))
    ensures s[n + 1] == ':' && s[n + 2..] == pad + ("}" + rest) && n + 2 + |pad| < |s|
    ensures s[n + 2..n + 2 + |pad|] == pad && s[n + 2 + |pad|] == '}'
  {
    var tail := pad + ("}" + rest);
    assert s[n + 1] == s[n + 1..][0];
    assert s[n + 2..] == s[n + 1..][1..] == tail;
    assert s[n + 2..n + 2 + |pad|] == tail[..|pad|] && s[n + 2 + |pad|] == tail[|pad|];
  }

  lemma PaddedTokenReads(name: string, pad: string, rest: string)
    requires IsToken(Token(name, Some(pad)))
    ensures TokenAt("{" + (name + (":" + (pad + ("}" + rest))))) == Some(Token(name, Some(pad)))
  {
    var s := "{" + (name + (":" + (pad + ("}" + rest))));
    hide Run, PadAt, TokenAt;
    NameRuns(name, ":" + (pad + ("}" + rest)));
    PadRuns(pad, "}" + rest);
    TailOfPad(s, |name|, pad, rest);
    ColonLeadsToPad(s, |name|);
    PadAtIs(s, |name|, pad);
  }

  lemma TokenReads(p: Piece, rest: string)
    requires p.Token? && IsToken(p)
    ensures TokenAt(PieceText(p) + rest) == Some(p)
  {
    hide TokenAt, IsToken;
    if p.pad.Some? {
      PaddedTokenReads(p.name, p.pad.value, rest);
      PaddedTokenText(p.name, p.pad.value, rest);
    } else {
      BareTokenReads(p.name, rest);
      assert PieceText(p) + rest == "{" + (p.name + ("}" + rest));
    }
  }

  lemma PaddedTokenText(name: string, pad: string, rest: string)
    ensures PieceText(Token(name, Some(pad))) + rest == "{" + (name + (":" + (pad + ("}" + rest))))
  {
  }

  lemma PiecesOfToken(p: Piece, rest: string)
    requires IsToken(p)
    ensures Pieces(PieceText(p) + rest) == [p] + Pieces(rest)
  {
    hide TokenAt;
    TokenReads(p, rest);
    assert (PieceText(p) + rest)[|PieceText(p)|..] == rest;
  }

  lemma SeriesTitleIsToken(pad: string)
    requires PlainPad(pad)
    ensures IsToken(Token("Series Title", Some(pad)))
  {
  }

  lemma PaddedLexes(pad: string)
    requires PlainPad(pad)
    ensures Pieces(Padded(pad)) == [Token("Series Title", Some(pad))]
  {
    var token := Token("Series Title", Some(pad));
    assert PieceText(token) + "" == Padded(pad) by { SeriesTitleText(pad); }
    assert Pieces("") == [];
    SeriesTitleIsToken(pad);
    hide *;
    PiecesOfToken(token, "");
  }

  lemma SeriesTitleText(pad: string)
    ensures PieceText(Token("Series Title", Some(pad))) + "" == Padded(pad)
  {
  }

  lemma PaddedParts(pad: string)
    requires PlainPad(pad)
    ensures Parts(Padded(pad)) == [Segment(Padded(pad))]
  {
    assert '[' !in "{Series Title:";
    NoGroup(Padded(pad));
  }

  lemma PaddedTitle(t: Tables, fields: Fields, pad: string, title: string)
    requires ReadsSeriesTitle(t)
    ensures TokenValue(t, fields[SeriesTitle := title], "Series Title", Some(pad)) ==
            if title == "" then "" else ApplyPad(t.digit, title, pad)
  {
    hide ApplyPad;
    assert FieldOf(t, "Series Title") == Some(SeriesTitle);
  }

  lemma OneToken(t: Tables, fields: Fields, template: string, name: string, pad: Option<string>)
    requires Parts(template) == [Segment(template)] && Pieces(template) == [Token(name, pad)]
    ensures Rendered(t, fields, template) == TokenValue(t, fields, name, pad)
  {
    hide Pieces, Parts, TokenValue;
    assert [Token(name, pad)][1..] == [] && [Segment(template)][1..] == [];
    var value := TokenValue(t, fields, name, pad);
    assert RenderPieces(t, fields, Pieces(template)) == value + "" == value;
    assert RenderParts(t, fields, Parts(template)) == value + "";
  }

  lemma PaddedRenders(t: Tables, fields: Fields, pad: string, title: string)
    requires ReadsSeriesTitle(t) && PlainPad(pad)
    ensures Rendered(t, fields[SeriesTitle := title], Padded(pad)) ==
            if title == "" then "" else ApplyPad(t.digit, title, pad)
  {
    hide *;
    PaddedParts(pad);
    PaddedLexes(pad);
    PaddedTitle(t, fields, pad, title);
    OneToken(t, fields[SeriesTitle := title], Padded(pad), "Series Title", Some(pad));
  }

  lemma {:induction false} BytesAtLeast(s: string)
    ensures ByteLength(s) >= |s|
  {
    if s != "" {
      Utf8.EncodeCons(s);
      BytesAtLeast(s[1..]);
    }
  }

  lemma DissectFive(digit: DigitTable)
    ensures Dissect("5") == Naming.Number(false, "5", "") && !IsDigits(digit, Dissect("5:").whole)
  {
    var n := Naming.Number(false, "5", "");
    assert NumberText(n) == "5";
    DissectText(digit, n);
    assert "5:"[..1] == "5" && Dot("5:") == 2 by { DotOfNone("5:"); }
    assert "5:"[..2] == "5:" && !digit("5:"[1]);
  }

  lemma {:induction false} DotOfNone(s: string)
    requires '.' !in s
    ensures Dot(s) == |s|
  {
    assert forall i :: 0 <= i < |s| ==> s[i] in s;
  }

  lemma ApplyPadIs(digit: DigitTable, value: string, pad: string)
    ensures var n := Dissect(value);
            ApplyPad(digit, value, pad) ==
            if pad == "" || !IsDigits(digit, n.whole) then value
                else NumberText(Naming.Number(n.negative, ZFill(n.whole, |pad|), n.rest))
  {
    hide Dissect, NumberText, IsDigits, ZFill;
  }

  lemma WholeOnly(whole: string)
    ensures NumberText(Naming.Number(false, whole, "")) == whole
  {
    assert "" + whole + "" == whole;
  }

  /** A digit behind zeros. */
  function PadOut(d: string, width: nat): string
    requires width >= 1
  {
    Zeros(width - 1) + d
  }

  lemma FillDigit(d: string, width: nat)
    requires |d| == 1 && width >= 1
    ensures ZFill(d, width) == PadOut(d, width)
  {
    assert Zeros(0) + d == d;
  }

  lemma PadsDigit(digit: DigitTable, d: string, pad: string)
    requires |pad| >= 1 && |d| == 1 && IsDigits(digit, d) && Dissect(d) == Naming.Number(false, d, "")
    ensures ApplyPad(digit, d, pad) == PadOut(d, |pad|)
  {
    hide *;
    ApplyPadIs(digit, d, pad);
    FillDigit(d, |pad|);
    WholeOnly(PadOut(d, |pad|));
  }

  /** "5" is padded to the width, and "5:" is not. */
  lemma PadsFive(digit: DigitTable, pad: string)
    requires |pad| >= 1
    ensures ApplyPad(digit, "5", pad) == PadOut("5", |pad|) && ApplyPad(digit, "5:", pad) == "5:"
  {
    assert IsDigits(digit, "5");
    hide *;
    DissectFive(digit);
    PadsDigit(digit, "5", pad);
    ApplyPadIs(digit, "5:", pad);
  }

  lemma {:induction false} ZeroAt(n: nat, i: nat)
    requires i < n
    ensures Zeros(n)[i] == '0'
  {
    if i > 0 {
      ZeroAt(n - 1, i - 1);
    }
  }

  lemma PaddedFiveIsClean(t: Tables, n: nat)
    requires ReadsSeriesTitle(t)
    ensures Clean(PadOut("5", n + 1), t.space)
  {
    forall i | 0 <= i < n ensures Zeros(n)[i] == '0' {
      ZeroAt(n, i);
    }
  }

  lemma ColonIsReplaced()
    ensures Collapse(ReplaceIllegal("5:"), false) == "5 "
  {
    assert "5:"[1..] == ":" && ":"[1..] == "" && "5 "[1..] == " " && " "[1..] == "";
    assert ReplaceIllegal(":") == " ";
    assert ReplaceIllegal("5:") == "5 ";
    assert Collapse(" ", false) == " ";
  }

  lemma SpaceIsStripped(p: char -> bool)
    requires !p('5')
    ensures Strip("5", p) == "5" && Strip("5 ", p) == if p(' ') then "5" else "5 "
  {
    StripLeftFacts("5", p);
    StripLeftFacts("5 ", p);
    assert "5 "[..1] == "5" && "5"[..0] == "";
  }

  lemma CutFiveIsShort(t: Tables)
    requires ReadsSeriesTitle(t)
    ensures Strip(Strip(Collapse(ReplaceIllegal("5:"), false), t.space), SpaceOrDot) == "5"
  {
    hide Strip, Collapse, ReplaceIllegal;
    ColonIsReplaced();
    SpaceIsStripped(t.space);
    SpaceIsStripped(SpaceOrDot);
  }

  /** The bodies of the example at its first two prefixes, in bytes. */
  lemma ExampleBodies(t: Tables, fields: Fields, pad: string)
    requires ReadsSeriesTitle(t) && PlainPad(pad) && |pad| >= 1
    ensures ByteLength(RenderBody(t, Padded(pad), fields[SeriesTitle := "5"], true)) >= |pad|
    ensures ByteLength(RenderBody(t, Padded(pad), fields[SeriesTitle := "5:"], true)) == 1
    ensures ByteLength(RenderBody(t, Padded(pad), fields[SeriesTitle := ""], true)) == 0
  {
    hide *;
    PaddedRenders(t, fields, pad, "5");
    PaddedRenders(t, fields, pad, "5:");
    PaddedRenders(t, fields, pad, "");
    PadsFive(t.digit, pad);
    PaddedFiveIsClean(t, |pad| - 1);
    NothingToClean(PadOut("5", |pad|), t.space);
    NothingIsClean(t.space);
    NothingToClean("", t.space);
    CutFiveIsShort(t);
    BodyOfRender(t, Padded(pad), fields[SeriesTitle := "5"]);
    BodyOfRender(t, Padded(pad), fields[SeriesTitle := "5:"]);
    BodyOfRender(t, Padded(pad), fields[SeriesTitle := ""]);
    BytesAtLeast(PadOut("5", |pad|));
    assert |PadOut("5", |pad|)| == |pad| by { PadOutLength("5", |pad|); }
    OneByte();
  }

  lemma PadOutLength(d: string, width: nat)
    requires |d| == 1 && width >= 1
    ensures |PadOut(d, width)| == width
  {
  }

  lemma NothingIsClean(space: char -> bool)
    ensures Clean("", space)
  {
  }

  lemma OneByte()
    ensures ByteLength("5") == 1 && ByteLength("") == 0
  {
    assert "5"[1..] == "";
  }

  lemma ExampleTrials(t: Tables, fields: Fields)
    requires ReadsSeriesTitle(t) && Title(fields) == "5:x"
    ensures Trial(t, fields, 0) == "" && Trial(t, fields, 1) == "5" && Trial(t, fields, 2) == "5:"
  {
    assert "5:x"[..0] == "" && "5:x"[..1] == "5" && "5:x"[..2] == "5:";
  }

  /**
   Padding makes the title "5" wider than "5:", whose colon is replaced and then
   stripped. Within one byte the search ends on the empty title, though "5:" fits.
   */
  lemma SearchCanStopShort(t: Tables, pad: string)
    requires ReadsSeriesTitle(t) && PlainPad(pad) && |pad| >= 2
    ensures var fields := map[SeriesTitle := "5:x"];
            && Title(fields) == "5:x" && Search(t, fields, Padded(pad), true, 1, 0, 3, -1) == 0
            && FitsAt(t, fields, Padded(pad), true, 1, 2) && !FindsLongest(t, fields, Padded(pad), true, 1)
  {
    var fields: Fields := map[SeriesTitle := "5:x"];
    assert Title(fields) == "5:x";
    ExampleTrials(t, fields);
    ExampleBodies(t, fields, pad);
    hide RenderBody, Trial, ByteLength, Padded, FitsAt;
    FitsIs(t, fields, Padded(pad), true, 1, 0);
    FitsIs(t, fields, Padded(pad), true, 1, 1);
    FitsIs(t, fields, Padded(pad), true, 1, 2);
    SearchOfThree(t, fields, Padded(pad), 1);
  }

  lemma SearchOfThree(t: Tables, fields: Fields, template: string, budget: int)
    requires |Title(fields)| == 3
    requires FitsAt(t, fields, template, true, budget, 0) && !FitsAt(t, fields, template, true, budget, 1)
    ensures Search(t, fields, template, true, budget, 0, 3, -1) == 0
  {
    hide FitsAt;
    assert Search(t, fields, template, true, budget, 1, 0, 0) == 0;
    assert Search(t, fields, template, true, budget, 0, 0, -1) == 0;
  }

  /**
   For a template of one title token, the search always finds the longest title iff the pad is at
   most one digit wide.
   */
  lemma PadWidthDecides(t: Tables, pad: string)
    requires ReadsSeriesTitle(t) && CaseGrows(t) && PlainPad(pad)
    ensures (forall fields, budget :: FindsLongest(t, fields, Padded(pad), true, budget)) <==> |pad| <= 1
  {
    if |pad| >= 2 {
      SearchCanStopShort(t, pad);
    } else {
      PaddedParts(pad);
      PaddedLexes(pad);
      hide FindsLongest, Padded, CaseGrows, Pieces, Parts, StartsNumeric;
      assert NeverPadsTitle(t, Padded(pad));
      forall fields: Fields, budget: int ensures FindsLongest(t, fields, Padded(pad), true, budget) {
        UnpaddedSearchFindsLongest(t, fields, Padded(pad), true, budget);
      }
    }
  }
}
