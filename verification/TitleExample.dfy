/**
 A title search that stops short at the default limit (backend/src/foragerr/naming.py),
 with a template that names the issue besides the padded title.
 */
module TitleExample {
  import opened Strings
  import opened Naming
  import opened FileNames
  import opened TitleFit
  import Utf8

  const DEFAULT_MAX_FILENAME_BYTES := 255

  const ISSUE_TITLE := Token("Issue Title", None)
  const SERIES_TITLE := Token("Series Title", Some("00"))
  const ISSUE_NUMBER := Token("Issue Number", None)

  /** `{Issue Title} {Series Title:00} {Issue Number}`. */
  function Template(): string {
    PieceText(ISSUE_TITLE) + (" " + (PieceText(SERIES_TITLE) + (" " + (PieceText(ISSUE_NUMBER) + ""))))
  }

  // ----- the render ------------------------------------------------------------------

  lemma ThreeTokens()
    ensures IsToken(ISSUE_TITLE) && IsToken(SERIES_TITLE) && IsToken(ISSUE_NUMBER)
  {
    assert PlainPad("00");
    hide PlainPad;
  }

  lemma PiecesOfSpace(rest: string)
    ensures Pieces(" " + rest) == [Literal(' ')] + Pieces(rest)
  {
    assert (" " + rest)[1..] == rest;
  }

  lemma TokenAlone(p: Piece)
    requires p.Token? && IsToken(p)
    ensures Pieces(PieceText(p) + "") == [p]
  {
    assert Pieces("") == [];
    hide *;
    PiecesOfToken(p, "");
    assert [p] + [] == [p];
  }

  lemma TokenThenSpace(p: Piece, rest: string, ps: seq<Piece>)
    requires p.Token? && IsToken(p) && Pieces(rest) == ps
    ensures Pieces(PieceText(p) + (" " + rest)) == [p, Literal(' ')] + ps
  {
    hide *;
    PiecesOfToken(p, " " + rest);
    PiecesOfSpace(rest);
    Rebracket(p, Literal(' '), ps);
  }

  lemma Rebracket(p: Piece, q: Piece, ps: seq<Piece>)
    ensures [p] + ([q] + ps) == [p, q] + ps
  {
  }

  lemma TemplateLexes()
    ensures Pieces(Template()) == [ISSUE_TITLE, Literal(' '), SERIES_TITLE, Literal(' '), ISSUE_NUMBER]
  {
    ThreeTokens();
    hide PieceText, IsToken, Pieces;
    var last := PieceText(ISSUE_NUMBER) + "";
    TokenAlone(ISSUE_NUMBER);
    TokenThenSpace(SERIES_TITLE, last, [ISSUE_NUMBER]);
    TokenThenSpace(ISSUE_TITLE, PieceText(SERIES_TITLE) + (" " + last), [SERIES_TITLE, Literal(' ')] + [ISSUE_NUMBER]);
  }

  lemma TemplateIsOnePart()
    ensures Parts(Template()) == [Segment(Template())]
  {
    assert '[' !in Template();
    NoGroup(Template());
  }

  /** The names of the tokens are read as the fields', in their own case. */
  predicate ReadsTheTokens(t: Tables) {
    && ReadsSeriesTitle(t) && !t.space('1')
    && t.canonical("Issue Title") == "issue title" && t.caseOf("Issue Title") == AsIs
    && t.canonical("Issue Number") == "issue number" && t.caseOf("Issue Number") == AsIs
  }

  function IssueFields(name: string, title: string): Fields {
    map[IssueTitle := name, SeriesTitle := title, Issue := "1"]
  }

  lemma TokenValues(t: Tables, name: string, title: string)
    requires ReadsTheTokens(t)
    ensures RenderPiece(t, IssueFields(name, title), ISSUE_TITLE) == name
    ensures RenderPiece(t, IssueFields(name, title), SERIES_TITLE) ==
            if title == "" then "" else ApplyPad(t.digit, title, "00")
    ensures RenderPiece(t, IssueFields(name, title), ISSUE_NUMBER) == "1"
  {
    hide ApplyPad;
    assert FieldOf(t, "Issue Title") == Some(IssueTitle) && FieldOf(t, "Series Title") == Some(SeriesTitle);
    assert FieldOf(t, "Issue Number") == Some(Issue);
  }

  lemma RenderThenSpace(t: Tables, fields: Fields, p: Piece, rest: seq<Piece>)
    ensures RenderPieces(t, fields, [p, Literal(' ')] + rest) ==
            RenderPiece(t, fields, p) + (" " + RenderPieces(t, fields, rest))
    ensures RenderPieces(t, fields, [p]) == RenderPiece(t, fields, p)
  {
    assert RenderPiece(t, fields, Literal(' ')) == " ";
    hide *;
    RenderOne(t, fields, p, [Literal(' ')] + rest);
    RenderOne(t, fields, Literal(' '), rest);
    RenderOne(t, fields, p, []);
    Rebracket(p, Literal(' '), rest);
    assert [p] + [] == [p] && RenderPiece(t, fields, p) + "" == RenderPiece(t, fields, p);
  }

  lemma RenderFive(t: Tables, fields: Fields, a: Piece, b: Piece, c: Piece)
    ensures RenderPieces(t, fields, [a, Literal(' '), b, Literal(' '), c]) ==
            RenderPiece(t, fields, a) +
              (" " + (RenderPiece(t, fields, b) + (" " + RenderPiece(t, fields, c))))
  {
    hide *;
    RenderThenSpace(t, fields, c, []);
    RenderThenSpace(t, fields, b, [c]);
    RenderThenSpace(t, fields, a, [b, Literal(' ')] + [c]);
    assert [a, Literal(' ')] + ([b, Literal(' ')] + [c]) == [a, Literal(' '), b, Literal(' '), c];
  }

  lemma RenderOne(t: Tables, fields: Fields, p: Piece, rest: seq<Piece>)
    ensures RenderPieces(t, fields, [p] + rest) == RenderPiece(t, fields, p) + RenderPieces(t, fields, rest)
    ensures RenderPieces(t, fields, []) == ""
  {
    assert ([p] + rest)[1..] == rest;
  }

  /** What the padded title stands for. */
  function Shown(t: Tables, title: string): string {
    if title == "" then "" else ApplyPad(t.digit, title, "00")
  }

  lemma TemplateRenders(t: Tables, name: string, title: string)
    requires ReadsTheTokens(t)
    ensures Rendered(t, IssueFields(name, title), Template()) == name + (" " + (Shown(t, title) + (" " + "1")))
  {
    TokenValues(t, name, title);
    var fields := IssueFields(name, title);
    hide Template, ApplyPad, RenderPiece, IssueFields, ReadsTheTokens;
    TemplateIsOnePart();
    TemplateLexes();
    RenderFive(t, fields, ISSUE_TITLE, SERIES_TITLE, ISSUE_NUMBER);
    OnePart(t, fields, Template());
  }

  lemma OnePart(t: Tables, fields: Fields, template: string)
    requires Parts(template) == [Segment(template)]
    ensures Rendered(t, fields, template) == RenderPieces(t, fields, Pieces(template))
  {
    hide Pieces, Parts, RenderPieces;
    assert [Segment(template)][1..] == [];
    assert RenderParts(t, fields, Parts(template)) == RenderPieces(t, fields, Pieces(template)) + "";
  }

  // ----- the clean body --------------------------------------------------------------

  function Cleaned(s: string, after: bool): string {
    Collapse(ReplaceIllegal(s), after)
  }

  lemma {:induction false} CleanStays(a: string, s: string, after: bool, space: char -> bool)
    requires a != "" && Clean(a, space)
    ensures Cleaned(a + s, after) == a + Cleaned(s, false)
  {
    hide Illegal;
    assert (a + s)[1..] == a[1..] + s;
    if |a| > 1 {
      CleanStays(a[1..], s, false, space);
      assert a == [a[0]] + a[1..];
    } else {
      assert a[1..] + s == s && a == [a[0]];
    }
  }

  lemma BlankCollapses(c: char, s: string, after: bool)
    requires c == ' ' || Illegal(c)
    ensures Cleaned([c] + s, after) == (if after then "" else " ") + Cleaned(s, true)
  {
    assert ([c] + s)[1..] == s;
    hide Illegal;
    assert ReplaceIllegal([c] + s) == [' '] + ReplaceIllegal(s);
    assert ([' '] + ReplaceIllegal(s))[1..] == ReplaceIllegal(s);
  }

  lemma NothingCleaned()
    ensures Cleaned("", false) == ""
  {
  }

  lemma CleanCharacters(t: Tables)
    requires ReadsTheTokens(t) && !t.space('x')
    ensures Clean("1", t.space) && Clean("5", t.space) && Clean("05", t.space) && Clean("x", t.space) && Illegal(':')
  {
  }

  lemma LastOne(t: Tables, after: bool)
    requires ReadsTheTokens(t) && !t.space('x')
    ensures Cleaned(" " + "1", after) == (if after then "1" else " 1")
  {
    CleanCharacters(t);
    hide Cleaned, Clean, ReadsTheTokens;
    BlankCollapses(' ', "1", after);
    CleanStays("1", "", true, t.space);
    NothingCleaned();
    assert "1" + "" == "1" && "" + "1" == "1";
  }

  /** What follows the issue title in the body of a title that needs no cleaning. */
  lemma CleanTail(t: Tables, shown: string)
    requires ReadsTheTokens(t) && !t.space('x') && shown != "" && Clean(shown, t.space)
    ensures Cleaned(" " + (shown + (" " + "1")), false) == " " + (shown + " 1")
  {
    LastOne(t, false);
    hide Cleaned, Clean, ReadsTheTokens;
    BlankCollapses(' ', shown + (" " + "1"), false);
    CleanStays(shown, " " + "1", true, t.space);
  }

  lemma EmptyTail(t: Tables)
    requires ReadsTheTokens(t) && !t.space('x')
    ensures Cleaned(" " + ("" + (" " + "1")), false) == " 1"
  {
    LastOne(t, true);
    hide Cleaned, ReadsTheTokens;
    BlankCollapses(' ', " " + "1", false);
    assert "" + (" " + "1") == " " + "1";
  }

  /** A colon behind the first character becomes a space, which joins the next one. */
  lemma ColonTail(t: Tables, rest: string, clean: string)
    requires ReadsTheTokens(t) && !t.space('x') && Cleaned(rest + (" " + "1"), true) == clean
    ensures Cleaned(" " + (("5:" + rest) + (" " + "1")), false) == " 5 " + clean
  {
    CleanCharacters(t);
    hide Cleaned, Clean, ReadsTheTokens, Illegal;
    var tail := rest + (" " + "1");
    BlankCollapses(' ', ("5:" + rest) + (" " + "1"), false);
    assert ("5:" + rest) + (" " + "1") == "5" + ([':'] + tail);
    CleanStays("5", [':'] + tail, true, t.space);
    BlankCollapses(':', tail, false);
    assert " " + ("5" + (" " + clean)) == " 5 " + clean;
  }

  lemma LastTail(t: Tables)
    requires ReadsTheTokens(t) && !t.space('x')
    ensures Cleaned("" + (" " + "1"), true) == "1" && Cleaned("x" + (" " + "1"), true) == "x 1"
  {
    CleanCharacters(t);
    LastOne(t, true);
    LastOne(t, false);
    hide Cleaned, Clean, ReadsTheTokens;
    CleanStays("x", " " + "1", true, t.space);
    assert "" + (" " + "1") == " " + "1" && "x" + " 1" == "x 1";
  }

  lemma ColonTails(t: Tables)
    requires ReadsTheTokens(t) && !t.space('x')
    ensures Cleaned(" " + ("5:" + (" " + "1")), false) == " 5 1"
    ensures Cleaned(" " + ("5:x" + (" " + "1")), false) == " 5 x 1"
  {
    hide Cleaned, ReadsTheTokens;
    LastTail(t);
    ColonTail(t, "", "1");
    ColonTail(t, "x", "x 1");
    assert "5:" + "" == "5:" && "5:" + "x" == "5:x" && " 5 " + "1" == " 5 1" && " 5 " + "x 1" == " 5 x 1";
  }

  /** The ends of the bodies of the first prefixes of `5:x`. */
  lemma Tails(t: Tables)
    requires ReadsTheTokens(t) && !t.space('x')
    ensures Cleaned(" " + ("" + (" " + "1")), false) == " 1"
    ensures Cleaned(" " + ("05" + (" " + "1")), false) == " 05 1"
    ensures Cleaned(" " + ("5:" + (" " + "1")), false) == " 5 1"
    ensures Cleaned(" " + ("5:x" + (" " + "1")), false) == " 5 x 1"
  {
    CleanCharacters(t);
    hide Cleaned, Clean, ReadsTheTokens;
    EmptyTail(t);
    CleanTail(t, "05");
    assert " " + ("05" + " 1") == " 05 1";
    ColonTails(t);
  }

  lemma BodyOfTail(t: Tables, name: string, title: string, tail: string)
    requires ReadsTheTokens(t) && name != "" && Clean(name, t.space)
    requires tail != "" && tail[|tail| - 1] == '1' && Cleaned(" " + (Shown(t, title) + (" " + "1")), false) == tail
    ensures RenderBody(t, Template(), IssueFields(name, title), true) == name + tail
    ensures ByteLength(name + tail) == ByteLength(name) + ByteLength(tail)
  {
    var body := name + tail;
    assert body[0] == name[0] && body[|body| - 1] == '1';
    assert !t.space('1') && !SpaceOrDot('1') && !t.space(name[0]) && !SpaceOrDot(name[0]);
    hide Template, IssueFields, ReadsTheTokens, RenderBody, Shown, ByteLength, Clean, Strip;
    TemplateRenders(t, name, title);
    BodyOfRender(t, Template(), IssueFields(name, title));
    CleanStays(name, " " + (Shown(t, title) + (" " + "1")), false, t.space);
    NothingStripped(body, t.space);
    NothingStripped(body, SpaceOrDot);
    NameBytes(name, tail);
  }

  // ----- the bytes -------------------------------------------------------------------

  /** Text without white space in which every character is a small letter. */
  predicate Letters(t: Tables, s: string) {
    forall i :: 0 <= i < |s| ==> 'a' <= s[i] <= 'z' && !t.space(s[i])
  }

  lemma {:induction false} AsciiBytes(s: string)
    requires forall i :: 0 <= i < |s| ==> s[i] < '\U{80}'
    ensures ByteLength(s) == |s|
  {
    if s != "" {
      Utf8.EncodeCons(s);
      AsciiBytes(s[1..]);
    }
  }

  lemma LettersAreClean(t: Tables, name: string)
    requires Letters(t, name)
    ensures Clean(name, t.space) && ByteLength(name) == |name|
  {
    AsciiBytes(name);
  }

  lemma ShownTitles(t: Tables)
    ensures Shown(t, "") == "" && Shown(t, "5") == "05" && Shown(t, "5:") == "5:"
  {
    PadsFive(t.digit, "00");
    assert Zeros(1) == "0" && PadOut("5", 2) == "05" by { assert Zeros(0) == ""; }
    hide ApplyPad;
  }

  lemma WholeTitleShown(t: Tables)
    ensures Shown(t, "5:x") == "5:x"
  {
    var s := "5:x";
    assert s[..1] == "5" && Dot(s) == 3 by { DotOfNone(s); }
    assert s[..3] == s && !t.digit(s[1]);
    assert !IsDigits(t.digit, Dissect(s).whole);
    ApplyPadIs(t.digit, s, "00");
    hide ApplyPad;
  }

  lemma TailBytes()
    ensures ByteLength(" 1") == 2 && ByteLength(" 05 1") == 5 && ByteLength(" 5 1") == 4 && ByteLength(" 5 x 1") == 6
    ensures ByteLength(".cbz") == 4
  {
    hide ByteLength;
    AsciiBytes(" 1");
    AsciiBytes(" 05 1");
    AsciiBytes(" 5 1");
    AsciiBytes(" 5 x 1");
    AsciiBytes(".cbz");
  }

  lemma BodyBytes(t: Tables, name: string)
    requires ReadsTheTokens(t) && !t.space('x') && Letters(t, name) && |name| == 247
    ensures ByteLength(RenderBody(t, Template(), IssueFields(name, ""), true)) == 249
    ensures ByteLength(RenderBody(t, Template(), IssueFields(name, "5"), true)) == 252
    ensures ByteLength(RenderBody(t, Template(), IssueFields(name, "5:"), true)) == 251
    ensures ByteLength(RenderBody(t, Template(), IssueFields(name, "5:x"), true)) == 253
  {
    LettersAreClean(t, name);
    ShownTitles(t);
    WholeTitleShown(t);
    Tails(t);
    TailBytes();
    hide Template, IssueFields, ReadsTheTokens, RenderBody, Shown, ByteLength, Clean, Letters, Cleaned;
    BodyOfTail(t, name, "", " 1");
    BodyOfTail(t, name, "5", " 05 1");
    BodyOfTail(t, name, "5:", " 5 1");
    BodyOfTail(t, name, "5:x", " 5 x 1");
  }

  /**
   An issue title of 247 letters leaves room for "5:" within the default limit, but
   not for "5", which is padded: the search ends on the empty title.
   */
  lemma SearchStopsShortOfTheLimit(t: Tables, name: string)
    requires ReadsTheTokens(t) && !t.space('x') && Letters(t, name) && |name| == 247
    ensures var fields, budget := IssueFields(name, "5:x"), DEFAULT_MAX_FILENAME_BYTES - ByteLength(".cbz");
            && Title(fields) == "5:x" && ByteLength(RenderBody(t, Template(), fields, true)) > budget
            && Search(t, fields, Template(), true, budget, 0, 3, -1) == 0
            && FitsAt(t, fields, Template(), true, budget, 2)
            && !FindsLongest(t, fields, Template(), true, budget)
  {
    var fields := IssueFields(name, "5:x");
    assert Title(fields) == "5:x";
    ExampleTrials(t, fields);
    SameFields(name);
    BodyBytes(t, name);
    TailBytes();
    hide RenderBody, Trial, ByteLength, Template, FitsAt, IssueFields, Letters, ReadsTheTokens;
    FitsIs(t, fields, Template(), true, 251, 0);
    FitsIs(t, fields, Template(), true, 251, 1);
    FitsIs(t, fields, Template(), true, 251, 2);
    SearchOfThree(t, fields, Template(), 251);
  }

  lemma SameFields(name: string)
    ensures IssueFields(name, "5:x")[SeriesTitle := ""] == IssueFields(name, "")
    ensures IssueFields(name, "5:x")[SeriesTitle := "5"] == IssueFields(name, "5")
    ensures IssueFields(name, "5:x")[SeriesTitle := "5:"] == IssueFields(name, "5:")
  {
  }
}
