/**
 The naming engine (backend/src/foragerr/naming.py): templates of tokens and
 optional groups, decimal-safe padding, and file names within a byte budget.
 Unicode tables are parameters: what folds a token name, what changes case, what
 counts as a digit or as white space.
 */
module Naming {
  import opened Strings

  datatype Case = Upper | Lower | AsIs

  /** What `isdigit` accepts: of the ASCII characters the ten digits, and any others. */
  type DigitTable = digit: char -> bool | AsciiDigits(digit) witness IsDigit

  predicate AsciiDigits(digit: char -> bool) {
    forall c: char :: c < '\U{80}' ==> (digit(c) <==> IsDigit(c))
  }

  datatype Tables = Tables(
    canonical: string -> string,
    caseOf: string -> Case,
    upper: string -> string,
    lower: string -> string,
    digit: DigitTable,
    space: char -> bool)

  datatype Field =
    | SeriesTitle | SeriesCleanTitle | Volume | Year | Issue | IssueTitle
    | Classification | Booktype | ReleaseGroup | IssueId | CvIssueId | Publisher

  const TOKEN_ALIASES: map<string, Field> := map[
    "series title" := SeriesTitle,
    "series cleantitle" := SeriesCleanTitle,
    "cleantitle" := SeriesCleanTitle,
    "volume" := Volume,
    "year" := Year,
    "issue" := Issue,
    "issue number" := Issue,
    "issue title" := IssueTitle,
    "classification" := Classification,
    "booktype" := Booktype,
    "release group" := ReleaseGroup,
    "issueid" := IssueId,
    "issue id" := IssueId,
    "cvissueid" := CvIssueId,
    "cv issue id" := CvIssueId,
    "publisher" := Publisher]

  /** The token values of one issue; an absent field has none. */
  type Fields = map<Field, string>

  // ----- lexing ------------------------------------------------------------------

  /** Length of the longest prefix without any of the characters `stop`. */
  function Run(s: string, stop: string): (n: nat)
    ensures n <= |s| && forall i :: 0 <= i < n ==> s[i] !in stop
    ensures n < |s| ==> s[n] in stop
  {
    if s == "" || s[0] in stop then 0
    else
      var n := Run(s[1..], stop);
      assert forall i :: 0 < i < n + 1 ==> s[i] == s[1..][i - 1];
      n + 1
  }

  datatype Piece = Literal(c: char) | Token(name: string, pad: Option<string>)

  function PieceText(p: Piece): string {
    match p
    case Literal(c) => [c]
    case Token(name, None) => "{" + name + "}"
    case Token(name, Some(pad)) => "{" + name + ":" + pad + "}"
  }

  /** The expression \{([^{}:]+)(?::([^{}]*))?\} at the start of `s`. */
  function TokenAt(s: string): (t: Option<Piece>)
    ensures t.Some? ==> t.value.Token? && Starts(s, PieceText(t.value))
  {
    if s == "" || s[0] != '{' then None
    else
      var n := Run(s[1..], "{}:");
      if n == 0 || n + 1 == |s| then None
      else if s[n + 1] == '}' then
        assert s[..n + 2] == "{" + s[1..n + 1] + "}";
        Some(Token(s[1..n + 1], None))
      else if s[n + 1] == ':' then PadAt(s, n)
      else None
  }

  /** The rest of a token whose name is followed by a colon. */
  function PadAt(s: string, n: nat): (t: Option<Piece>)
    requires 0 < n && n + 1 < |s| && s[0] == '{' && s[n + 1] == ':'
    ensures t.Some? ==> t.value.Token? && Starts(s, PieceText(t.value))
  {
    var m := n + 2 + Run(s[n + 2..], "{}");
    if m < |s| && s[m] == '}' then
      assert s[..m + 1] == "{" + s[1..n + 1] + ":" + s[n + 2..m] + "}";
      Some(Token(s[1..n + 1], Some(s[n + 2..m])))
    else None
  }

  function Pieces(s: string): seq<Piece> {
    if s == "" then []
    else match TokenAt(s)
      case Some(t) => [t] + Pieces(s[|PieceText(t)|..])
      case None => [Literal(s[0])] + Pieces(s[1..])
  }

  function PiecesText(ps: seq<Piece>): string {
    if ps == [] then "" else PieceText(ps[0]) + PiecesText(ps[1..])
  }

  lemma {:induction false} PiecesAreLossless(s: string)
    ensures PiecesText(Pieces(s)) == s
    decreases |s|
  {
    if s != "" {
      match TokenAt(s)
      case Some(t) =>
        PiecesAreLossless(s[|PieceText(t)|..]);
        assert s == PieceText(t) + s[|PieceText(t)|..];
      case None =>
        PiecesAreLossless(s[1..]);
        assert s == [s[0]] + s[1..];
    }
  }

  /** The expression \[([^\[\]]*)\] at the start of `s`: the length of what it encloses. */
  function GroupAt(s: string): (k: Option<nat>)
    ensures k.Some? ==> k.value + 2 <= |s| && s[0] == '[' && s[k.value + 1] == ']'
  {
    if s == "" || s[0] != '[' then None
    else
      var n := Run(s[1..], "[]");
      if n + 1 < |s| && s[n + 1] == ']' then Some(n) else None
  }

  datatype Found = Found(at: nat, inner: nat)

  /** Where the first group is. */
  function FindGroup(s: string): (f: Option<Found>)
    ensures f.Some? ==> f.value.at + f.value.inner + 2 <= |s|
    ensures f.Some? ==> s[f.value.at] == '[' && s[f.value.at + f.value.inner + 1] == ']'
  {
    if s == "" then None
    else match GroupAt(s)
      case Some(n) => Some(Found(0, n))
      case None =>
        match FindGroup(s[1..])
        case None => None
        case Some(f) => Some(Found(f.at + 1, f.inner))
  }

  /** A template is plain segments with bracketed groups between them. */
  datatype Part = Segment(text: string) | Group(text: string)

  function Parts(s: string): seq<Part> {
    match FindGroup(s)
    case None => [Segment(s)]
    case Some(f) =>
      [Segment(s[..f.at]), Group(s[f.at + 1..f.at + 1 + f.inner])] + Parts(s[f.at + f.inner + 2..])
  }

  function PartText(p: Part): string {
    match p
    case Segment(text) => text
    case Group(text) => "[" + text + "]"
  }

  function PartsText(ps: seq<Part>): string {
    if ps == [] then "" else PartText(ps[0]) + PartsText(ps[1..])
  }

  lemma {:induction false} PartsAreLossless(s: string)
    ensures PartsText(Parts(s)) == s
    decreases |s|
  {
    match FindGroup(s)
    case None =>
    case Some(f) =>
      PartsAreLossless(s[f.at + f.inner + 2..]);
      hide FindGroup;
      TwoParts(Segment(s[..f.at]), Group(s[f.at + 1..f.at + 1 + f.inner]), Parts(s[f.at + f.inner + 2..]));
      SplitAtGroup(s, f);
  }

  lemma TwoParts(p: Part, q: Part, rest: seq<Part>)
    ensures PartsText([p, q] + rest) == PartText(p) + (PartText(q) + PartsText(rest))
  {
    assert ([p, q] + rest)[1..] == [q] + rest && ([q] + rest)[1..] == rest;
  }

  lemma SplitAtGroup(s: string, f: Found)
    requires FindGroup(s) == Some(f)
    ensures s[..f.at] + (("[" + s[f.at + 1..f.at + 1 + f.inner] + "]") + s[f.at + f.inner + 2..]) == s
  {
    hide FindGroup;
  }

  // ----- padding -------------------------------------------------------------------

  function Zeros(n: nat): (z: string)
    ensures |z| == n && AllDigits(z)
  {
    if n == 0 then "" else "0" + Zeros(n - 1)
  }

  /** `zfill` on a string of digits. */
  function ZFill(s: string, width: nat): string {
    if |s| >= width then s else Zeros(width - |s|) + s
  }

  /** A value as its sign, the text before the first point, and the point with what follows. */
  datatype Number = Number(negative: bool, whole: string, rest: string)

  function Dot(s: string): (k: nat)
    ensures k <= |s| && (k < |s| ==> s[k] == '.') && forall i :: 0 <= i < k ==> s[i] != '.'
  {
    Run(s, ".")
  }

  function Dissect(value: string): Number {
    var negative := Starts(value, "-");
    var core := if negative then value[1..] else value;
    Number(negative, core[..Dot(core)], core[Dot(core)..])
  }

  function NumberText(n: Number): string {
    (if n.negative then "-" else "") + n.whole + n.rest
  }

  /** `isdigit` of a string. */
  predicate IsDigits(digit: DigitTable, s: string) {
    s != "" && forall i :: 0 <= i < |s| ==> digit(s[i])
  }

  /** `_apply_pad`. */
  function ApplyPad(digit: DigitTable, value: string, pad: string): string {
    var width := |pad|;
    var n := Dissect(value);
    if width == 0 || !IsDigits(digit, n.whole) then value
    else NumberText(n.(whole := ZFill(n.whole, width)))
  }

  lemma DissectText(digit: DigitTable, n: Number)
    requires IsDigits(digit, n.whole) && (n.rest == "" || n.rest[0] == '.')
    ensures Dissect(NumberText(n)) == n
  {
    var t := NumberText(n);
    assert t[0] == (if n.negative then '-' else n.whole[0]);
    assert n.negative ==> t[..1] == "-";
    assert Starts(t, "-") ==> t[..1][0] == '-';
    assert Starts(t, "-") <==> n.negative;
    var core := if Starts(t, "-") then t[1..] else t;
    assert core == n.whole + n.rest;
    var k := Dot(core);
    assert k >= |n.whole| by { assert forall i :: 0 <= i < |n.whole| ==> core[i] == n.whole[i] && core[i] != '.'; }
    assert n.rest != "" ==> core[|n.whole|] == '.';
    assert k == |n.whole|;
    assert core[..k] == n.whole && core[k..] == n.rest;
  }

  lemma TextOfDissect(value: string)
    ensures NumberText(Dissect(value)) == value
    ensures Dissect(value).rest == "" || Dissect(value).rest[0] == '.'
  {
    var negative := Starts(value, "-");
    var core := if negative then value[1..] else value;
    assert core == core[..Dot(core)] + core[Dot(core)..];
  }

  lemma {:induction false} ZFillKeepsNumber(s: string, width: nat)
    requires AllDigits(s)
    ensures AllDigits(ZFill(s, width)) && Strings.Number(ZFill(s, width)) == Strings.Number(s)
  {
    if |s| < width {
      ZerosCount(s, width - |s|);
    }
  }

  lemma {:induction false} ZerosCount(s: string, n: nat)
    requires AllDigits(s)
    ensures AllDigits(Zeros(n) + s) && Strings.Number(Zeros(n) + s) == Strings.Number(s)
    decreases |s|, n
  {
    var t := Zeros(n) + s;
    if s != "" {
      var m := |s| - 1;
      ZerosCount(s[..m], n);
      assert t[..|t| - 1] == Zeros(n) + s[..m] && t[|t| - 1] == s[m];
    } else if n > 0 {
      ZerosCount("", n - 1);
      ZerosEnd(n - 1);
      assert t[..n - 1] == Zeros(n - 1) && t[n - 1] == '0';
      assert Zeros(n - 1) + "" == Zeros(n - 1);
    }
  }

  lemma {:induction false} ZerosEnd(n: nat)
    ensures Zeros(n + 1) == Zeros(n) + "0"
  {
    if n > 0 {
      ZerosEnd(n - 1);
    }
  }

  lemma {:induction false} ZerosLength(n: nat)
    ensures |Zeros(n)| == n && forall i :: 0 <= i < n ==> Zeros(n)[i] == '0'
  {
    if n > 0 {
      ZerosLength(n - 1);
    }
  }

  lemma ZFillIsDigits(digit: DigitTable, s: string, width: nat)
    requires IsDigits(digit, s)
    ensures var z := ZFill(s, width);
            && IsDigits(digit, z) && |z| >= width && |z| >= |s|
            && z == Zeros(|z| - |s|) + s && (|s| >= width ==> z == s) && (|s| < width ==> |z| == width)
  {
    if |s| < width {
      ZerosLength(width - |s|);
      assert digit('0');
    } else {
      assert Zeros(0) + s == s;
    }
  }

  /**
   Padding a numeric value keeps its sign, its digits and everything from the
   point on, puts zeros in front of the digits up to the width of the pad, which
   keeps the number, and does so once; any other value, and an empty pad, leave
   the value alone.
   */
  lemma PaddingIsDecimalSafe(digit: DigitTable, value: string, pad: string)
    ensures var n, m := Dissect(value), Dissect(ApplyPad(digit, value, pad));
            if pad != "" && IsDigits(digit, n.whole) then
              && m.negative == n.negative && m.rest == n.rest && IsDigits(digit, m.whole)
              && |m.whole| == (if |n.whole| < |pad| then |pad| else |n.whole|)
              && m.whole == Zeros(|m.whole| - |n.whole|) + n.whole
              && (AllDigits(n.whole) ==>
                  AllDigits(m.whole) && Strings.Number(m.whole) == Strings.Number(n.whole))
            else ApplyPad(digit, value, pad) == value
    ensures ApplyPad(digit, ApplyPad(digit, value, pad), pad) == ApplyPad(digit, value, pad)
  {
    hide Dissect, NumberText, IsDigits, AllDigits, Strings.Number, Zeros;
    var n := Dissect(value);
    TextOfDissect(value);
    if pad != "" && IsDigits(digit, n.whole) {
      ZFillIsDigits(digit, n.whole, |pad|);
      DissectText(digit, n.(whole := ZFill(n.whole, |pad|)));
      if AllDigits(n.whole) {
        ZFillKeepsNumber(n.whole, |pad|);
      }
    }
  }

  // ----- rendering -------------------------------------------------------------------

  function ApplyCase(t: Tables, name: string, value: string): string {
    if value == "" then value
    else match t.caseOf(name)
      case Upper => t.upper(value)
      case Lower => t.lower(value)
      case AsIs => value
  }

  function FieldOf(t: Tables, name: string): Option<Field> {
    var key := t.canonical(name);
    if key in TOKEN_ALIASES then Some(TOKEN_ALIASES[key]) else None
  }

  /** What a token stands for; the ComicVine id brings its own brackets. */
  function TokenValue(t: Tables, fields: Fields, name: string, pad: Option<string>): string {
    var field := FieldOf(t, name);
    var raw := if field.Some? && field.value in fields then fields[field.value] else "";
    if field == Some(CvIssueId) then
      if raw != "" then "[cvid-" + raw + "]" else ""
    else
      var padded := if pad.Some? && raw != "" then ApplyPad(t.digit, raw, pad.value) else raw;
      ApplyCase(t, name, padded)
  }

  function RenderPiece(t: Tables, fields: Fields, p: Piece): string {
    match p
    case Literal(c) => [c]
    case Token(name, pad) => TokenValue(t, fields, name, pad)
  }

  function RenderPieces(t: Tables, fields: Fields, ps: seq<Piece>): string {
    if ps == [] then "" else RenderPiece(t, fields, ps[0]) + RenderPieces(t, fields, ps[1..])
  }

  predicate AllTrue(bs: seq<bool>) {
    forall k :: 0 <= k < |bs| ==> bs[k]
  }

  /** Which tokens, in order, stand for nothing. */
  function Empties(t: Tables, fields: Fields, ps: seq<Piece>): seq<bool> {
    if ps == [] then []
    else (if ps[0].Token? then [RenderPiece(t, fields, ps[0]) == ""] else []) + Empties(t, fields, ps[1..])
  }

  function RenderPart(t: Tables, fields: Fields, p: Part): string {
    match p
    case Segment(text) => RenderPieces(t, fields, Pieces(text))
    case Group(text) =>
      var empties := Empties(t, fields, Pieces(text));
      if empties != [] && AllTrue(empties) then ""
      else "[" + RenderPieces(t, fields, Pieces(text)) + "]"
  }

  function RenderParts(t: Tables, fields: Fields, ps: seq<Part>): string {
    if ps == [] then "" else RenderPart(t, fields, ps[0]) + RenderParts(t, fields, ps[1..])
  }

  function Rendered(t: Tables, fields: Fields, template: string): string {
    RenderParts(t, fields, Parts(template))
  }

  method RenderSegment(t: Tables, text: string, fields: Fields) returns (out: string, empties: seq<bool>)
    ensures out == RenderPieces(t, fields, Pieces(text))
    ensures empties == Empties(t, fields, Pieces(text))
  {
    hide *;
    out, empties := "", [];
    var pos := 0;
    assert text[0..] == text;
    while pos < |text|
      invariant pos <= |text|
      invariant RenderPieces(t, fields, Pieces(text)) == out + RenderPieces(t, fields, Pieces(text[pos..]))
      invariant Empties(t, fields, Pieces(text)) == empties + Empties(t, fields, Pieces(text[pos..]))
    {
      PiecesStep(t, fields, text, pos);
      var token := TokenAt(text[pos..]);
      match token
      case Some(p) =>
        var value := RenderPiece(t, fields, p);
        out := out + value;
        empties := empties + [value == ""];
        pos := pos + |PieceText(p)|;
      case None =>
        out := out + [text[pos]];
        pos := pos + 1;
    }
    assert text[pos..] == "";
    NoPieces(t, fields);
  }

  lemma NoPieces(t: Tables, fields: Fields)
    ensures RenderPieces(t, fields, Pieces("")) == "" && Empties(t, fields, Pieces("")) == []
  {
  }

  lemma TokenFits(s: string)
    ensures TokenAt(s).Some? ==> 0 < |PieceText(TokenAt(s).value)| <= |s|
  {
    hide TokenAt;
  }

  lemma PiecesStep(t: Tables, fields: Fields, text: string, pos: nat)
    requires pos < |text|
    ensures match TokenAt(text[pos..])
            case Some(p) =>
              var next := pos + |PieceText(p)|;
              && pos < next <= |text|
              && RenderPieces(t, fields, Pieces(text[pos..])) ==
                   RenderPiece(t, fields, p) + RenderPieces(t, fields, Pieces(text[next..]))
              && Empties(t, fields, Pieces(text[pos..])) ==
                   [RenderPiece(t, fields, p) == ""] + Empties(t, fields, Pieces(text[next..]))
            case None =>
              && RenderPieces(t, fields, Pieces(text[pos..])) ==
                   [text[pos]] + RenderPieces(t, fields, Pieces(text[pos + 1..]))
              && Empties(t, fields, Pieces(text[pos..])) == Empties(t, fields, Pieces(text[pos + 1..]))
  {
    hide TokenAt, TokenValue, Starts;
    match TokenAt(text[pos..])
    case Some(p) =>
      assert |PieceText(p)| <= |text[pos..]| by { TokenFits(text[pos..]); }
      assert text[pos..][|PieceText(p)|..] == text[pos + |PieceText(p)|..];
    case None =>
      assert text[pos..][1..] == text[pos + 1..];
  }

  /** `render`: the loop over the groups of a template. */
  method Render(t: Tables, template: string, fields: Fields) returns (out: string)
    ensures out == Rendered(t, fields, template)
  {
    hide *;
    out := "";
    var pos := 0;
    assert template[0..] == template;
    var found := FindGroup(template);
    while found.Some?
      invariant pos <= |template| && found == FindGroup(template[pos..])
      invariant Rendered(t, fields, template) == out + Rendered(t, fields, template[pos..])
      decreases |template| - pos
    {
      var f := found.value;
      var rest := template[pos..];
      var text, _ := RenderSegment(t, rest[..f.at], fields);
      var inner, empties := RenderSegment(t, rest[f.at + 1..f.at + 1 + f.inner], fields);
      PartsStep(t, fields, rest, f);
      var group := if empties != [] && AllTrue(empties) then "" else "[" + inner + "]";
      out := out + text + group;
      assert rest[f.at + f.inner + 2..] == template[pos + f.at + f.inner + 2..];
      pos := pos + f.at + f.inner + 2;
      found := FindGroup(template[pos..]);
    }
    var text, _ := RenderSegment(t, template[pos..], fields);
    LastPart(t, fields, template[pos..]);
    out := out + text;
  }

  lemma PartsStep(t: Tables, fields: Fields, s: string, f: Found)
    requires FindGroup(s) == Some(f)
    ensures var text, inner := s[..f.at], Pieces(s[f.at + 1..f.at + 1 + f.inner]);
            var empties := Empties(t, fields, inner);
            var group := if empties != [] && AllTrue(empties) then "" else "[" + RenderPieces(t, fields, inner) + "]";
            Rendered(t, fields, s) ==
                RenderPieces(t, fields, Pieces(text)) + (group + Rendered(t, fields, s[f.at + f.inner + 2..]))
  {
    hide FindGroup, RenderPieces, Empties, Pieces, AllTrue;
    var p, q, rest := Segment(s[..f.at]), Group(s[f.at + 1..f.at + 1 + f.inner]), Parts(s[f.at + f.inner + 2..]);
    assert Parts(s) == [p, q] + rest;
    RenderTwo(t, fields, p, q, rest);
  }

  lemma RenderTwo(t: Tables, fields: Fields, p: Part, q: Part, rest: seq<Part>)
    ensures RenderParts(t, fields, [p, q] + rest)
         == RenderPart(t, fields, p) + (RenderPart(t, fields, q) + RenderParts(t, fields, rest))
  {
    hide RenderPart;
    assert ([p, q] + rest)[1..] == [q] + rest && ([q] + rest)[1..] == rest;
  }

  lemma LastPart(t: Tables, fields: Fields, s: string)
    requires FindGroup(s).None?
    ensures Rendered(t, fields, s) == RenderPieces(t, fields, Pieces(s))
  {
    assert Parts(s) == [Segment(s)] && Parts(s)[1..] == [];
    assert RenderParts(t, fields, []) == "";
  }

  /** A bracketed span vanishes iff it has a token and every token in it stands for nothing. */
  lemma GroupVanishes(t: Tables, fields: Fields, text: string)
    ensures RenderPart(t, fields, Group(text)) == "" <==>
            HasToken(Pieces(text)) && AllTokensEmpty(t, fields, Pieces(text))
  {
    hide RenderPieces, Pieces, AllTrue, Empties, HasToken, AllTokensEmpty;
    EmptiesAreTheTokens(t, fields, Pieces(text));
  }

  predicate HasToken(ps: seq<Piece>) {
    exists k :: 0 <= k < |ps| && ps[k].Token?
  }

  predicate AllTokensEmpty(t: Tables, fields: Fields, ps: seq<Piece>) {
    forall k :: 0 <= k < |ps| && ps[k].Token? ==> RenderPiece(t, fields, ps[k]) == ""
  }

  lemma {:induction false} EmptiesAreTheTokens(t: Tables, fields: Fields, ps: seq<Piece>)
    ensures Empties(t, fields, ps) != [] <==> HasToken(ps)
    ensures AllTrue(Empties(t, fields, ps)) <==> AllTokensEmpty(t, fields, ps)
  {
    hide RenderPiece;
    if ps != [] {
      EmptiesAreTheTokens(t, fields, ps[1..]);
      assert HasToken(ps) <==> ps[0].Token? || HasToken(ps[1..]) by {
        assert forall k :: 0 < k < |ps| ==> ps[k] == ps[1..][k - 1];
        if HasToken(ps[1..]) {
          var k :| 0 <= k < |ps[1..]| && ps[1..][k].Token?;
          assert ps[k + 1].Token?;
        }
      }
      assert AllTokensEmpty(t, fields, ps) <==>
        (ps[0].Token? ==> RenderPiece(t, fields, ps[0]) == "") && AllTokensEmpty(t, fields, ps[1..]) by {
        assert forall k :: 0 <= k < |ps[1..]| ==> ps[1..][k] == ps[k + 1];
        assert forall k :: 0 < k < |ps| ==> ps[k] == ps[1..][k - 1];
      }
      AllTrueCons(RenderPiece(t, fields, ps[0]) == "", Empties(t, fields, ps[1..]));
    }
  }

  lemma AllTrueCons(b: bool, bs: seq<bool>)
    ensures AllTrue([b] + bs) <==> b && AllTrue(bs)
    ensures [] + bs == bs
  {
    assert forall k :: 0 <= k < |bs| ==> bs[k] == ([b] + bs)[k + 1];
    assert ([b] + bs)[0] == b;
  }

  // ----- the template filled in --------------------------------------------------------

  /** A place of the template: a character that stays, a token, or a group that vanishes. */
  datatype Slot = Fixed(c: char) | Filled(name: string, pad: Option<string>) | Vanished(group: string)

  function Source(s: Slot): string {
    match s
    case Fixed(c) => [c]
    case Filled(name, pad) => PieceText(Token(name, pad))
    case Vanished(group) => "[" + group + "]"
  }

  function Output(t: Tables, fields: Fields, s: Slot): string {
    match s
    case Fixed(c) => [c]
    case Filled(name, pad) => TokenValue(t, fields, name, pad)
    case Vanished(_) => ""
  }

  function Sources(slots: seq<Slot>): string {
    if slots == [] then "" else Source(slots[0]) + Sources(slots[1..])
  }

  function Outputs(t: Tables, fields: Fields, slots: seq<Slot>): string {
    if slots == [] then "" else Output(t, fields, slots[0]) + Outputs(t, fields, slots[1..])
  }

  function SlotOf(p: Piece): Slot {
    match p case Literal(c) => Fixed(c) case Token(name, pad) => Filled(name, pad)
  }

  function SlotsOf(ps: seq<Piece>): seq<Slot> {
    if ps == [] then [] else [SlotOf(ps[0])] + SlotsOf(ps[1..])
  }

  predicate Vanishes(t: Tables, fields: Fields, group: string) {
    HasToken(Pieces(group)) && AllTokensEmpty(t, fields, Pieces(group))
  }

  function SlotsOfPart(t: Tables, fields: Fields, p: Part): seq<Slot> {
    match p
    case Segment(text) => SlotsOf(Pieces(text))
    case Group(text) =>
      if Vanishes(t, fields, text) then [Vanished(text)] else [Fixed('[')] + SlotsOf(Pieces(text)) + [Fixed(']')]
  }

  function Layout(t: Tables, fields: Fields, ps: seq<Part>): seq<Slot> {
    if ps == [] then [] else SlotsOfPart(t, fields, ps[0]) + Layout(t, fields, ps[1..])
  }

  lemma {:induction false} SlotsConcat(t: Tables, fields: Fields, a: seq<Slot>, b: seq<Slot>)
    ensures Sources(a + b) == Sources(a) + Sources(b) &&
            Outputs(t, fields, a + b) == Outputs(t, fields, a) + Outputs(t, fields, b)
  {
    hide Source, Output;
    if a == [] {
      assert a + b == b;
    } else {
      assert (a + b)[1..] == a[1..] + b;
      SlotsConcat(t, fields, a[1..], b);
    }
  }

  lemma {:induction false} SlotsOfPieces(t: Tables, fields: Fields, ps: seq<Piece>)
    ensures Sources(SlotsOf(ps)) == PiecesText(ps) && Outputs(t, fields, SlotsOf(ps)) == RenderPieces(t, fields, ps)
    ensures forall s :: s in SlotsOf(ps) ==> !s.Vanished?
  {
    hide TokenValue;
    if ps != [] {
      SlotsOfPieces(t, fields, ps[1..]);
      assert SlotsOf(ps)[1..] == SlotsOf(ps[1..]);
      assert Source(SlotOf(ps[0])) == PieceText(ps[0]) &&
             Output(t, fields, SlotOf(ps[0])) == RenderPiece(t, fields, ps[0]);
      hide PieceText, RenderPiece, Source, Output;
    }
  }

  lemma OneSlot(t: Tables, fields: Fields, s: Slot)
    ensures Sources([s]) == Source(s) && Outputs(t, fields, [s]) == Output(t, fields, s)
  {
    assert [s][1..] == [];
  }

  lemma PartSlots(t: Tables, fields: Fields, p: Part)
    ensures Sources(SlotsOfPart(t, fields, p)) == PartText(p)
    ensures Outputs(t, fields, SlotsOfPart(t, fields, p)) == RenderPart(t, fields, p)
    ensures forall s :: s in SlotsOfPart(t, fields, p) && s.Vanished? ==> Vanishes(t, fields, s.group)
  {
    hide Pieces, RenderPieces, Sources, Outputs, SlotsOf, PiecesText, Empties, AllTrue, HasToken, AllTokensEmpty;
    var ps := Pieces(p.text);
    PiecesAreLossless(p.text);
    SlotsOfPieces(t, fields, ps);
    if p.Group? {
      EmptiesAreTheTokens(t, fields, ps);
      OneSlot(t, fields, Vanished(p.text));
      OneSlot(t, fields, Fixed('['));
      OneSlot(t, fields, Fixed(']'));
      SlotsConcat(t, fields, [Fixed('[')], SlotsOf(ps));
      SlotsConcat(t, fields, [Fixed('[')] + SlotsOf(ps), [Fixed(']')]);
    }
  }

  lemma {:induction false} LayoutOfParts(t: Tables, fields: Fields, ps: seq<Part>)
    ensures Sources(Layout(t, fields, ps)) == PartsText(ps) &&
            Outputs(t, fields, Layout(t, fields, ps)) == RenderParts(t, fields, ps)
    ensures forall s :: s in Layout(t, fields, ps) && s.Vanished? ==> Vanishes(t, fields, s.group)
  {
    hide PartText, RenderPart, SlotsOfPart, Vanishes;
    if ps != [] {
      PartSlots(t, fields, ps[0]);
      LayoutOfParts(t, fields, ps[1..]);
      SlotsConcat(t, fields, SlotsOfPart(t, fields, ps[0]), Layout(t, fields, ps[1..]));
    }
  }

  /**
   Rendering fills a template in. Every template is a row of places; reading each
   as it is written gives the template, and replacing each token by its value and
   each vanishing group by nothing, with every other character left where it is,
   gives the render. The groups that vanish have tokens, all of them empty.
   */
  lemma TemplateIsFilledIn(t: Tables, fields: Fields, template: string)
    ensures var slots := Layout(t, fields, Parts(template));
            && Sources(slots) == template && Outputs(t, fields, slots) == Rendered(t, fields, template)
            && forall s :: s in slots && s.Vanished? ==> Vanishes(t, fields, s.group)
  {
    hide Parts, Layout, Sources, Outputs, Vanishes;
    LayoutOfParts(t, fields, Parts(template));
    PartsAreLossless(template);
  }
}
