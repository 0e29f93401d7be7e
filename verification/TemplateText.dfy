/**
 How a template is read (backend/src/foragerr/naming.py): exactly where the two regular
 expressions find tokens and groups, and what a template of one token renders to.
 */
module TemplateText {
  import opened Strings
  import opened Naming
  import opened TitleFit

  // ----- tokens --------------------------------------------------------------------------

  lemma NoneOf(s: string, from: nat, to: nat, stops: string)
    requires from <= to <= |s| && Run(s[from..], stops) >= to - from
    ensures forall i :: 0 <= i < to - from ==> s[from..to][i] !in stops
  {
    hide Run;
    forall i | 0 <= i < to - from ensures s[from..to][i] !in stops {
      assert s[from..to][i] == s[from..][i];
    }
  }

  lemma BareTokenIsToken(s: string)
    requires TokenAt(s).Some? && TokenAt(s).value.pad.None?
    ensures IsToken(TokenAt(s).value)
  {
    NoneOf(s, 1, 1 + Run(s[1..], "{}:"), "{}:");
    hide Run;
  }

  lemma PadIsPlain(s: string, n: nat)
    requires 0 < n && n + 1 < |s| && s[0] == '{' && s[n + 1] == ':' && PadAt(s, n).Some?
    ensures var p := PadAt(s, n).value;
            p.Token? && p.name == s[1..n + 1] && p.pad.Some? &&
            forall i :: 0 <= i < |p.pad.value| ==> p.pad.value[i] !in "{}"
  {
    hide Run;
    NoneOf(s, n + 2, n + 2 + Run(s[n + 2..], "{}"), "{}");
  }

  lemma PaddedTokenIsToken(s: string)
    requires TokenAt(s).Some? && TokenAt(s).value.pad.Some?
    ensures IsToken(TokenAt(s).value)
  {
    hide Run;
    var n := Run(s[1..], "{}:");
    assert TokenAt(s) == PadAt(s, n) && 0 < n && n + 1 < |s|;
    NoneOf(s, 1, n + 1, "{}:");
    PadIsPlain(s, n);
    hide TokenAt, PadAt;
  }

  /** A token is read at the start of a text iff the text starts with it as it is written. */
  lemma TokenAtIff(s: string, p: Piece)
    ensures TokenAt(s) == Some(p) <==> p.Token? && IsToken(p) && Starts(s, PieceText(p))
  {
    hide TokenAt, IsToken;
    if TokenAt(s) == Some(p) {
      if p.pad.Some? {
        PaddedTokenIsToken(s);
      } else {
        BareTokenIsToken(s);
      }
    } else if p.Token? && IsToken(p) && Starts(s, PieceText(p)) {
      assert s == PieceText(p) + s[|PieceText(p)|..];
      TokenReads(p, s[|PieceText(p)|..]);
    }
  }

  // ----- groups --------------------------------------------------------------------------

  /** Brackets around `inner` characters without brackets. */
  predicate IsGroup(s: string, at: nat, inner: nat) {
    && at + inner + 2 <= |s| && s[at] == '[' && s[at + inner + 1] == ']'
    && forall i :: at < i <= at + inner ==> s[i] != '[' && s[i] != ']'
  }

  lemma GroupAtIff(s: string, n: nat)
    ensures GroupAt(s) == Some(n) <==> IsGroup(s, 0, n)
  {
    if s != "" && s[0] == '[' {
      var m := Run(s[1..], "[]");
      hide Run;
      assert forall i :: 0 < i <= m ==> s[i] == s[1..][i - 1];
      if IsGroup(s, 0, n) {
        assert s[1..][n] == ']';
        assert m < |s[1..]| ==> s[1..][m] == s[m + 1];
      }
    }
  }

  lemma GroupLater(s: string, at: nat, inner: nat)
    requires s != ""
    ensures IsGroup(s, at + 1, inner) <==> IsGroup(s[1..], at, inner)
  {
    if IsGroup(s[1..], at, inner) {
      forall i | at + 1 < i <= at + 1 + inner ensures s[i] != '[' && s[i] != ']' {
        assert s[i] == s[1..][i - 1];
      }
    }
  }

  /** The first group of a template is found, and none only where there is none. */
  lemma {:induction false} FirstGroup(s: string)
    ensures match FindGroup(s)
            case None => forall at: nat, inner: nat :: !IsGroup(s, at, inner)
            case Some(f) =>
              IsGroup(s, f.at, f.inner) && forall at: nat, inner: nat :: at < f.at ==> !IsGroup(s, at, inner)
  {
    hide GroupAt, IsGroup;
    if s == "" {
      NoGroupInNothing();
    } else {
      forall n: nat ensures GroupAt(s) == Some(n) <==> IsGroup(s, 0, n) {
        GroupAtIff(s, n);
      }
      forall at: nat, inner: nat ensures IsGroup(s, at + 1, inner) <==> IsGroup(s[1..], at, inner) {
        GroupLater(s, at, inner);
      }
      if GroupAt(s).None? {
        FirstGroup(s[1..]);
        forall at: nat, inner: nat | 0 < at ensures IsGroup(s, at, inner) <==> IsGroup(s[1..], at - 1, inner) {
          assert at == (at - 1) + 1;
        }
      }
    }
  }

  lemma NoGroupInNothing()
    ensures forall at: nat, inner: nat :: !IsGroup("", at, inner)
  {
  }

  // ----- one token -----------------------------------------------------------------------

  /**
   A template of one token renders to nothing when its name is no field's or the field is
   empty; to the bracketed form for the ComicVine id; and else to the value, padded if the
   token has a pad, in the case of the name.
   */
  lemma OneTokenTemplate(t: Tables, fields: Fields, name: string, pad: Option<string>)
    requires IsToken(Token(name, pad)) && '[' !in PieceText(Token(name, pad))
    ensures var field := FieldOf(t, name);
            var value := if field.Some? && field.value in fields then fields[field.value] else "";
            var padded := if pad.Some? then ApplyPad(t.digit, value, pad.value) else value;
            Rendered(t, fields, PieceText(Token(name, pad))) ==
            if value == "" then ""
            else if field == Some(CvIssueId) then "[cvid-" + value + "]"
            else if padded == "" || t.caseOf(name) == AsIs then padded
            else if t.caseOf(name) == Upper then t.upper(padded)
            else t.lower(padded)
  {
    var p := Token(name, pad);
    assert Pieces("") == [];
    hide FieldOf, ApplyPad, IsToken, Pieces, FindGroup;
    NoGroup(PieceText(p));
    PiecesOfToken(p, "");
    assert PieceText(p) + "" == PieceText(p) && [p] + [] == [p];
    OneToken(t, fields, PieceText(p), name, pad);
  }
}
