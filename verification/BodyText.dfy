/**
 What cleaning makes of a rendered body (backend/src/foragerr/naming.py), said of its
 characters: which are gone, which are left, and that the rest keeps its order.
 */
module BodyText {
  import opened Strings
  import opened Naming
  import opened FileNames

  predicate Blank(c: char) {
    c == ' ' || c == '\t'
  }

  /** A character no file name may have: one of nine, a control character, or delete. */
  predicate Forbidden(c: char) {
    c in ['<', '>', ':', '"', '/', '\\', '|', '?', '*'] || c as int < 32 || c as int == 127
  }

  lemma ForbiddenIsIllegal(c: char)
    ensures Forbidden(c) <==> Illegal(c)
  {
  }

  /** What is neither blank nor, with replacement on, forbidden. */
  predicate Solid(c: char, replaceIllegal: bool) {
    !Blank(c) && !(replaceIllegal && Forbidden(c))
  }

  function Solids(s: string, replaceIllegal: bool): string {
    if s == "" then "" else (if Solid(s[0], replaceIllegal) then s[..1] else "") + Solids(s[1..], replaceIllegal)
  }

  lemma {:induction false} SolidsConcat(a: string, b: string, replaceIllegal: bool)
    ensures Solids(a + b, replaceIllegal) == Solids(a, replaceIllegal) + Solids(b, replaceIllegal)
  {
    hide Solid;
    if a == "" {
      assert a + b == b;
    } else {
      assert (a + b)[1..] == a[1..] + b && (a + b)[..1] == a[..1];
      SolidsConcat(a[1..], b, replaceIllegal);
    }
  }

  lemma {:induction false} SolidsAreThere(s: string, replaceIllegal: bool, p: char -> bool)
    requires forall c :: c in s ==> p(c)
    ensures forall c :: c in Solids(s, replaceIllegal) ==> p(c)
  {
    if s != "" {
      SolidsAreThere(s[1..], replaceIllegal, p);
    }
  }

  /** Replacing puts a space for each forbidden character and keeps the others. */
  lemma {:induction false} ReplacedCharacters(s: string)
    ensures var r := ReplaceIllegal(s);
            && |r| == |s| && forall i :: 0 <= i < |s| ==> r[i] == if Forbidden(s[i]) then ' ' else s[i]
    ensures Solids(ReplaceIllegal(s), false) == Solids(s, true)
  {
    if s != "" {
      ForbiddenIsIllegal(s[0]);
      hide Illegal, Forbidden;
      ReplacedCharacters(s[1..]);
      assert ReplaceIllegal(s)[1..] == ReplaceIllegal(s[1..]);
    }
  }

  /** No tab and no two spaces in a row, and not a space in front when one has just been written. */
  predicate Single(s: string, after: bool) {
    && '\t' !in s && (after && s != "" ==> s[0] != ' ')
    && forall i :: 0 < i < |s| ==> !(s[i - 1] == ' ' && s[i] == ' ')
  }

  lemma {:induction false} CollapsedCharacters(s: string, after: bool)
    ensures Single(Collapse(s, after), after)
    ensures Solids(Collapse(s, after), false) == Solids(s, false)
  {
    if s != "" {
      var blank := Blank(s[0]);
      var rest := Collapse(s[1..], blank);
      CollapsedCharacters(s[1..], blank);
      if blank && !after {
        assert (" " + rest)[1..] == rest;
      } else if !blank {
        assert ([s[0]] + rest)[1..] == rest && ([s[0]] + rest)[..1] == s[..1];
      } else {
        assert "" + rest == rest;
      }
    }
  }

  /** Stripping cuts characters of one kind off both ends, and all of them. */
  lemma {:induction false} StrippedFront(s: string, p: char -> bool) returns (k: nat)
    ensures k <= |s| && StripLeft(s, p) == s[k..] && forall i :: 0 <= i < k ==> p(s[i])
    ensures StripLeft(s, p) != "" ==> !p(StripLeft(s, p)[0])
  {
    if s != "" && p(s[0]) {
      k := StrippedFront(s[1..], p);
      assert forall i :: 0 < i < k + 1 ==> s[i] == s[1..][i - 1];
      assert s[1..][k..] == s[k + 1..];
      k := k + 1;
    } else {
      k := 0;
    }
  }

  lemma {:induction false} StrippedBack(s: string, p: char -> bool) returns (k: nat)
    ensures k <= |s| && StripRight(s, p) == s[..k] && forall i :: k <= i < |s| ==> p(s[i])
  {
    if s != "" && p(s[|s| - 1]) {
      k := StrippedBack(s[..|s| - 1], p);
      assert s[..|s| - 1][..k] == s[..k];
    } else {
      k := |s|;
    }
  }

  lemma StrippedCharacters(s: string, p: char -> bool) returns (a: string, b: string)
    ensures s == a + Strip(s, p) + b && (forall c :: c in a ==> p(c)) && (forall c :: c in b ==> p(c))
    ensures Strip(s, p) != "" ==> !p(Strip(s, p)[0]) && !p(Strip(s, p)[|Strip(s, p)| - 1])
  {
    hide StripLeft, StripRight;
    var i := StrippedFront(s, p);
    var l := StripLeft(s, p);
    var j := StrippedBack(l, p);
    a, b := s[..i], l[j..];
    assert s == a + l && l == l[..j] + b;
    if l[..j] != "" {
      assert l[..j][0] == l[0];
    }
  }

  lemma SingleInside(a: string, s: string, b: string)
    requires Single(a + s + b, false)
    ensures Single(s, false)
  {
    var all := a + s + b;
    forall i | 0 < i < |s| ensures !(s[i - 1] == ' ' && s[i] == ' ') {
      assert s[i - 1] == all[|a| + i - 1] && s[i] == all[|a| + i];
    }
    assert forall i :: 0 <= i < |s| ==> s[i] == all[|a| + i];
  }

  /** What may be cut off the ends of a body. */
  predicate Trimmed(t: Tables, c: char) {
    t.space(c) || c == ' ' || c == '.'
  }

  /**
   A body has no tab, no two spaces in a row, and no space or dot at either end; with
   replacement on it has no forbidden character; and what is solid in the render is in
   it, in order, but for white space and dots cut off the ends.
   */
  lemma BodyCharacters(t: Tables, template: string, fields: Fields, replaceIllegal: bool)
    returns (front: string, back: string)
    ensures var render, body := Rendered(t, fields, template), RenderBody(t, template, fields, replaceIllegal);
            && Single(body, false)
            && (body != "" ==> body[0] !in " ." && body[|body| - 1] !in " .")
            && (replaceIllegal ==> forall c :: c in body ==> !Forbidden(c))
            && Solids(render, replaceIllegal) == front + Solids(body, false) + back
    ensures forall c :: c in front || c in back ==> Trimmed(t, c)
  {
    hide Rendered, Strip, Collapse, ReplaceIllegal, Solids, Single, Legal;
    var render := Rendered(t, fields, template);
    var legal := if replaceIllegal then ReplaceIllegal(render) else render;
    ReplacedCharacters(render);
    CollapsedCharacters(legal, false);
    var collapsed := Collapse(legal, false);
    var a, b := StrippedCharacters(collapsed, t.space);
    var inner := Strip(collapsed, t.space);
    var c, d := StrippedCharacters(inner, SpaceOrDot);
    var body := Strip(inner, SpaceOrDot);
    SingleInside(a, inner, b);
    SingleInside(c, body, d);
    SolidsOfFive(a, c, body, d, b);
    assert collapsed == a + (c + body + d) + b;
    front, back := Solids(a, false) + Solids(c, false), Solids(d, false) + Solids(b, false);
    SolidsAreThere(a, false, x => Trimmed(t, x));
    SolidsAreThere(b, false, x => Trimmed(t, x));
    SolidsAreThere(c, false, x => Trimmed(t, x));
    SolidsAreThere(d, false, x => Trimmed(t, x));
    if replaceIllegal {
      BodyIsLegal(t, template, fields);
      LegalIsAllowed(body);
    }
  }

  lemma LegalIsAllowed(s: string)
    requires Legal(s)
    ensures forall c :: c in s ==> !Forbidden(c)
  {
    hide Illegal;
    forall c | c in s ensures !Forbidden(c) {
      ForbiddenIsIllegal(c);
    }
  }

  lemma SolidsOfFive(a: string, c: string, body: string, d: string, b: string)
    ensures Solids(a + (c + body + d) + b, false) ==
            (Solids(a, false) + Solids(c, false)) + Solids(body, false) + (Solids(d, false) + Solids(b, false))
  {
    hide *;
    SolidsConcat(a + (c + body + d), b, false);
    SolidsConcat(a, c + body + d, false);
    SolidsConcat(c + body, d, false);
    SolidsConcat(c, body, false);
  }
}
