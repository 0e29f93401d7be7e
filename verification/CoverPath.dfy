/**
 Cover paths after decoding (backend/src/foragerr/covers.py): a path decodes segment
 by segment, and when an accepted one comes to have dot segments.
 */
module CoverPath {
  import opened Strings
  import opened Utf8
  import opened CoverUrl

  lemma ContinuationIsHigh(c: char, i: nat)
    requires 1 <= i < |Octets(c)|
    ensures Octets(c)[i] >= 0x80
  {
  }

  /** A slash byte ends every character before it. */
  lemma HeadAtSlash(b: seq<nat>, y: seq<nat>)
    requires b != []
    ensures StrictHead(b + ([0x2F] + y)) == StrictHead(b)
  {
    hide CodePoint, IsScalar, Announced, Octets;
    var all := b + ([0x2F] + y);
    var n := Announced(b[0]);
    if n <= |b| {
      assert all[..n] == b[..n];
    } else if StrictHead(all).Some? {
      var c := StrictHead(all).value;
      assert Octets(c) == all[..n];
      assert Octets(c)[|b|] == 0x2F;
      ContinuationIsHigh(c, |b|);
    }
  }

  lemma StrictStep(b: seq<nat>)
    requires b != []
    ensures DecodeStrict(b) == match StrictHead(b)
                               case None => None
                               case Some(c) => Concat(Some([c]), DecodeStrict(b[|Octets(c)|..]))
    ensures DecodeStrict([]) == Some("")
  {
    hide StrictHead, Octets;
  }

  lemma {:induction false} DecodeAtSlash(b: seq<nat>, y: seq<nat>)
    ensures DecodeStrict(b + ([0x2F] + y)) == Concat(DecodeStrict(b), Concat(Some("/"), DecodeStrict(y)))
  {
    hide DecodeStrict, StrictHead, Octets;
    var all := b + ([0x2F] + y);
    if b == [] {
      assert all == ['/' as nat] + y;
      OneByteMore('/', y);
      StrictStep(all);
      NothingFirst(Concat(Some("/"), DecodeStrict(y)));
    } else {
      HeadAtSlash(b, y);
      StrictStep(b);
      StrictStep(all);
      if StrictHead(b).Some? {
        var c := StrictHead(b).value;
        var n := |Octets(c)|;
        assert n >= 1 by { OctetsAnnounce(c); SomeOctets(c); }
        assert all[n..] == b[n..] + ([0x2F] + y);
        DecodeAtSlash(b[n..], y);
        ConcatAssoc(Some([c]), DecodeStrict(b[n..]), Concat(Some("/"), DecodeStrict(y)));
      }
    }
  }

  lemma SomeOctets(c: char)
    ensures |Octets(c)| >= 1
  {
  }

  lemma NothingFirst(a: Option<string>)
    ensures Concat(Some(""), a) == a && Concat(a, Some("")) == a
  {
    if a.Some? {
      assert "" + a.value == a.value && a.value + "" == a.value;
    }
  }

  lemma ConcatAssoc(a: Option<string>, b: Option<string>, c: Option<string>)
    ensures Concat(Concat(a, b), c) == Concat(a, Concat(b, c))
  {
    if a.Some? && b.Some? && c.Some? {
      assert a.value + b.value + c.value == a.value + (b.value + c.value);
    }
  }

  /** How much of a string its first byte stands for. */
  function Width(s: string): (n: nat)
    requires s != ""
    ensures 1 <= n <= |s|
  {
    if EscapeAt(s) then 3 else 1
  }

  function FirstByte(s: string): nat
    requires s != ""
  {
    if EscapeAt(s) then 16 * HexValue(s[1]).value + HexValue(s[2]).value else s[0] as nat
  }

  /** No escape reaches across a slash. */
  lemma EscapeIsLocal(x: string, y: string)
    requires x != ""
    ensures Width(x + ("/" + y)) == Width(x) && FirstByte(x + ("/" + y)) == FirstByte(x)
  {
    var s := x + ("/" + y);
    assert s[0] == x[0];
    assert |x| >= 2 ==> s[1] == x[1];
    assert |x| >= 3 ==> s[2] == x[2];
    assert |x| == 1 ==> s[1] == '/';
    assert |x| == 2 ==> s[2] == '/';
  }

  lemma AsciiConcat(x: string, y: string)
    requires IsAscii(x) && IsAscii(y)
    ensures IsAscii(x + y)
  {
  }

  lemma BytesStep(s: string)
    requires IsAscii(s) && s != ""
    ensures IsAscii(s[Width(s)..]) && ToBytes(s) == [FirstByte(s)] + ToBytes(s[Width(s)..])
    ensures ToBytes("") == []
  {
    hide EscapeAt, HexValue;
  }

  lemma {:induction false} BytesAtSlash(x: string, y: string)
    requires IsAscii(x) && IsAscii(y)
    ensures IsAscii(x + ("/" + y)) && ToBytes(x + ("/" + y)) == ToBytes(x) + ([0x2F] + ToBytes(y))
  {
    var s := x + ("/" + y);
    AsciiConcat("/", y);
    AsciiConcat(x, "/" + y);
    BytesStep(s);
    if x == "" {
      assert !EscapeAt(s) && s[1..] == y;
    } else {
      hide *;
      EscapeIsLocal(x, y);
      BytesStep(x);
      assert s[Width(x)..] == x[Width(x)..] + ("/" + y);
      BytesAtSlash(x[Width(x)..], y);
    }
  }

  lemma {:induction false} RunIs(s: string, n: nat)
    requires n <= |s| && IsAscii(s[..n]) && (n < |s| ==> s[n] >= '\U{80}')
    ensures AsciiRun(s) == n
  {
    if n > 0 {
      assert s[..n][0] == s[0];
      assert s[1..][..n - 1] == s[..n][1..];
      RunIs(s[1..], n - 1);
    }
  }

  /** Decoding is done run by run. */
  lemma PartsStep(s: string)
    ensures var n := AsciiRun(s);
            UnquoteParts(s) == Concat(DecodeStrict(ToBytes(s[..n])), UnquoteParts(s[n..]))
    ensures s != "" && s[0] >= '\U{80}' ==> UnquoteParts(s) == Concat(Some(s[..1]), UnquoteParts(s[1..]))
  {
    if AsciiRun(s) == 0 {
      assert s[..0] == "" && s[0..] == s;
      assert ToBytes("") == [] && DecodeStrict([]) == Some("");
      NothingFirst(UnquoteParts(s));
    }
  }

  lemma {:induction false} PartsAtSlash(a: string, b: string)
    ensures UnquoteParts(a + ("/" + b)) == Concat(UnquoteParts(a), Concat(Some("/"), UnquoteParts(b)))
    decreases |a|
  {
    hide UnquoteParts, AsciiRun, DecodeStrict, ToBytes, Concat;
    var s := a + ("/" + b);
    var n := AsciiRun(a);
    PartsStep(a);
    PartsStep(s);
    if n == |a| {
      RunThenSlash(a, b);
    } else if n == 0 {
      assert s[..1] == a[..1] && s[1..] == a[1..] + ("/" + b) && s[0] == a[0];
      PartsAtSlash(a[1..], b);
      ConcatAssoc(Some(a[..1]), UnquoteParts(a[1..]), Concat(Some("/"), UnquoteParts(b)));
    } else {
      assert s[..n] == a[..n] && s[n..] == a[n..] + ("/" + b);
      RunIs(s, n);
      PartsAtSlash(a[n..], b);
      ConcatAssoc(DecodeStrict(ToBytes(a[..n])), UnquoteParts(a[n..]), Concat(Some("/"), UnquoteParts(b)));
    }
  }

  /** The run before the slash goes on behind it. */
  lemma RunThenSlash(a: string, b: string)
    requires AsciiRun(a) == |a|
    ensures UnquoteParts(a + ("/" + b)) == Concat(UnquoteParts(a), Concat(Some("/"), UnquoteParts(b)))
  {
    hide UnquoteParts, AsciiRun, DecodeStrict, ToBytes, Concat;
    var s := a + ("/" + b);
    var m := AsciiRun(b);
    var n := |a| + 1 + m;
    assert a[..|a|] == a;
    BytesAtSlash(a, b[..m]);
    assert s[..n] == a + ("/" + b[..m]) && s[n..] == b[m..];
    assert n < |s| ==> s[n] == b[m];
    RunIs(s, n);
    PartsStep(s);
    PartsStep(b);
    PartsStep(a);
    var da, db := DecodeStrict(ToBytes(a)), DecodeStrict(ToBytes(b[..m]));
    DecodeAtSlash(ToBytes(a), ToBytes(b[..m]));
    ConcatAssoc(da, Concat(Some("/"), db), UnquoteParts(b[m..]));
    ConcatAssoc(Some("/"), db, UnquoteParts(b[m..]));
    assert a[|a|..] == "" && UnquoteParts("") == Some("") by { NoParts(); }
    NothingFirst(da);
  }

  lemma NoParts()
    ensures UnquoteParts("") == Some("")
  {
  }

  lemma {:induction false} PlainParts(s: string)
    requires '%' !in s
    ensures UnquoteParts(s) == Some(s)
    decreases |s|
  {
    if s != "" {
      var n := AsciiRun(s);
      if n == 0 {
        PlainParts(s[1..]);
        assert s[..1] + s[1..] == s;
      } else {
        PlainRunDecodes(s[..n]);
        PlainParts(s[n..]);
        assert s[..n] + s[n..] == s;
      }
    }
  }

  /** A path decodes segment by segment. */
  lemma UnquoteAtSlash(a: string, b: string)
    ensures Unquote(a + ("/" + b)) == Concat(Unquote(a), Concat(Some("/"), Unquote(b)))
  {
    hide UnquoteParts, Concat;
    var s := a + ("/" + b);
    assert '%' in s <==> '%' in a || '%' in b by {
      assert forall i :: 0 <= i < |s| ==> s[i] == if i < |a| then a[i] else if i == |a| then '/' else b[i - |a| - 1];
      assert forall i :: 0 <= i < |a| ==> s[i] == a[i];
      assert forall i :: 0 <= i < |b| ==> s[i + |a| + 1] == b[i];
    }
    PartsAtSlash(a, b);
    if '%' !in a { PlainParts(a); }
    if '%' !in b { PlainParts(b); }
    if '%' !in s { PlainParts(s); }
  }

  lemma {:induction false} SegmentsAtSlash(a: string, b: string)
    ensures Segments(a + ("/" + b)) == Segments(a) + Segments(b)
  {
    var s := a + ("/" + b);
    if a == "" {
      assert s[1..] == b;
    } else {
      assert s[1..] == a[1..] + ("/" + b);
      SegmentsAtSlash(a[1..], b);
    }
  }

  /** What the segments of a path are once each is decoded, which may bring in slashes. */
  function DecodedSegments(segments: seq<string>): Option<seq<string>> {
    if segments == [] then Some([])
    else
      var first, rest := Unquote(segments[0]), DecodedSegments(segments[1..]);
      if first.None? || rest.None? then None else Some(Segments(first.value) + rest.value)
  }

  lemma {:induction false} PathDecodes(path: string)
    ensures match DecodedSegments(Segments(path))
            case None => Unquote(path) == None
            case Some(segments) => Unquote(path).Some? && Segments(Unquote(path).value) == segments
    decreases |path|
  {
    hide Unquote, Segments;
    var n := Until(path, "/");
    if n == |path| {
      assert '/' !in path;
      OneSegment(path);
      assert [path][1..] == [];
      var u := Unquote(path);
      assert DecodedSegments([]) == Some([]);
      assert u.Some? ==> Segments(u.value) + [] == Segments(u.value);
    } else {
      var a, b := path[..n], path[n + 1..];
      assert path == a + ("/" + b);
      assert '/' !in a;
      OneSegment(a);
      SegmentsAtSlash(a, b);
      assert Segments(path)[0] == a && Segments(path)[1..] == Segments(b);
      PathDecodes(b);
      UnquoteAtSlash(a, b);
      if Unquote(a).Some? && Unquote(b).Some? {
        SegmentsAtSlash(Unquote(a).value, Unquote(b).value);
      }
    }
  }

  predicate IsDot(segment: string) {
    segment == "." || segment == ".."
  }

  /** Some decoded segment is a dot segment. */
  predicate AnyDot(segments: seq<string>) {
    exists k :: 0 <= k < |segments| && IsDot(segments[k])
  }

  /** The segment decodes to several, and one of those is a dot segment. */
  predicate HidesDot(segment: string) {
    var u := Unquote(segment);
    u.Some? && '/' in u.value && AnyDot(Segments(u.value))
  }

  lemma CleanSegment(segment: string)
    requires CleanTo(segment, MAX_DECODE_PEELS)
    ensures Unquote(segment).Some?
    ensures AnyDot(Segments(Unquote(segment).value)) <==> HidesDot(segment)
  {
    var u := Unquote(segment).value;
    assert !IsBad(u) by {
      hide Unquote;
    }
    if '/' !in u {
      OneSegment(u);
      assert Starts("..", "..") by { assert ".."[..2] == ".."; }
    }
  }

  predicate AnyHidden(segments: seq<string>) {
    exists k :: 0 <= k < |segments| && HidesDot(segments[k])
  }

  lemma AnyHiddenStep(segments: seq<string>)
    requires segments != []
    ensures AnyHidden(segments) <==> HidesDot(segments[0]) || AnyHidden(segments[1..])
  {
    hide HidesDot;
    var rest := segments[1..];
    assert forall k :: 0 < k < |segments| ==> segments[k] == rest[k - 1];
    if AnyHidden(rest) {
      var k :| 0 <= k < |rest| && HidesDot(rest[k]);
      assert HidesDot(segments[k + 1]);
    }
  }

  lemma {:induction false} DotsAmongDecoded(segments: seq<string>)
    requires forall k :: 0 <= k < |segments| ==> CleanTo(segments[k], MAX_DECODE_PEELS)
    ensures DecodedSegments(segments).Some?
    ensures AnyDot(DecodedSegments(segments).value) <==> AnyHidden(segments)
  {
    hide CleanTo, Unquote, Segments, HidesDot, AnyDot, AnyHidden;
    if segments == [] {
      NoDots();
    } else {
      CleanSegment(segments[0]);
      forall k | 0 <= k < |segments| - 1 ensures segments[1..][k] == segments[k + 1] {}
      DotsAmongDecoded(segments[1..]);
      DotInEither(Segments(Unquote(segments[0]).value), DecodedSegments(segments[1..]).value);
      AnyHiddenStep(segments);
    }
  }

  lemma NoDots()
    ensures !AnyDot([]) && !AnyHidden([])
  {
  }

  lemma DotInEither(a: seq<string>, b: seq<string>)
    ensures AnyDot(a + b) <==> AnyDot(a) || AnyDot(b)
  {
    hide IsDot;
    var all := a + b;
    if AnyDot(a) {
      var k :| 0 <= k < |a| && IsDot(a[k]);
      assert all[k] == a[k];
    }
    if AnyDot(b) {
      var k :| 0 <= k < |b| && IsDot(b[k]);
      assert all[|a| + k] == b[k];
    }
    if AnyDot(all) {
      var k :| 0 <= k < |all| && IsDot(all[k]);
      assert if k < |a| then a[k] == all[k] else b[k - |a|] == all[k];
    }
  }

  /**
   An accepted path, decoded once, has a dot segment iff one of its segments decodes to several
   with one among them.
   */
  lemma WhenDecodedPathHasDots(path: string)
    requires PathIsClean(path)
    ensures Unquote(path).Some?
    ensures AnyDot(Segments(Unquote(path).value)) <==> AnyHidden(Segments(path))
  {
    hide CleanTo, Unquote, Segments, AnyDot, AnyHidden, DecodedSegments, IsControl, IsBidiInvisible;
    DotsAmongDecoded(Segments(path));
    PathDecodes(path);
  }

  lemma SegmentHidesDots()
    ensures CleanTo("a%2f..", MAX_DECODE_PEELS) && HidesDot("a%2f..")
  {
    hide Unquote, IsBad, CleanTo, Segments;
    var s, u := "a" + ("%2f" + ".."), "a" + ("/" + "..");
    assert s == "a%2f..";
    EscapedSlash("a", "..");
    NameFirst(s);
    NameFirst(u);
    NoEscape(u);
    CleanToStep(s, MAX_DECODE_PEELS);
    CleanToStep(u, MAX_DECODE_PEELS - 1);
    OneSegment("a");
    OneSegment("..");
    SegmentsAtSlash("a", "..");
    assert Segments(u) == ["a", ".."] && u[1] == '/';
    assert IsDot(Segments(u)[1]);
  }

  /** A path below the prefix a shared host requires. */
  const HIDING_PATH := "/" + ("comicgeeks" + ("/" + "a%2f.."))

  lemma HidingSegments()
    ensures Segments(HIDING_PATH) == ["", "comicgeeks", "a%2f.."]
  {
    hide Segments;
    assert '/' !in "comicgeeks" && '/' !in "a%2f..";
    OneSegment("");
    OneSegment("comicgeeks");
    OneSegment("a%2f..");
    SegmentsAtSlash("", "comicgeeks" + ("/" + "a%2f.."));
    SegmentsAtSlash("comicgeeks", "a%2f..");
    assert "" + HIDING_PATH == HIDING_PATH;
  }

  lemma HidingCharacters()
    ensures forall i :: 0 <= i < |HIDING_PATH| ==> !IsControl(HIDING_PATH[i]) && !IsBidiInvisible(HIDING_PATH[i])
  {
    forall i | 0 <= i < |HIDING_PATH| ensures !IsControl(HIDING_PATH[i]) && !IsBidiInvisible(HIDING_PATH[i]) {
      assert ' ' <= HIDING_PATH[i] <= 'z';
    }
  }

  /** Such a path: it is accepted, and once decoded it has a dot segment. */
  lemma EncodedSlashHidesDots()
    ensures HIDING_PATH == "/comicgeeks/a%2f.." && PathIsClean(HIDING_PATH)
    ensures Unquote(HIDING_PATH).Some? && AnyDot(Segments(Unquote(HIDING_PATH).value))
  {
    hide Unquote, IsBad, CleanTo, Segments, IsControl, IsBidiInvisible, HidesDot, AnyDot;
    HidingCharacters();
    HidingSegments();
    SegmentHidesDots();
    assert !IsBad("") && !IsBad("comicgeeks") by { NotBad("comicgeeks"); }
    PlainSegment("");
    PlainSegment("comicgeeks");
    assert HidesDot(Segments(HIDING_PATH)[2]);
    WhenDecodedPathHasDots(HIDING_PATH);
  }

  lemma NameFirst(s: string)
    requires |s| >= 2 && s[0] != '.' && '\\' !in s
    ensures !IsBad(s)
  {
    assert s[..2][0] == s[0];
  }

  lemma NoEscape(s: string)
    requires '%' !in s
    ensures Unquote(s) == Some(s)
  {
  }

  lemma EscapedSlash(a: string, b: string)
    requires IsAscii(a) && IsAscii(b) && '%' !in a && '%' !in b
    ensures Unquote(a + ("%2f" + b)) == Some(a + ("/" + b))
  {
    hide DecodeStrict, Unquote, Concat;
    var s := a + ("%2f" + b);
    assert s[|a|] == '%';
    AsciiUnquotes(s);
    EscapedSlashBytes(a, b);
    DecodeAtSlash(ToBytes(a), ToBytes(b));
    PlainRunDecodes(a);
    PlainRunDecodes(b);
    assert Concat(Some(a), Concat(Some("/"), Some(b))) == Some(a + ("/" + b)) by { SlashBetween(a, b); }
  }

  lemma SlashBetween(a: string, b: string)
    ensures Concat(Some(a), Concat(Some("/"), Some(b))) == Some(a + ("/" + b))
  {
  }

  lemma NoEscapeFirst(s: string)
    requires s != "" && s[0] != '%'
    ensures Width(s) == 1 && FirstByte(s) == s[0] as nat
  {
  }

  lemma SlashEscapeFirst(b: string)
    requires IsAscii(b) && IsAscii("%2f" + b)
    ensures ToBytes("%2f" + b) == [0x2F] + ToBytes(b)
  {
    var s := "%2f" + b;
    BytesStep(s);
    hide ToBytes, IsAscii;
    assert s[0] == '%' && s[1] == '2' && s[2] == 'f' && s[3..] == b;
    assert HexValue('2') == Some(2) && HexValue('f') == Some(15);
  }

  lemma EscapedSlashIsAscii(a: string, b: string)
    requires IsAscii(a) && IsAscii(b)
    ensures IsAscii("%2f" + b) && IsAscii(a + ("%2f" + b))
  {
    AsciiConcat("%2f", b);
    AsciiConcat(a, "%2f" + b);
  }

  lemma {:induction false} EscapedSlashBytes(a: string, b: string)
    requires IsAscii(a) && IsAscii(b) && '%' !in a
    ensures IsAscii(a + ("%2f" + b)) && ToBytes(a + ("%2f" + b)) == ToBytes(a) + ([0x2F] + ToBytes(b))
  {
    var s := a + ("%2f" + b);
    EscapedSlashIsAscii(a, b);
    if a == "" {
      SlashEscapeFirst(b);
      NoBytes();
      hide *;
      assert s == "%2f" + b;
      assert ToBytes(a) + ([0x2F] + ToBytes(b)) == [0x2F] + ToBytes(b);
    } else {
      BytesStep(s);
      BytesStep(a);
      NoEscapeFirst(a);
      NoEscapeFirst(s);
      hide *;
      assert s[1..] == a[1..] + ("%2f" + b);
      EscapedSlashBytes(a[1..], b);
    }
  }

  lemma NoBytes()
    ensures IsAscii("") && ToBytes("") == []
  {
  }
}
