/**
 What may be fetched (backend/src/foragerr/covers.py), said of the URL as it is written:
 the hosts, the authority around them, the path, and its percent-encoding.
 */
module CoverTargets {
  import opened Strings
  import opened Utf8
  import opened CoverUrl
  import opened CoverPath

  // ----- the URL as written ----------------------------------------------------------------

  /** What may stand before the host: text up to and with an `@`, or nothing. */
  predicate IsUser(user: string) {
    (user == "" || user[|user| - 1] == '@') && Lacks(user, "/?#[]\t\r\n")
  }

  /** What may stand behind the host: a colon with digits, a bare colon, or nothing. */
  predicate IsPort(port: string) {
    port == "" || (port[0] == ':' && AllDigits(port[1..]))
  }

  /** A query, a fragment, both, or nothing. */
  predicate IsTail(tail: string) {
    (tail == "" || tail[0] == '?' || tail[0] == '#') && Lacks(tail, "\t\r\n")
  }

  /** `scheme://user@host:port/path?tail`, in its pieces. */
  datatype Written = Written(scheme: string, user: string, host: string, port: string, path: string, tail: string) {
    predicate Valid() {
      && |scheme| == 5 && Lower(scheme) == "https" && IsUser(user) && PlainHost(host) && IsAscii(host) && '%' !in host
      && IsPort(port) && PlainPath(path) && IsTail(tail)
    }

    function Netloc(): string {
      user + (host + port)
    }

    function Text(): string {
      scheme + (":" + ("//" + (Netloc() + (path + tail))))
    }
  }

  lemma SchemeIsLetters(scheme: string)
    requires |scheme| == 5 && Lower(scheme) == "https"
    ensures IsScheme(scheme) && forall i :: 0 <= i < 5 ==> IsLetter(scheme[i])
  {
    forall i | 0 <= i < 5 ensures IsLetter(scheme[i]) {
      assert LowerChar(scheme[i]) == "https"[i];
    }
  }

  lemma {:induction false} LastAt(front: string, rest: string)
    requires '@' !in rest
    ensures AfterAt(front + ("@" + rest)) == |front| + 1
  {
    var s := front + ("@" + rest);
    if front == "" {
      assert s[1..] == rest;
      NoAt(rest);
    } else {
      assert s[1..] == front[1..] + ("@" + rest);
      LastAt(front[1..], rest);
    }
  }

  lemma HostAndPort(w: Written)
    requires w.Valid()
    ensures Lacks(w.host + w.port, "@") && Lacks(w.host, ":") && Lacks(w.port, "/?#[]\t\r\n")
  {
    hide IsUser, PlainPath, IsTail, Lower;
    var info := w.host + w.port;
    forall i | 0 <= i < |w.port| ensures w.port[i] !in "@/?#[]\t\r\n" {
      assert i > 0 ==> w.port[i] == w.port[1..][i - 1] && IsDigit(w.port[1..][i - 1]);
    }
    forall i | 0 <= i < |info| ensures info[i] !in "@" {
      assert info[i] == if i < |w.host| then w.host[i] else w.port[i - |w.host|];
    }
  }

  lemma InfoOfWritten(w: Written)
    requires w.Valid()
    ensures AfterAt(w.Netloc()) == |w.user| && HostInfo(w.Netloc()) == w.host + w.port
  {
    HostAndPort(w);
    hide IsUser, PlainHost, IsPort, PlainPath, IsTail, Lower, IsAscii, Lacks;
    var info := w.host + w.port;
    assert '@' !in info by { LacksOne(info, '@'); }
    if w.user == "" {
      assert w.Netloc() == info;
      NoAt(info);
    } else {
      UserEndsInAt(w.user);
      var front := w.user[..|w.user| - 1];
      assert w.Netloc() == front + ("@" + info);
      LastAt(front, info);
    }
  }

  lemma UserEndsInAt(user: string)
    requires IsUser(user) && user != ""
    ensures user == user[..|user| - 1] + "@"
  {
  }

  lemma LacksOne(s: string, c: char)
    requires Lacks(s, [c])
    ensures c !in s
  {
  }

  /** What the authority says: the host, whether someone is named, and the port. */
  lemma AuthorityOfWritten(w: Written)
    requires w.Valid()
    ensures HostOf(w.Netloc()) == w.host
    ensures HasUserInfo(w.Netloc()) <==> w.user != "" && w.user != "@" && w.user != ":@"
    ensures DefaultPort(w.Netloc()) <==> w.port == "" || w.port == ":" || Number(w.port[1..]) == 443
  {
    InfoOfWritten(w);
    HostAndPort(w);
    UserOfWritten(w);
    hide IsUser, PlainHost, PlainPath, IsTail, Lower, IsAscii, AfterAt, HostInfo, HasUserInfo;
    var info := w.host + w.port;
    UntilThere(w.host, w.port, ":");
    assert info[..|w.host|] == w.host;
    assert w.port != "" ==> info[|w.host| + 1..] == w.port[1..];
  }

  lemma UserOfWritten(w: Written)
    requires w.Valid() && AfterAt(w.Netloc()) == |w.user|
    ensures HasUserInfo(w.Netloc()) <==> w.user != "" && w.user != "@" && w.user != ":@"
  {
    hide PlainHost, IsPort, PlainPath, IsTail, Lower, IsAscii, AfterAt, Lacks;
    if w.user != "" {
      var front := w.user[..|w.user| - 1];
      assert w.Netloc()[..|w.user| - 1] == front;
      assert w.user == front + "@";
      assert front == "" <==> w.user == "@";
      assert w.user == ":@" ==> front == ":@"[..1] == ":";
    }
  }

  lemma NetlocLacks(w: Written)
    requires w.Valid()
    ensures Lacks(w.Netloc(), "/?#[]\t\r\n") && w.Netloc() != ""
  {
    HostAndPort(w);
    hide IsPort, PlainPath, IsTail, Lower, IsAscii;
    var netloc := w.Netloc();
    forall i | 0 <= i < |netloc| ensures netloc[i] !in "/?#[]\t\r\n" {
      assert netloc[i] ==
        if i < |w.user| then w.user[i] else if i < |w.user| + |w.host| then w.host[i - |w.user|]
        else w.port[i - |w.user| - |w.host|];
    }
  }

  lemma LacksFewer(s: string)
    requires Lacks(s, "/?#[]\t\r\n")
    ensures Lacks(s, "/?#") && Lacks(s, "\t\r\n") && '[' !in s && ']' !in s
  {
  }

  lemma PathAndTail(path: string, tail: string)
    requires PlainPath(path) && IsTail(tail)
    ensures PathOf(path + tail) == path && Lacks(path + tail, "\t\r\n")
    ensures path + tail == "" || (path + tail)[0] in "/?#"
  {
    var all := path + tail;
    var noFragment := all[..Until(all, "#")];
    assert forall i :: 0 <= i < |path| ==> all[i] == path[i];
    assert |path| <= |noFragment|;
    var query := noFragment[|path|..];
    assert noFragment == path + query;
    assert query == "" || query[0] == tail[0];
    assert query != "" ==> tail[0] != '#' by {
      if query != "" { assert all[|path|] == tail[0] && |path| < Until(all, "#"); }
    }
    UntilThere(path, query, "?");
    assert noFragment[..|path|] == path;
  }

  lemma NetlocOfWritten(netloc: string, rest: string)
    requires Lacks(netloc, "/?#[]\t\r\n") && (rest == "" || rest[0] in "/?#")
    ensures SplitNetloc("//" + (netloc + rest)) == (netloc, rest)
  {
    LacksFewer(netloc);
    UntilThere(netloc, rest, "/?#");
    assert ("//" + (netloc + rest))[2..] == netloc + rest && ("//" + (netloc + rest))[..2] == "//";
    assert (netloc + rest)[..|netloc|] == netloc && (netloc + rest)[|netloc|..] == rest;
  }

  lemma SchemeOfWritten(scheme: string, rest: string)
    requires |scheme| == 5 && Lower(scheme) == "https"
    ensures SplitScheme(scheme + (":" + rest)) == ("https", rest)
  {
    SchemeIsLetters(scheme);
    hide Lower, IsScheme;
    UntilColon(scheme, rest);
    SchemeAt(scheme + (":" + rest), 5);
  }

  lemma UntilColon(scheme: string, rest: string)
    requires forall i :: 0 <= i < |scheme| ==> IsLetter(scheme[i])
    ensures var u := scheme + (":" + rest);
            Until(u, ":") == |scheme| && u[..|scheme|] == scheme && u[|scheme| + 1..] == rest
  {
    UntilThere(scheme, ":" + rest, ":");
  }

  lemma SchemeAt(u: string, n: nat)
    requires Until(u, ":") == n < |u| && IsScheme(u[..n])
    ensures SplitScheme(u) == (Lower(u[..n]), u[n + 1..])
  {
    hide Lower, IsScheme, Until;
  }

  lemma TextIsClean(w: Written)
    requires w.Valid()
    ensures w.Text() != "" && w.Text()[0] > ' ' && Lacks(w.Text(), "\t\r\n")
  {
    NetlocLacks(w);
    LacksFewer(w.Netloc());
    PathAndTail(w.path, w.tail);
    SchemeIsLetters(w.scheme);
    hide PlainHost, IsUser, IsPort, PlainPath, IsTail, Lower, IsAscii;
    var text, netloc, rest := w.Text(), w.Netloc(), w.path + w.tail;
    assert text[0] == w.scheme[0];
    forall i | 0 <= i < |text| ensures text[i] !in "\t\r\n" {
      assert text[i] ==
        if i < 5 then w.scheme[i] else if i == 5 then ':' else if i < 8 then '/'
        else if i < 8 + |netloc| then netloc[i - 8] else rest[i - 8 - |netloc|];
    }
  }

  /** A URL comes apart into its pieces, whatever stands before and behind the host. */
  lemma SplitOfWritten(w: Written)
    requires w.Valid()
    ensures Split(w.Text()) == Some(Parts("https", w.Netloc(), w.path))
  {
    NetlocLacks(w);
    LacksFewer(w.Netloc());
    PathAndTail(w.path, w.tail);
    TextIsClean(w);
    hide PlainHost, IsUser, IsPort, PlainPath, IsTail, IsAscii, Sanitized, SplitScheme, SplitNetloc, PathOf;
    SanitizedUrl(w.Text());
    SchemeOfWritten(w.scheme, "//" + (w.Netloc() + (w.path + w.tail)));
    NetlocOfWritten(w.Netloc(), w.path + w.tail);
  }

  /**
   The canonical form of a URL as it is written, which does not end in white space: there is
   one iff nobody is named before the host, the port is the default one, the host in lower
   case may be fetched from, the path is clean, and the form is not too long.
   */
  lemma CanonicalOfWritten(w: Written, uni: Unicode)
    requires w.Valid() && !IsSpace(w.Text()[|w.Text()| - 1])
    ensures var decoded := if uni.lenient(w.path) == "" then "/" else uni.lenient(w.path);
            Canonical(w.Text(), uni) ==
            if && (w.user == "" || w.user == "@" || w.user == ":@")
               && (w.port == "" || w.port == ":" || Number(w.port[1..]) == 443)
               && MayFetch(Lower(w.host), decoded) && Begins(decoded, "/") && PathIsClean(w.path)
               && 8 + |w.host| + |w.path| <= 1024
            then Some("https://" + Lower(w.host) + w.path) else None
  {
    var text := w.Text();
    TextIsClean(w);
    NothingStripped(text, IsSpace);
    SplitOfWritten(w);
    AuthorityOfWritten(w);
    LowerName(uni.lower, w);
    var decoded := if uni.lenient(w.path) == "" then "/" else uni.lenient(w.path);
    AllowedHosts(Lower(w.host), decoded);
    StartsAsWritten(decoded, "/");
    hide *;
    CanonicalIs(text, uni, w.Netloc(), w.host, w.path);
  }

  lemma LowerName(lower: Folding, w: Written)
    requires w.Valid()
    ensures HostOf(w.Netloc()) == w.host && HostName(lower, w.Netloc()) == Lower(w.host)
    ensures IsAscii(Lower(w.host)) && lower(Lower(w.host)) == Lower(w.host) && Lower(w.host) != ""
  {
    AuthorityOfWritten(w);
    hide IsUser, IsPort, PlainPath, IsTail, HostOf, DefaultPort, HasUserInfo, Lower;
    UntilThere(w.host, "", "%") by {
      assert forall i :: 0 <= i < |w.host| ==> w.host[i] in w.host;
    }
    assert w.host + "" == w.host && w.host[..|w.host|] == w.host && w.host[|w.host|..] == "";
    LowerOfAscii(lower, w.host);
    LowerOfLower(w.host);
    LowerOfAscii(lower, Lower(w.host));
    NotEmpty(w.host);
    assert Lower(w.host) + "" == Lower(w.host);
  }

  lemma CanonicalIs(text: string, uni: Unicode, netloc: string, host: string, path: string)
    requires Strip(text, IsSpace) == text && Split(text) == Some(Parts("https", netloc, path))
    requires HostName(uni.lower, netloc) == Lower(host) && Lower(host) != "" && IsAscii(Lower(host))
    requires uni.lower(Lower(host)) == Lower(host)
    ensures var decoded := if uni.lenient(path) == "" then "/" else uni.lenient(path);
            Canonical(text, uni) ==
            if && !HasUserInfo(netloc) && DefaultPort(netloc) && SomeRuleAllows(Lower(host), decoded)
               && Starts(decoded, "/") && PathIsClean(path) && 8 + |host| + |path| <= 1024
            then Some("https://" + Lower(host) + path) else None
  {
    hide Split, Strip, HostName, HasUserInfo, DefaultPort, SomeRuleAllows, Starts, PathIsClean, Lower, IsAscii;
  }

  /** The same letters, in whatever case, and otherwise the same characters. */
  predicate SameLetters(a: string, b: string) {
    |a| == |b| && forall i :: 0 <= i < |a| ==> SameLetter(a[i], b[i])
  }

  predicate SameLetter(c: char, d: char) {
    var (m, n) := (c as int, d as int);
    m == n || (65 <= m <= 90 && n == m + 32) || (65 <= n <= 90 && m == n + 32)
  }

  lemma LowerOfLetters(a: string, b: string)
    ensures Lower(a) == Lower(b) <==> SameLetters(a, b)
  {
    hide Lower;
    if |a| == |b| {
      forall i | 0 <= i < |a| ensures Lower(a)[i] == Lower(b)[i] <==> SameLetter(a[i], b[i]) {
        LowerOfLetter(a[i], b[i]);
      }
    }
  }

  lemma LowerOfLetter(c: char, d: char)
    ensures LowerChar(c) == LowerChar(d) <==> SameLetter(c, d)
  {
  }

  /** URLs that differ in the case of their hosts have one canonical form. */
  lemma HostCaseDoesNotMatter(w: Written, host: string, uni: Unicode)
    requires w.Valid() && w.(host := host).Valid() && SameLetters(w.host, host)
    requires !IsSpace(w.Text()[|w.Text()| - 1])
    requires var text := w.(host := host).Text(); !IsSpace(text[|text| - 1])
    ensures Canonical(w.(host := host).Text(), uni) == Canonical(w.Text(), uni)
  {
    LowerOfLetters(w.host, host);
    CanonicalOfWritten(w, uni);
    CanonicalOfWritten(w.(host := host), uni);
    hide *;
  }

  // ----- paths and their encoding ----------------------------------------------------------

  /** A control character, or one of the invisible and direction-changing ones. */
  predicate Hidden(c: char) {
    var n := c as int;
    || n < 32 || n == 127 || n == 0x061C || 0x200B <= n <= 0x200F || 0x202A <= n <= 0x202E || 0x2060 <= n <= 0x2064
    || 0x2066 <= n <= 0x2069 || n == 0xFEFF
  }

  lemma HiddenCharacter(c: char)
    ensures Hidden(c) <==> IsControl(c) || IsBidiInvisible(c)
  {
  }

  /** A segment that names no place outside: no dot, nothing that begins with two, no backslash. */
  ghost predicate Harmless(segment: string) {
    segment != "." && !Begins(segment, "..") && '\\' !in segment
  }

  lemma HarmlessIsNotBad(segment: string)
    ensures Harmless(segment) <==> !IsBad(segment)
  {
    StartsAsWritten(segment, "..");
  }

  lemma SegmentIsThere(a: string, segment: string, b: string)
    requires '/' !in segment && (a == "" || a[|a| - 1] == '/') && (b == "" || b[0] == '/')
    ensures segment in Segments(a + (segment + b))
  {
    hide Segments;
    OneSegment(segment);
    if b == "" {
      assert segment + b == segment;
    } else {
      assert segment + b == segment + ("/" + b[1..]);
      SegmentsAtSlash(segment, b[1..]);
    }
    assert segment in Segments(segment + b);
    if a == "" {
      assert a + (segment + b) == segment + b;
    } else {
      var front := a[..|a| - 1];
      assert a + (segment + b) == front + ("/" + (segment + b));
      SegmentsAtSlash(front, segment + b);
    }
  }

  lemma CleanSegmentIsHarmless(segment: string)
    requires CleanTo(segment, MAX_DECODE_PEELS)
    ensures Harmless(segment) && Unquote(segment).Some? && Harmless(Unquote(segment).value)
  {
    HarmlessIsNotBad(segment);
    CleanToStep(segment, MAX_DECODE_PEELS);
    if Unquote(segment).Some? {
      HarmlessIsNotBad(Unquote(segment).value);
      CleanToStep(Unquote(segment).value, MAX_DECODE_PEELS - 1);
    }
    hide *;
  }

  /** A clean path has no hidden character, and what stands between its slashes is harmless, as sent and decoded. */
  lemma CleanPathIsHarmless(a: string, segment: string, b: string)
    requires PathIsClean(a + (segment + b))
    requires '/' !in segment && (a == "" || a[|a| - 1] == '/') && (b == "" || b[0] == '/')
    ensures forall c :: c in a + (segment + b) ==> !Hidden(c)
    ensures Harmless(segment) && Unquote(segment).Some? && Harmless(Unquote(segment).value)
  {
    var path := a + (segment + b);
    hide CleanTo, Unquote, Segments, IsControl, IsBidiInvisible, Hidden, Harmless;
    forall c | c in path ensures !Hidden(c) {
      HiddenCharacter(c);
    }
    SegmentIsThere(a, segment, b);
    CleanSegmentIsHarmless(segment);
  }

  /** The hexadecimal digit of a number, in either case. */
  function HexDigit(n: nat, upper: bool): char
    requires n < 16
  {
    if n < 10 then '0' + n as char else if upper then 'A' + (n - 10) as char else 'a' + (n - 10) as char
  }

  /** Every byte as a percent sign and two hexadecimal digits. */
  function Percent(bytes: seq<nat>, upper: bool): string
    requires forall i :: 0 <= i < |bytes| ==> bytes[i] < 256
  {
    if bytes == [] then ""
    else "%" + ([HexDigit(bytes[0] / 16, upper), HexDigit(bytes[0] % 16, upper)] + Percent(bytes[1..], upper))
  }

  lemma HexDigitReads(n: nat, upper: bool)
    requires n < 16
    ensures HexValue(HexDigit(n, upper)) == Some(n) && HexDigit(n, upper) < '\U{80}'
  {
  }

  lemma {:induction false} PercentReads(bytes: seq<nat>, upper: bool)
    requires forall i :: 0 <= i < |bytes| ==> bytes[i] < 256
    ensures IsAscii(Percent(bytes, upper)) && ToBytes(Percent(bytes, upper)) == bytes
  {
    if bytes == [] {
      NoBytes();
    } else {
      PercentReads(bytes[1..], upper);
      EscapeReads(bytes[0], Percent(bytes[1..], upper), upper);
      assert bytes == [bytes[0]] + bytes[1..];
    }
  }

  lemma EscapeReads(byte: nat, rest: string, upper: bool)
    requires byte < 256 && IsAscii(rest)
    ensures var s := "%" + ([HexDigit(byte / 16, upper), HexDigit(byte % 16, upper)] + rest);
            IsAscii(s) && ToBytes(s) == [byte] + ToBytes(rest)
  {
    HexDigitReads(byte / 16, upper);
    HexDigitReads(byte % 16, upper);
    var s := "%" + ([HexDigit(byte / 16, upper), HexDigit(byte % 16, upper)] + rest);
    assert s[0] == '%' && s[1] == HexDigit(byte / 16, upper) && s[2] == HexDigit(byte % 16, upper) && s[3..] == rest;
    hide HexDigit, HexValue, ToBytes;
    AsciiEscape(s, rest);
    BytesStep(s);
  }

  lemma AsciiEscape(s: string, rest: string)
    requires |s| >= 3 && s[3..] == rest && IsAscii(rest)
    requires s[0] < '\U{80}' && s[1] < '\U{80}' && s[2] < '\U{80}'
    ensures IsAscii(s)
  {
    assert forall i :: 3 <= i < |s| ==> s[i] == rest[i - 3];
  }

  lemma {:induction false} EncodedBytes(s: string)
    ensures forall i :: 0 <= i < |Encode(s)| ==> Encode(s)[i] < 256
  {
    if s != "" {
      EncodeCons(s);
      EncodedBytes(s[1..]);
      OctetsAreBytes(s[0]);
      hide Octets;
    }
  }

  lemma OctetsAreBytes(c: char)
    ensures forall i :: 0 <= i < |Octets(c)| ==> Octets(c)[i] < 256
  {
  }

  /** Text whose bytes are all percent-encoded, in digits of either case, decodes to itself. */
  lemma UnquoteOfPercent(s: string, upper: bool)
    requires s != ""
    ensures forall i :: 0 <= i < |Encode(s)| ==> Encode(s)[i] < 256
    ensures Unquote(Percent(Encode(s), upper)) == Some(s)
  {
    EncodedBytes(s);
    EncodeCons(s);
    hide Octets, DecodeStrict, ToBytes, Unquote, IsAscii;
    PercentReads(Encode(s), upper);
    assert Percent(Encode(s), upper)[0] == '%';
    AsciiUnquotes(Percent(Encode(s), upper));
    StrictDecodeOfEncode(s);
  }
}
