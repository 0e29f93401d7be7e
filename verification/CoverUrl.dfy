/**
 Which cover URLs may be fetched, and the one form they are kept under
 (backend/src/foragerr/covers.py).
 */
module CoverUrl {
  import opened Strings
  import opened Utf8

  const MAX_COVER_URL_LENGTH := 1024
  const MAX_DECODE_PEELS := 4

  // ----- percent decoding (section 2.1 of RFC 3986) ------------------------------------

  predicate IsAscii(s: string) {
    forall i :: 0 <= i < |s| ==> s[i] < '\U{80}'
  }

  function HexValue(c: char): Option<nat> {
    if '0' <= c <= '9' then Some((c - '0') as nat)
    else if 'a' <= c <= 'f' then Some((c - 'a') as nat + 10)
    else if 'A' <= c <= 'F' then Some((c - 'A') as nat + 10)
    else None
  }

  /** Does an escape start here? */
  predicate EscapeAt(s: string) {
    |s| >= 3 && s[0] == '%' && HexValue(s[1]).Some? && HexValue(s[2]).Some?
  }

  /** `unquote_to_bytes` of ASCII text: what is no escape stands for itself. */
  function ToBytes(run: string): (b: seq<nat>)
    requires IsAscii(run)
    ensures |b| <= |run|
  {
    if run == "" then []
    else if EscapeAt(run) then [16 * HexValue(run[1]).value + HexValue(run[2]).value] + ToBytes(run[3..])
    else [run[0] as nat] + ToBytes(run[1..])
  }

  /** The length of the ASCII text a string starts with. */
  function AsciiRun(s: string): (n: nat)
    ensures n <= |s| && IsAscii(s[..n]) && (n < |s| ==> s[n] >= '\U{80}')
  {
    if s == "" || s[0] >= '\U{80}' then 0 else 1 + AsciiRun(s[1..])
  }

  function Concat(a: Option<string>, b: Option<string>): Option<string> {
    if a.Some? && b.Some? then Some(a.value + b.value) else None
  }

  /** Each run of ASCII text is decoded on its own; other characters stay. */
  function UnquoteParts(s: string): Option<string>
    decreases |s|
  {
    if s == "" then Some("")
    else
      var n := AsciiRun(s);
      if n == 0 then Concat(Some(s[..1]), UnquoteParts(s[1..]))
      else Concat(DecodeStrict(ToBytes(s[..n])), UnquoteParts(s[n..]))
  }

  /** `unquote(s, errors="strict")`; `None` is a decoding error. */
  function Unquote(s: string): Option<string> {
    if '%' !in s then Some(s) else UnquoteParts(s)
  }

  /** ASCII text without escapes decodes to itself; an escape makes the bytes fewer. */
  lemma {:induction false} RunDecodes(run: string)
    requires IsAscii(run)
    ensures |ToBytes(run)| < |run| || DecodeStrict(ToBytes(run)) == Some(run)
  {
    if run != "" && !EscapeAt(run) {
      RunDecodes(run[1..]);
      var b := ToBytes(run);
      assert b[1..] == ToBytes(run[1..]) && b[..1] == [run[0] as nat];
      assert [run[0]] + run[1..] == run;
      assert Octets(run[0]) == [run[0] as nat];
    }
  }

  lemma {:induction false} PartsShorten(s: string)
    ensures UnquoteParts(s).Some? ==> var t := UnquoteParts(s).value; |t| < |s| || t == s
    decreases |s|
  {
    hide DecodeStrict, ToBytes, IsAscii;
    if s != "" && UnquoteParts(s).Some? {
      var n := AsciiRun(s);
      if n == 0 {
        PartsShorten(s[1..]);
        assert s[..1] + s[1..] == s;
      } else {
        RunDecodes(s[..n]);
        PartsShorten(s[n..]);
        assert s[..n] + s[n..] == s;
      }
    }
  }

  /** Decoding changes nothing or shortens, so repeated decoding ends. */
  lemma UnquoteShortens(s: string)
    ensures Unquote(s).Some? ==> var t := Unquote(s).value; |t| < |s| || t == s
  {
    PartsShorten(s);
  }

  // ----- segments ------------------------------------------------------------------------

  predicate IsBad(candidate: string) {
    candidate == "." || Starts(candidate, "..") || '\\' in candidate
  }

  /** The verdict on a segment when `peels` layers of encoding are looked under. */
  predicate CleanTo(candidate: string, peels: nat)
    decreases peels
  {
    peels == 0 || (
      && !IsBad(candidate)
      && Unquote(candidate).Some?
      && (Unquote(candidate).value == candidate || CleanTo(Unquote(candidate).value, peels - 1)))
  }

  /** `_segment_is_clean`. */
  method SegmentIsClean(segment: string) returns (clean: bool)
    ensures clean == CleanTo(segment, MAX_DECODE_PEELS)
  {
    hide CleanTo, Unquote, IsBad;
    var candidate := segment;
    for i := 0 to MAX_DECODE_PEELS
      invariant CleanTo(candidate, MAX_DECODE_PEELS - i) == CleanTo(segment, MAX_DECODE_PEELS)
    {
      CleanToStep(candidate, MAX_DECODE_PEELS - i);
      if IsBad(candidate) {
        return false;
      }
      var peeled := Unquote(candidate);
      if peeled.None? {
        return false;
      }
      if peeled.value == candidate {
        break;
      }
      candidate := peeled.value;
    }
    assert CleanTo(candidate, 0) by { CleanToStep(candidate, 0); }
    return true;
  }

  lemma CleanToStep(candidate: string, peels: nat)
    ensures CleanTo(candidate, 0)
    ensures peels > 0 && (IsBad(candidate) || Unquote(candidate).None?) ==> !CleanTo(candidate, peels)
    ensures peels > 0 && !IsBad(candidate) && Unquote(candidate).Some? ==>
              CleanTo(candidate, peels) ==
                  (Unquote(candidate).value == candidate || CleanTo(Unquote(candidate).value, peels - 1))
  {
    hide Unquote, IsBad;
  }

  /** The verdict when every layer is looked under. */
  predicate CleanThroughout(candidate: string)
    decreases |candidate|
  {
    && !IsBad(candidate)
    && Unquote(candidate).Some?
    && (UnquoteShortens(candidate);
        Unquote(candidate).value == candidate || CleanThroughout(Unquote(candidate).value))
  }

  /** Is there a last layer, or a reason to refuse, among the first `peels` candidates? */
  predicate Settles(candidate: string, peels: nat)
    decreases peels
  {
    peels > 0 && (
      || IsBad(candidate)
      || Unquote(candidate).None?
      || Unquote(candidate).value == candidate
      || Settles(Unquote(candidate).value, peels - 1))
  }

  /** Looking under one more layer can only refuse more. */
  lemma {:induction false} PeelingOnlyRefuses(segment: string, peels: nat)
    ensures CleanTo(segment, peels + 1) ==> CleanTo(segment, peels)
    decreases peels
  {
    hide Unquote, IsBad;
    if peels > 0 && CleanTo(segment, peels + 1) && Unquote(segment).value != segment {
      PeelingOnlyRefuses(Unquote(segment).value, peels - 1);
    }
  }

  /** A bounded look accepts what an unbounded one would, and what has more layers than it looks under. */
  lemma {:induction false} BoundedVerdict(segment: string, peels: nat)
    ensures CleanTo(segment, peels) <==> CleanThroughout(segment) || !Settles(segment, peels)
    decreases peels
  {
    hide Unquote, IsBad;
    if peels > 0 && !IsBad(segment) && Unquote(segment).Some? && Unquote(segment).value != segment {
      BoundedVerdict(Unquote(segment).value, peels - 1);
    }
  }

  /** The verdict is that of an unbounded look for every segment whose layers end among the four looked under. */
  lemma FourPeelsSuffice(segment: string)
    requires Settles(segment, MAX_DECODE_PEELS)
    ensures CleanTo(segment, MAX_DECODE_PEELS) <==> CleanThroughout(segment)
  {
    BoundedVerdict(segment, MAX_DECODE_PEELS);
  }

  lemma OneByteMore(c: char, b: seq<nat>)
    requires c < '\U{80}'
    ensures DecodeStrict([c as nat] + b) == Concat(Some([c]), DecodeStrict(b))
  {
    assert Octets(c) == [c as nat];
    assert ([c as nat] + b)[1..] == b;
    HeadOfOctets(c, b);
  }

  lemma {:induction false} PlainRunDecodes(run: string)
    requires IsAscii(run) && '%' !in run
    ensures DecodeStrict(ToBytes(run)) == Some(run)
  {
    if run != "" {
      PlainRunDecodes(run[1..]);
      OneByteMore(run[0], ToBytes(run[1..]));
      assert [run[0]] + run[1..] == run;
    }
  }

  lemma {:induction false} AllAscii(s: string)
    requires IsAscii(s)
    ensures AsciiRun(s) == |s|
  {
    if s != "" {
      AllAscii(s[1..]);
    }
  }

  lemma AsciiUnquotes(s: string)
    requires IsAscii(s) && '%' in s
    ensures Unquote(s) == DecodeStrict(ToBytes(s))
  {
    hide DecodeStrict, ToBytes;
    AllAscii(s);
    assert s[..|s|] == s && s[|s|..] == "";
    var d := DecodeStrict(ToBytes(s));
    assert d.Some? ==> d.value + "" == d.value;
    assert UnquoteParts("") == Some("");
    assert UnquoteParts(s) == Concat(d, UnquoteParts(s[|s|..]));
  }

  /** One layer of an encoded percent sign comes off. */
  lemma PercentPeels(rest: string)
    requires IsAscii(rest) && '%' !in rest
    ensures Unquote("%25" + rest) == Some("%" + rest)
  {
    hide DecodeStrict, Unquote;
    var s := "%25" + rest;
    assert s[0] == '%' && s[3..] == rest;
    AsciiUnquotes(s);
    PlainRunDecodes(rest);
    OneByteMore('%', ToBytes(rest));
  }

  lemma DotPeels()
    ensures Unquote("%2e") == Some(".")
  {
    hide DecodeStrict, Unquote;
    var s := "%2e";
    assert s[0] == '%' && s[3..] == "";
    AsciiUnquotes(s);
    PlainRunDecodes("");
    OneByteMore('.', ToBytes(""));
    assert "." + "" == ".";
  }

  lemma Layer(outer: string, inner: string, peels: nat)
    requires outer != "." && '\\' !in outer && outer != "" && outer[0] != '.' && Unquote(outer) == Some(inner) &&
             |inner| < |outer|
    ensures CleanTo(outer, peels + 1) == CleanTo(inner, peels)
    ensures CleanThroughout(outer) == CleanThroughout(inner)
  {
    hide Unquote;
    assert |outer| >= 2 ==> outer[..2][0] == outer[0];
  }

  /** A dot under four layers: each of the four candidates is clean, and what is under them is not looked at. */
  lemma FourLayersAreNotEnough()
    ensures CleanTo("%2525252e", MAX_DECODE_PEELS) && !CleanThroughout("%2525252e")
  {
    hide Unquote, CleanTo, CleanThroughout;
    PercentPeels("25252e");
    PercentPeels("252e");
    PercentPeels("2e");
    DotPeels();
    assert "%25" + "25252e" == "%2525252e" && "%" + "25252e" == "%25252e";
    assert "%25" + "252e" == "%25252e" && "%" + "252e" == "%252e";
    assert "%25" + "2e" == "%252e" && "%" + "2e" == "%2e";
    Layer("%2525252e", "%25252e", 3);
    Layer("%25252e", "%252e", 2);
    Layer("%252e", "%2e", 1);
    Layer("%2e", ".", 0);
    DotIsBad();
  }

  lemma DotIsBad()
    ensures CleanTo(".", 0) && !CleanThroughout(".")
  {
  }

  // ----- paths and targets ------------------------------------------------------------------

  predicate IsControl(c: char) {
    c < ' ' || c == '\U{7F}'
  }

  /** Bidirectional overrides and invisible characters, as backend/src/foragerr/metadata/sanitize.py lists them. */
  predicate IsBidiInvisible(c: char) {
    || c == '\U{061C}' || '\U{200B}' <= c <= '\U{200F}' || '\U{202A}' <= c <= '\U{202E}'
    || '\U{2060}' <= c <= '\U{2064}' || '\U{2066}' <= c <= '\U{2069}' || c == '\U{FEFF}'
  }

  /** `path.split("/")`. */
  function Segments(path: string): (segments: seq<string>)
    ensures segments != []
  {
    if path == "" then [""]
    else
      var rest := Segments(path[1..]);
      if path[0] == '/' then [""] + rest else [[path[0]] + rest[0]] + rest[1..]
  }

  /** `_path_is_clean`. */
  predicate PathIsClean(path: string) {
    && (forall i :: 0 <= i < |path| ==> !IsControl(path[i]) && !IsBidiInvisible(path[i]))
    && forall k :: 0 <= k < |Segments(path)| ==> CleanTo(Segments(path)[k], MAX_DECODE_PEELS)
  }

  datatype CoverHostRule = CoverHostRule(host: string, allowSubdomains: bool, requiredPrefix: string)

  /** An empty prefix requires nothing. */
  const COVER_HOST_RULES: seq<CoverHostRule> := [
    CoverHostRule("comicvine.gamespot.com", true, ""),
    CoverHostRule("comicvine.com", true, ""),
    CoverHostRule("s3.amazonaws.com", false, "/comicgeeks/")]

  predicate RuleAllows(rule: CoverHostRule, host: string, decoded: string) {
    && (host == rule.host || (rule.allowSubdomains && Ends(host, "." + rule.host)))
    && Starts(decoded, rule.requiredPrefix)
  }

  predicate SomeRuleAllows(host: string, decoded: string) {
    exists k :: 0 <= k < |COVER_HOST_RULES| && RuleAllows(COVER_HOST_RULES[k], host, decoded)
  }

  /** The text is some front, maybe empty, followed by the ending. */
  ghost predicate Closes(s: string, ending: string) {
    exists front: string :: s == front + ending
  }

  /** One of the three hosts, the shared one only under its path, or a name below one of the other two. */
  ghost predicate MayFetch(host: string, decoded: string) {
    || host == "comicvine.com" || Closes(host, ".comicvine.com")
    || host == "comicvine.gamespot.com" || Closes(host, ".comicvine.gamespot.com")
    || (host == "s3.amazonaws.com" && Begins(decoded, "/comicgeeks/"))
  }

  /** The text is the beginning followed by something, maybe nothing. */
  ghost predicate Begins(s: string, beginning: string) {
    exists rest: string :: s == beginning + rest
  }

  lemma EndsAsWritten(s: string, ending: string)
    ensures Ends(s, ending) <==> Closes(s, ending)
  {
    if Ends(s, ending) {
      assert s == s[..|s| - |ending|] + ending;
    }
  }

  lemma StartsAsWritten(s: string, beginning: string)
    ensures Starts(s, beginning) <==> Begins(s, beginning)
  {
    if Starts(s, beginning) {
      assert s == beginning + s[|beginning|..];
    }
  }

  lemma RulesAsListed()
    ensures COVER_HOST_RULES[0] == CoverHostRule("comicvine.gamespot.com", true, "")
    ensures COVER_HOST_RULES[1] == CoverHostRule("comicvine.com", true, "")
    ensures COVER_HOST_RULES[2] == CoverHostRule("s3.amazonaws.com", false, "/comicgeeks/")
    ensures |COVER_HOST_RULES| == 3
  {
  }

  lemma DottedNames()
    ensures "." + "comicvine.com" == ".comicvine.com" && "." + "comicvine.gamespot.com" == ".comicvine.gamespot.com"
  {
  }

  /** A rule allows a host iff it may be fetched from; below a listed host the name is cut off at a dot. */
  lemma AllowedHosts(host: string, decoded: string)
    ensures SomeRuleAllows(host, decoded) <==> MayFetch(host, decoded)
  {
    RulesAsListed();
    DottedNames();
    EndsAsWritten(host, ".comicvine.com");
    EndsAsWritten(host, ".comicvine.gamespot.com");
    StartsAsWritten(decoded, "/comicgeeks/");
    assert Starts(decoded, "");
    hide Ends, Starts, Closes, Begins, COVER_HOST_RULES;
    assert SomeRuleAllows(host, decoded) <==>
      || RuleAllows(COVER_HOST_RULES[0], host, decoded)
      || RuleAllows(COVER_HOST_RULES[1], host, decoded)
      || RuleAllows(COVER_HOST_RULES[2], host, decoded);
  }

  /** The rule loop of `target_allowed`. */
  method FindRule(host: string, decoded: string) returns (allowed: bool)
    ensures allowed <==> SomeRuleAllows(host, decoded)
    ensures allowed <==> MayFetch(host, decoded)
  {
    AllowedHosts(host, decoded);
    for k := 0 to |COVER_HOST_RULES|
      invariant forall j :: 0 <= j < k ==> !RuleAllows(COVER_HOST_RULES[j], host, decoded)
    {
      var rule := COVER_HOST_RULES[k];
      if host != rule.host && !(rule.allowSubdomains && Ends(host, "." + rule.host)) {
        continue;
      }
      if rule.requiredPrefix != "" && !Starts(decoded, rule.requiredPrefix) {
        continue;
      }
      return true;
    }
    return false;
  }

  lemma RuleNames(k: nat)
    requires k < |COVER_HOST_RULES|
    ensures var rule := COVER_HOST_RULES[k]; var n := |rule.host|;
            && n >= 5 && rule.host[n - 5] == (if k == 0 then 't' else if k == 1 then 'e' else 's')
            && ("." + rule.host)[n - 4] == rule.host[n - 5]
            && (k == 2 ==> rule == CoverHostRule("s3.amazonaws.com", false, "/comicgeeks/"))
  {
  }

  /** Of a host that many share, only the one name is allowed, and only under the required path. */
  lemma SharedHostNeedsItsPrefix(host: string, decoded: string)
    requires SomeRuleAllows(host, decoded) && Ends(host, "aws.com")
    ensures host == "s3.amazonaws.com" && Starts(decoded, "/comicgeeks/")
  {
    var k :| 0 <= k < |COVER_HOST_RULES| && RuleAllows(COVER_HOST_RULES[k], host, decoded);
    hide Ends, Starts;
    var rule := COVER_HOST_RULES[k];
    RuleNames(k);
    FromTheEnd(host, "aws.com", 5);
    if host != rule.host {
      FromTheEnd(host, "." + rule.host, 5);
    }
  }

  lemma FromTheEnd(s: string, ending: string, n: nat)
    requires Ends(s, ending) && 0 < n <= |ending|
    ensures |s| >= n && s[|s| - n] == ending[|ending| - n]
  {
    assert s[|s| - |ending|..][|ending| - n] == s[|s| - n];
  }

  /** A URL taken apart; the port is the text after the host's colon. */
  datatype Parts = Parts(scheme: string, netloc: string, path: string)

  function Until(s: string, stops: string): (n: nat)
    ensures n <= |s| && (n < |s| ==> s[n] in stops) && forall i :: 0 <= i < n ==> s[i] !in stops
  {
    if s == "" || s[0] in stops then 0 else 1 + Until(s[1..], stops)
  }

  /** What follows the last `@`, or all of it. */
  function AfterAt(netloc: string): (n: nat)
    ensures n <= |netloc| && '@' !in netloc[n..] && (n > 0 ==> netloc[n - 1] == '@')
  {
    if netloc == "" then 0
    else
      var rest := AfterAt(netloc[1..]);
      if rest > 0 then rest + 1 else if netloc[0] == '@' then 1 else 0
  }

  function HostInfo(netloc: string): string {
    netloc[AfterAt(netloc)..]
  }

  /** A user name or a password that is not empty. */
  predicate HasUserInfo(netloc: string) {
    AfterAt(netloc) > 0 && netloc[..AfterAt(netloc) - 1] !in ["", ":"]
  }

  function LowerChar(c: char): char {
    if 'A' <= c <= 'Z' then 'a' + (c - 'A') else c
  }

  function Lower(s: string): (r: string)
    ensures |r| == |s| && forall i :: 0 <= i < |s| ==> r[i] == LowerChar(s[i])
  {
    if s == "" then "" else [LowerChar(s[0])] + Lower(s[1..])
  }

  function HostOf(netloc: string): string {
    HostInfo(netloc)[..Until(HostInfo(netloc), ":")]
  }

  /**
   Lower case of whole texts: that of ASCII text is ASCII's, and of the ASCII characters
   only letters come out that did not go in, as `k` does for the Kelvin sign.
   */
  type Folding = lower: string -> string | Folds(lower) witness (LowerFolds(); Lower)

  ghost predicate Folds(lower: string -> string) {
    && (forall s: string :: IsAscii(s) ==> lower(s) == Lower(s))
    && (forall s: string, c :: c in lower(s) && c < '\U{80}' && !IsLetter(c) ==> c in s)
  }

  lemma LowerFolds()
    ensures Folds(Lower)
  {
    hide Lower;
    forall s: string, c | c in Lower(s) && c < '\U{80}' && !IsLetter(c) ensures c in s {
      var i :| 0 <= i < |Lower(s)| && Lower(s)[i] == c;
      assert s[i] == c;
    }
  }

  /** What Python's text functions do: lower case, and `unquote` with decoding errors replaced. */
  datatype Unicode = Unicode(lower: Folding, lenient: string -> string)

  /** `hostname`, in lower case up to a percent sign. */
  function HostName(lower: Folding, netloc: string): string {
    var host := HostOf(netloc);
    var n := Until(host, "%");
    lower(host[..n]) + host[n..]
  }

  /** The port is left out, or it is the default one of the scheme. */
  predicate DefaultPort(netloc: string) {
    var info := HostInfo(netloc);
    var n := Until(info, ":");
    n == |info| || info[n + 1..] == "" || (AllDigits(info[n + 1..]) && Number(info[n + 1..]) == 443)
  }

  /** `_allowed_parts` and `target_allowed`. */
  predicate Allowed(parts: Parts, uni: Unicode) {
    var name := HostName(uni.lower, parts.netloc);
    var host := uni.lower(name);
    var decoded := if uni.lenient(parts.path) == "" then "/" else uni.lenient(parts.path);
    && parts.scheme == "https" && name != "" && !HasUserInfo(parts.netloc) && IsAscii(name) && DefaultPort(parts.netloc)
    && Starts(decoded, "/") && PathIsClean(parts.path)
    && SomeRuleAllows(host, decoded)
  }

  // ----- taking a URL apart -----------------------------------------------------------------

  function SkipLeading(s: string): string {
    if s != "" && s[0] <= ' ' then SkipLeading(s[1..]) else s
  }

  function Remove(s: string, gone: string): (r: string)
    ensures forall i :: 0 <= i < |r| ==> r[i] !in gone && r[i] in s
  {
    if s == "" then "" else (if s[0] in gone then "" else s[..1]) + Remove(s[1..], gone)
  }

  predicate IsLetter(c: char) {
    'a' <= c <= 'z' || 'A' <= c <= 'Z'
  }

  predicate IsScheme(s: string) {
    s != "" && IsLetter(s[0]) && forall i :: 0 <= i < |s| ==> IsLetter(s[i]) || IsDigit(s[i]) || s[i] in "+-."
  }

  /** What is left of a URL before it is taken apart. */
  function Sanitized(url: string): string {
    Remove(SkipLeading(url), "\t\r\n")
  }

  /** The scheme, if there is one, and what follows it. */
  function SplitScheme(u: string): (string, string) {
    var i := Until(u, ":");
    if i < |u| && IsScheme(u[..i]) then (Lower(u[..i]), u[i + 1..]) else ("", u)
  }

  /** The authority, after two slashes, and what follows it. */
  function SplitNetloc(rest: string): (string, string) {
    if Starts(rest, "//") then
      var n := Until(rest[2..], "/?#");
      (rest[2..][..n], rest[2..][n..])
    else ("", rest)
  }

  /** The path: what precedes a fragment, and in that what precedes a query. */
  function PathOf(tail: string): string {
    var noFragment := tail[..Until(tail, "#")];
    noFragment[..Until(noFragment, "?")]
  }

  /** `urlsplit`, as far as scheme, authority and path go; an authority with brackets is not split. */
  function Split(url: string): Option<Parts> {
    var (scheme, rest) := SplitScheme(Sanitized(url));
    var (netloc, tail) := SplitNetloc(rest);
    if '[' in netloc || ']' in netloc then None else Some(Parts(scheme, netloc, PathOf(tail)))
  }

  /** `canonical_cover_url`. */
  function Canonical(url: string, uni: Unicode): Option<string> {
    var parts := Split(Strip(url, IsSpace));
    if parts.None? || !Allowed(parts.value, uni) then None
    else
      var canonical := "https://" + uni.lower(HostName(uni.lower, parts.value.netloc)) + parts.value.path;
      if |canonical| > MAX_COVER_URL_LENGTH then None else Some(canonical)
  }

  // ----- the canonical form -------------------------------------------------------------------

  /** No character that would end a host or be dropped from a URL. */
  predicate PlainHost(host: string) {
    host != "" && forall i :: 0 <= i < |host| ==> host[i] !in "/?#@:[]\t\r\n"
  }

  /** No character that would end a path or be dropped from a URL. */
  predicate PlainPath(path: string) {
    (path == "" || path[0] == '/') && forall i :: 0 <= i < |path| ==> path[i] !in "?#\t\r\n"
  }

  lemma {:induction false} RemoveNothing(s: string, gone: string)
    requires forall i :: 0 <= i < |s| ==> s[i] !in gone
    ensures Remove(s, gone) == s
  {
    if s != "" {
      RemoveNothing(s[1..], gone);
      assert s[..1] + s[1..] == s;
    }
  }

  lemma {:induction false} UntilThere(a: string, b: string, stops: string)
    requires (forall i :: 0 <= i < |a| ==> a[i] !in stops) && (b == "" || b[0] in stops)
    ensures Until(a + b, stops) == |a|
  {
    if a == "" {
      assert a + b == b;
    } else {
      assert (a + b)[1..] == a[1..] + b;
      UntilThere(a[1..], b, stops);
    }
  }

  lemma {:induction false} NoAt(s: string)
    requires '@' !in s
    ensures AfterAt(s) == 0
  {
  }

  lemma SanitizedUrl(url: string)
    requires url != "" && url[0] > ' ' && forall i :: 0 <= i < |url| ==> url[i] !in "\t\r\n"
    ensures Sanitized(url) == url
  {
    RemoveNothing(url, "\t\r\n");
  }

  lemma SchemeOfHttps(rest: string)
    ensures SplitScheme("https:" + rest) == ("https", rest)
  {
    var u := "https:" + rest;
    assert u == "https" + (":" + rest);
    UntilThere("https", ":" + rest, ":");
    assert u[..5] == "https" && u[6..] == rest;
    assert Lower("https") == "https";
  }

  /** Nothing, or a query without a fragment. */
  predicate IsQuery(q: string) {
    (q == "" || q[0] == '?') && forall i :: 0 <= i < |q| ==> q[i] !in "#\t\r\n"
  }

  lemma NetlocAndPath(host: string, path: string, query: string)
    requires PlainHost(host) && PlainPath(path) && IsQuery(query)
    ensures SplitNetloc("//" + (host + (path + query))) == (host, path + query) && PathOf(path + query) == path
    ensures '[' !in host && ']' !in host
  {
    var tail := path + query;
    UntilThere(host, tail, "/?#");
    assert ("//" + (host + tail))[2..] == host + tail && ("//" + (host + tail))[..2] == "//";
    assert (host + tail)[..|host|] == host && (host + tail)[|host|..] == tail;
    UntilThere(tail, "", "#");
    UntilThere(path, query, "?");
    assert tail + "" == tail && tail[..|tail|] == tail && tail[..|path|] == path;
  }

  lemma PlainUrl(host: string, path: string, query: string)
    requires PlainHost(host) && PlainPath(path) && IsQuery(query)
    ensures var url := "https:" + ("//" + (host + (path + query)));
            url[0] == 'h' && forall i :: 0 <= i < |url| ==> url[i] !in "\t\r\n"
  {
    var tail := path + query;
    var url := "https:" + ("//" + (host + tail));
    forall i | 0 <= i < |url| ensures url[i] !in "\t\r\n" {
      assert url[i] ==
        if i < 6 then "https:"[i] else if i < 8 then "//"[i - 6]
        else if i < 8 + |host| then host[i - 8] else tail[i - 8 - |host|];
    }
  }

  /** What is built from a host and a path comes apart into them again, and a query is left behind. */
  lemma SplitOfCanonical(host: string, path: string, query: string)
    requires PlainHost(host) && PlainPath(path) && IsQuery(query)
    ensures Split("https://" + host + path + query) == Some(Parts("https", host, path))
  {
    hide Sanitized, SplitScheme, SplitNetloc, PathOf, PlainHost, PlainPath, IsQuery;
    var rest := "//" + (host + (path + query));
    assert "https://" + host + path + query == "https:" + rest;
    PlainUrl(host, path, query);
    SanitizedUrl("https:" + rest);
    SchemeOfHttps(rest);
    NetlocAndPath(host, path, query);
  }

  predicate Lacks(s: string, chars: string) {
    forall i :: 0 <= i < |s| ==> s[i] !in chars
  }

  lemma SchemeLeaves(u: string, chars: string)
    requires Lacks(u, chars)
    ensures Lacks(SplitScheme(u).1, chars)
  {
  }

  lemma NetlocLeaves(rest: string)
    requires Lacks(rest, "\t\r\n")
    ensures var (netloc, tail) := SplitNetloc(rest);
            Lacks(netloc, "/?#") && Lacks(netloc, "\t\r\n") && Lacks(tail, "\t\r\n")
            && (netloc == "" || tail == "" || tail[0] in "/?#")
  {
    if Starts(rest, "//") {
      var n := Until(rest[2..], "/?#");
      forall i | 0 <= i < n ensures rest[2..][..n][i] == rest[i + 2] {}
      forall i | 0 <= i < |rest| - 2 - n ensures rest[2..][n..][i] == rest[i + 2 + n] {}
    }
  }

  lemma PathLeaves(tail: string)
    requires Lacks(tail, "\t\r\n") && (tail == "" || tail[0] in "/?#")
    ensures PlainPath(PathOf(tail))
  {
    var noFragment := tail[..Until(tail, "#")];
    var path := PathOf(tail);
    forall i | 0 <= i < |path| ensures path[i] !in "?#\t\r\n" {
      assert path[i] == noFragment[i] == tail[i];
    }
  }

  /** The authority and the path of a URL that was taken apart, if it has an authority. */
  lemma SplitLeaves(url: string)
    requires Split(url).Some? && Split(url).value.netloc != ""
    ensures var p := Split(url).value;
            PlainPath(p.path) && Lacks(p.netloc, "/?#") && Lacks(p.netloc, "\t\r\n") &&
                '[' !in p.netloc && ']' !in p.netloc
  {
    hide Sanitized, SplitScheme, SplitNetloc, PathOf, PlainPath, Lacks;
    assert Lacks(Sanitized(url), "\t\r\n") by { SanitizedLacks(url); }
    SchemeLeaves(Sanitized(url), "\t\r\n");
    var rest := SplitScheme(Sanitized(url)).1;
    NetlocLeaves(rest);
    PathLeaves(SplitNetloc(rest).1);
  }

  lemma SanitizedLacks(url: string)
    ensures Lacks(Sanitized(url), "\t\r\n")
  {
  }

  lemma HostCharacter(netloc: string, c: char)
    requires Lacks(netloc, "/?#") && Lacks(netloc, "\t\r\n") && '[' !in netloc && ']' !in netloc
    requires c in HostOf(netloc)
    ensures c !in "/?#@:[]\t\r\n"
  {
    var i :| 0 <= i < |HostOf(netloc)| && HostOf(netloc)[i] == c;
    assert c == HostInfo(netloc)[i] == netloc[AfterAt(netloc) + i];
    assert c !in "@:" && c !in "/?#" && c !in "\t\r\n" && c != '[' && c != ']';
  }

  lemma NameCharacter(lower: Folding, netloc: string, c: char)
    requires c in HostName(lower, netloc) && c < '\U{80}' && !IsLetter(c)
    ensures c in HostOf(netloc)
  {
    hide HostOf, Until, Lower, IsAscii;
    var n := Until(HostOf(netloc), "%");
    assert c in lower(HostOf(netloc)[..n]) || c in HostOf(netloc)[n..];
  }

  lemma LowerNonletter(c: char)
    ensures LowerChar(c) in "/?#@:[]\t\r\n" ==> LowerChar(c) == c && !IsLetter(c)
  {
  }

  /** A host taken from such an authority, in lower case, is plain. */
  lemma HostIsPlain(lower: Folding, netloc: string)
    requires Lacks(netloc, "/?#") && Lacks(netloc, "\t\r\n") && '[' !in netloc && ']' !in netloc
    requires IsAscii(HostName(lower, netloc)) && HostName(lower, netloc) != ""
    ensures PlainHost(lower(HostName(lower, netloc)))
  {
    var name := HostName(lower, netloc);
    LowerOfAscii(lower, name);
    NotEmpty(name);
    forall i | 0 <= i < |name| ensures LowerChar(name[i]) !in "/?#@:[]\t\r\n" {
      hide *;
      LowerNonletter(name[i]);
      if LowerChar(name[i]) in "/?#@:[]\t\r\n" {
        assert name[i] < '\U{80}' by { AsciiAt(name, i); }
        NameCharacter(lower, netloc, name[i]);
        HostCharacter(netloc, name[i]);
        assert false;
      }
    }
    hide HostName, Lacks, Folds, LowerChar;
  }

  lemma AsciiAt(s: string, i: nat)
    requires IsAscii(s) && i < |s|
    ensures s[i] < '\U{80}'
  {
  }

  /** A plain host is the authority that names it and nothing else. */
  lemma PlainNetloc(host: string)
    requires PlainHost(host)
    ensures HostOf(host) == host && !HasUserInfo(host) && DefaultPort(host)
  {
    assert '@' !in host;
    NoAt(host);
    UntilThere(host, "", ":");
    assert host + "" == host && host[0..] == host;
  }

  lemma LowerCharTwice(c: char)
    ensures LowerChar(LowerChar(c)) == LowerChar(c) && (c < '\U{80}' ==> LowerChar(c) < '\U{80}')
  {
  }

  lemma LowerOfLower(s: string)
    requires IsAscii(s)
    ensures Lower(Lower(s)) == Lower(s) && IsAscii(Lower(s))
  {
    hide Lower, LowerChar;
    forall i | 0 <= i < |s| ensures Lower(s)[i] == LowerChar(s[i]) < '\U{80}' && Lower(Lower(s))[i] == Lower(s)[i] {
      LowerCharTwice(s[i]);
    }
  }

  /** A plain ASCII host in lower case is its own host name. */
  lemma LowerHostName(lower: Folding, host: string)
    requires PlainHost(host) && IsAscii(host) && Lower(host) == host
    ensures HostName(lower, host) == host && lower(host) == host
  {
    PlainNetloc(host);
    hide *;
    LowerPrefix(host, Until(host, "%"));
    LowerOfAscii(lower, host);
    LowerOfAscii(lower, host[..Until(host, "%")]);
    HostNameIs(lower, host, host);
  }

  lemma HostNameIs(lower: Folding, netloc: string, host: string)
    requires HostOf(netloc) == host && lower(host[..Until(host, "%")]) == host[..Until(host, "%")]
    ensures HostName(lower, netloc) == host
  {
    hide HostOf, Until;
    Rejoin(host, Until(host, "%"));
  }

  lemma Rejoin(s: string, n: nat)
    requires n <= |s|
    ensures s[..n] + s[n..] == s
  {
  }

  lemma LowerPrefix(host: string, n: nat)
    requires n <= |host| && IsAscii(host) && Lower(host) == host
    ensures IsAscii(host[..n]) && Lower(host[..n]) == host[..n]
  {
    hide Lower;
    assert forall i :: 0 <= i < n ==> host[..n][i] == LowerChar(host[i]);
  }

  lemma LowerOfAscii(lower: Folding, s: string)
    requires IsAscii(s)
    ensures lower(s) == Lower(s)
  {
    hide Lower;
  }

  /** A canonical form, taken apart. */
  lemma CanonicalParts(url: string, uni: Unicode) returns (host: string, path: string)
    requires Canonical(url, uni).Some?
    ensures Split(Strip(url, IsSpace)).Some? && path == Split(Strip(url, IsSpace)).value.path
    ensures Canonical(url, uni) == Some("https://" + host + path) && PlainHost(host) && PlainPath(path)
    ensures Allowed(Parts("https", host, path), uni) && |"https://" + host + path| <= MAX_COVER_URL_LENGTH
    ensures IsAscii(host) && Lower(host) == host
  {
    hide Split, PathIsClean, RuleAllows, DefaultPort, HasUserInfo, HostOf, HostName;
    hide PlainHost, PlainPath, Lower, IsAscii;
    var parts := Split(Strip(url, IsSpace)).value;
    var name := HostName(uni.lower, parts.netloc);
    host, path := uni.lower(name), parts.path;
    assert parts.netloc != "" by { EmptyNetloc(uni.lower); }
    SplitLeaves(Strip(url, IsSpace));
    HostIsPlain(uni.lower, parts.netloc);
    LowerOfLower(name);
    LowerOfAscii(uni.lower, name);
    PlainNetloc(host);
    LowerHostName(uni.lower, host);
    assert host != "" by { NotEmpty(name); }
  }

  lemma NotEmpty(name: string)
    requires name != ""
    ensures Lower(name) != ""
  {
  }

  lemma EmptyNetloc(lower: Folding)
    ensures HostName(lower, "") == ""
  {
    assert IsAscii("");
  }

  /** The canonical form of a URL that reads, once stripped, as a host, a path and a query. */
  lemma CanonicalOfParts(url: string, host: string, path: string, query: string, uni: Unicode)
    requires PlainHost(host) && PlainPath(path) && IsQuery(query) && IsAscii(host) && Lower(host) == host
    requires Strip(url, IsSpace) == "https://" + host + path + query
    ensures Canonical(url, uni) ==
            if Allowed(Parts("https", host, path), uni) && |"https://" + host + path| <= MAX_COVER_URL_LENGTH
            then Some("https://" + host + path) else None
  {
    hide Split, Allowed, PlainHost, PlainPath, Lower, Strip, HostName, IsQuery, IsAscii;
    SplitOfCanonical(host, path, query);
    LowerHostName(uni.lower, host);
  }

  lemma {:induction false} StripRightAppend(a: string, b: string)
    requires b != "" && !IsSpace(b[0])
    ensures StripRight(b, IsSpace) != "" && StripRight(b, IsSpace)[0] == b[0] &&
            StripRight(a + b, IsSpace) == a + StripRight(b, IsSpace)
  {
    var s := a + b;
    assert s[|s| - 1] == b[|b| - 1];
    if IsSpace(b[|b| - 1]) {
      assert s[..|s| - 1] == a + b[..|b| - 1];
      StripRightAppend(a, b[..|b| - 1]);
    }
  }

  lemma AllowedHostEndsInM(parts: Parts, uni: Unicode)
    requires Allowed(parts, uni)
    ensures var host := uni.lower(HostName(uni.lower, parts.netloc)); host != "" && host[|host| - 1] == 'm'
  {
    hide PathIsClean, DefaultPort, HasUserInfo, HostName, Lower;
    var host := uni.lower(HostName(uni.lower, parts.netloc));
    var decoded := if uni.lenient(parts.path) == "" then "/" else uni.lenient(parts.path);
    var k :| 0 <= k < |COVER_HOST_RULES| && RuleAllows(COVER_HOST_RULES[k], host, decoded);
    var rule := COVER_HOST_RULES[k];
    assert rule.host[|rule.host| - 1] == 'm';
    if host != rule.host {
      var ending := "." + rule.host;
      assert host[|host| - |ending|..][|ending| - 1] == host[|host| - 1];
    }
  }

  lemma StrippedPathIsPlain(path: string)
    requires PlainPath(path) && path != ""
    ensures PlainPath(StripRight(path, IsSpace))
  {
    var r := StripRight(path, IsSpace);
    assert r <= path && forall i :: 0 <= i < |r| ==> r[i] == path[i];
  }

  lemma StripOfHttps(host: string, path: string)
    ensures var url := "https://" + host + path; url != "" && (!IsSpace(url[|url| - 1]) ==> Strip(url, IsSpace) == url)
    ensures path != "" && path[0] == '/' ==>
              Strip("https://" + host + path, IsSpace) == "https://" + host + StripRight(path, IsSpace) &&
                  StripRight(path, IsSpace) != ""
  {
    hide StripLeft, StripRight;
    var url := "https://" + host + path;
    assert url[0] == 'h';
    StripLeftFacts(url, IsSpace);
    if !IsSpace(url[|url| - 1]) {
      NothingStripped(url, IsSpace);
    }
    if path != "" && path[0] == '/' {
      StripRightAppend("https://" + host, path);
    }
  }

  lemma LastCharacter(host: string, path: string)
    requires host != ""
    ensures var u := "https://" + host + path; u[|u| - 1] == if path == "" then host[|host| - 1] else path[|path| - 1]
  {
  }

  /**
   The canonical form of a URL is its own canonical form iff the path of the URL does
   not end in white space, which it can before a query or a fragment.
   */
  lemma CanonicalIsIdempotent(url: string, uni: Unicode)
    requires Canonical(url, uni).Some?
    ensures Split(Strip(url, IsSpace)).Some?
    ensures var u, path := Canonical(url, uni).value, Split(Strip(url, IsSpace)).value.path;
            Canonical(u, uni) == Some(u) <==> path == "" || !IsSpace(path[|path| - 1])
  {
    hide Canonical, Allowed, Strip, StripRight, StripLeft, HostName, Lower, Split, IsAscii;
    var host, path := CanonicalParts(url, uni);
    var u := "https://" + host + path;
    StripOfHttps(host, path);
    LowerHostName(uni.lower, host);
    LastCharacter(host, path);
    AllowedHostEndsInM(Parts("https", host, path), uni);
    if path == "" || !IsSpace(path[|path| - 1]) {
      assert u + "" == u;
      CanonicalOfParts(u, host, path, "", uni);
    } else {
      StrippedPathIsPlain(path);
      StripRightFacts(path, IsSpace);
      assert Strip(u, IsSpace) + "" == Strip(u, IsSpace);
      CanonicalOfParts(u, host, StripRight(path, IsSpace), "", uni);
    }
  }

  lemma PlainSegment(s: string)
    requires '%' !in s && !IsBad(s)
    ensures CleanTo(s, MAX_DECODE_PEELS)
  {
  }

  lemma {:induction false} OneSegment(s: string)
    requires '/' !in s
    ensures Segments(s) == [s] && Segments("/" + s) == ["", s]
  {
    assert ("/" + s)[1..] == s;
    if s != "" {
      OneSegment(s[1..]);
      assert [s[0]] + s[1..] == s;
    }
  }

  predicate IsVisible(c: char) {
    ' ' <= c < '\U{7F}' && c !in "?#/%\\."
  }

  lemma VisibleIsPlain(c: char)
    requires IsVisible(c)
    ensures !IsControl(c) && !IsBidiInvisible(c) && c !in "?#\t\r\n" && c !in "/%\\."
  {
  }

  /** A path of one segment of ordinary characters. */
  lemma ExamplePath(name: string)
    requires name != "" && forall i :: 0 <= i < |name| ==> IsVisible(name[i])
    ensures PlainPath("/" + name) && PathIsClean("/" + name)
  {
    hide IsControl, IsBidiInvisible, IsVisible, CleanTo, IsBad, Segments;
    var path := "/" + name;
    forall i | 0 <= i < |name|
      ensures !IsControl(name[i]) && !IsBidiInvisible(name[i]) && name[i] !in "?#\t\r\n" && name[i] !in "/%\\."
    {
      VisibleIsPlain(name[i]);
    }
    assert forall i :: 0 < i < |path| ==> path[i] == name[i - 1];
    assert !IsControl('/') && !IsBidiInvisible('/') by { SlashIsPlain(); }
    OneSegment(name);
    assert !IsBad(name) && !IsBad("") by { NotBad(name); }
    PlainSegment("");
    PlainSegment(name);
  }

  lemma SlashIsPlain()
    ensures !IsControl('/') && !IsBidiInvisible('/')
  {
  }

  lemma NotBad(name: string)
    requires '.' !in name && '\\' !in name
    ensures !IsBad(name) && !IsBad("")
  {
    assert |name| >= 2 ==> name[..2][0] == name[0] && name[0] in name;
  }

  const EXAMPLE_HOST := "comicvine.com"

  lemma ExampleHost()
    ensures PlainHost(EXAMPLE_HOST) && Lower(EXAMPLE_HOST) == EXAMPLE_HOST && IsAscii(EXAMPLE_HOST)
  {
    hide PlainHost, Lower, IsAscii;
    var host := EXAMPLE_HOST;
    assert host == ['c', 'o', 'm', 'i', 'c', 'v', 'i', 'n', 'e', '.', 'c', 'o', 'm'];
    assert forall i :: 0 <= i < |host| ==> host[i] == '.' || 'a' <= host[i] <= 'z';
    LettersArePlain(host);
  }

  lemma LettersArePlain(host: string)
    requires host != "" && forall i :: 0 <= i < |host| ==> host[i] == '.' || 'a' <= host[i] <= 'z'
    ensures PlainHost(host) && Lower(host) == host && IsAscii(host)
  {
    hide Lower;
    forall i | 0 <= i < |host|
      ensures host[i] !in "/?#@:[]\t\r\n" && LowerChar(host[i]) == host[i] && host[i] < '\U{80}'
    {
      LetterIsPlain(host[i]);
    }
  }

  lemma LetterIsPlain(c: char)
    requires c == '.' || 'a' <= c <= 'z'
    ensures c !in "/?#@:[]\t\r\n" && LowerChar(c) == c && c < '\U{80}'
  {
  }

  lemma PlainPartsAllowed(host: string, path: string, uni: Unicode)
    requires PlainHost(host) && IsAscii(host) && Lower(host) == host && PathIsClean(path)
    requires Starts(path, "/") && uni.lenient(path) == path && SomeRuleAllows(host, path)
    ensures Allowed(Parts("https", host, path), uni)
  {
    hide PathIsClean, DefaultPort, HasUserInfo, HostName, Lower, SomeRuleAllows, IsAscii;
    LowerHostName(uni.lower, host);
    PlainNetloc(host);
    assert host != "" && path != "";
  }

  lemma ExampleAllowed(name: string, uni: Unicode)
    requires name != "" && (forall i :: 0 <= i < |name| ==> IsVisible(name[i])) && uni.lenient("/" + name) == "/" + name
    ensures Allowed(Parts("https", EXAMPLE_HOST, "/" + name), uni)
  {
    hide Allowed, PathIsClean, PlainHost, Lower, IsVisible, IsAscii;
    ExampleHost();
    ExamplePath(name);
    assert ("/" + name)[..1] == "/" && ("/" + name)[..0] == "";
    assert RuleAllows(COVER_HOST_RULES[1], EXAMPLE_HOST, "/" + name);
    PlainPartsAllowed(EXAMPLE_HOST, "/" + name, uni);
  }

  /**
   A path with a trailing space before its query: `https://comicvine.com/a ?b` has a
   canonical form which itself has another one, without the space.
   */
  lemma TrailingSpaceHasTwoForms(uni: Unicode)
    requires uni.lenient("/" + "a ") == "/" + "a " && uni.lenient("/" + "a") == "/" + "a"
    ensures var kept := "https://" + EXAMPLE_HOST + ("/" + "a ");
            Canonical(kept + "?b", uni) == Some(kept) &&
                Canonical(kept, uni) == Some("https://" + EXAMPLE_HOST + ("/" + "a"))
  {
    hide *;
    ExampleHost();
    ExampleNames();
    ExampleAllowed("a ", uni);
    ExampleAllowed("a", uni);
    ExamplePath("a ");
    ExamplePath("a");
    StripExamples("https://" + EXAMPLE_HOST);
    CanonicalOfParts("https://" + EXAMPLE_HOST + ("/" + "a ") + "?b", EXAMPLE_HOST, "/" + "a ", "?b", uni);
    CanonicalOfParts("https://" + EXAMPLE_HOST + ("/" + "a "), EXAMPLE_HOST, "/" + "a", "", uni);
    ShortEnough();
  }

  lemma ShortEnough()
    ensures |"https://" + EXAMPLE_HOST + ("/" + "a ")| <= MAX_COVER_URL_LENGTH
    ensures |"https://" + EXAMPLE_HOST + ("/" + "a")| <= MAX_COVER_URL_LENGTH
  {
  }

  lemma ExampleNames()
    ensures forall i :: 0 <= i < |"a "| ==> IsVisible("a "[i])
    ensures forall i :: 0 <= i < |"a"| ==> IsVisible("a"[i])
    ensures IsQuery("?b") && IsQuery("")
  {
  }

  lemma StripOneSpace(s: string)
    requires s != "" && !IsSpace(s[0]) && !IsSpace(s[|s| - 1])
    ensures Strip(s + " ", IsSpace) == s
  {
    hide StripLeft;
    var t := s + " ";
    StripLeftFacts(t, IsSpace);
    assert t[|t| - 1] == ' ' && t[..|t| - 1] == s;
    StripRightFacts(s, IsSpace);
  }

  lemma StripExamples(front: string)
    requires front != "" && front[0] == 'h'
    ensures Strip(front + ("/" + "a ") + "?b", IsSpace) == front + ("/" + "a ") + "?b"
    ensures Strip(front + ("/" + "a "), IsSpace) == front + ("/" + "a") + ""
  {
    hide Strip;
    var one, other := front + ("/" + "a ") + "?b", front + ("/" + "a") + "";
    assert one[|one| - 1] == 'b' && one[0] == 'h';
    assert other[|other| - 1] == 'a' && other[0] == 'h';
    NothingStripped(one, IsSpace);
    StripOneSpace(other);
    assert front + ("/" + "a ") == other + " ";
  }
}
