/** File names from a template, within a byte budget (backend/src/foragerr/naming.py). */
module FileNames {
  import opened Strings
  import opened Naming
  import Utf8

  function ByteLength(s: string): nat {
    |Utf8.Encode(s)|
  }

  // ----- cleaning a rendered body ------------------------------------------------

  predicate Illegal(c: char) {
    c in "<>:\"/\\|?*" || c < ' ' || c == '\U{7f}'
  }

  predicate Legal(s: string) {
    forall i :: 0 <= i < |s| ==> !Illegal(s[i])
  }

  function ReplaceIllegal(s: string): string {
    if s == "" then "" else [if Illegal(s[0]) then ' ' else s[0]] + ReplaceIllegal(s[1..])
  }

  /** Runs of spaces and tabs become one space; `after` says whether one has just been written. */
  function Collapse(s: string, after: bool): string {
    if s == "" then ""
    else if s[0] == ' ' || s[0] == '\t' then (if after then "" else " ") + Collapse(s[1..], true)
    else [s[0]] + Collapse(s[1..], false)
  }

  predicate SpaceOrDot(c: char) {
    c == ' ' || c == '.'
  }

  /** `_render_body`. */
  function RenderBody(t: Tables, template: string, fields: Fields, replaceIllegal: bool): string {
    var body := Rendered(t, fields, template);
    var legal := if replaceIllegal then ReplaceIllegal(body) else body;
    Strip(Strip(Collapse(legal, false), t.space), SpaceOrDot)
  }

  lemma {:induction false} ReplacedIsLegal(s: string)
    ensures Legal(ReplaceIllegal(s))
  {
    if s != "" {
      ReplacedIsLegal(s[1..]);
    }
  }

  lemma {:induction false} CollapsedIsLegal(s: string, after: bool)
    requires Legal(s)
    ensures Legal(Collapse(s, after))
  {
    if s != "" {
      CollapsedIsLegal(s[1..], true);
      CollapsedIsLegal(s[1..], false);
    }
  }

  lemma StrippedIsLegal(s: string, p: char -> bool)
    requires Legal(s)
    ensures Legal(Strip(s, p))
  {
    hide Illegal, StripLeft, StripRight;
    var l := StripLeft(s, p);
    var k :| 0 <= k <= |s| && l == s[k..];
    assert forall i :: 0 <= i < |l| ==> l[i] == s[k + i];
    assert forall i :: 0 <= i < |StripRight(l, p)| ==> StripRight(l, p)[i] == l[i];
  }

  /** With replacement on, no illegal character is left, whatever the template and fields. */
  lemma BodyIsLegal(t: Tables, template: string, fields: Fields)
    ensures Legal(RenderBody(t, template, fields, true))
  {
    hide Rendered, Legal, Strip;
    var s := ReplaceIllegal(Rendered(t, fields, template));
    ReplacedIsLegal(Rendered(t, fields, template));
    CollapsedIsLegal(s, false);
    StrippedIsLegal(Collapse(s, false), t.space);
    StrippedIsLegal(Strip(Collapse(s, false), t.space), SpaceOrDot);
  }

  // ----- the byte budget -----------------------------------------------------------

  /** `_truncate_bytes`. */
  function TruncateBytes(text: string, maxBytes: int): string {
    if maxBytes <= 0 then ""
    else if ByteLength(text) <= maxBytes then text
    else StripRight(Utf8.DecodeIgnoring(Utf8.Encode(text)[..maxBytes]), SpaceOrDot)
  }

  /** Truncation leaves a prefix within the limit, and only spaces and dots could have been added to it. */
  lemma TruncatedFits(text: string, maxBytes: int)
    ensures var r := TruncateBytes(text, maxBytes);
            && r <= text && ByteLength(r) <= (if maxBytes < 0 then 0 else maxBytes)
            && (r == text || r == "" || !SpaceOrDot(r[|r| - 1]))
    ensures Legal(text) ==> Legal(TruncateBytes(text, maxBytes))
  {
    var r := TruncateBytes(text, maxBytes);
    if maxBytes > 0 && ByteLength(text) > maxBytes {
      var k := Utf8.CutDecodesToPrefix(text, maxBytes);
      Utf8.PrefixFits(text[..k], |r|);
      assert text[..k][..|r|] == r;
    } else if maxBytes <= 0 {
      Utf8.NoOctets();
    }
    assert forall i :: 0 <= i < |r| ==> r[i] == text[i];
  }

  lemma {:induction false} StrippedTail(s: string, p: char -> bool) returns (tail: string)
    ensures s == StripRight(s, p) + tail && forall c :: c in tail ==> p(c)
  {
    tail := "";
    if s != "" && p(s[|s| - 1]) {
      var init := s[..|s| - 1];
      tail := StrippedTail(init, p);
      tail := tail + [s[|s| - 1]];
      assert s == init + [s[|s| - 1]];
    } else {
      assert s + "" == s;
    }
  }

  /** It leaves the longest prefix that fits, without the spaces and dots at its end when something was cut. */
  lemma TruncatedIsLongest(text: string, maxBytes: int) returns (k: nat, tail: string)
    requires maxBytes > 0
    ensures k <= |text| && ByteLength(text[..k]) <= maxBytes
    ensures k < |text| ==> ByteLength(text[..k + 1]) > maxBytes
    ensures text[..k] == TruncateBytes(text, maxBytes) + tail && forall c :: c in tail ==> c == ' ' || c == '.'
    ensures k == |text| ==> tail == ""
  {
    if ByteLength(text) <= maxBytes {
      k, tail := |text|, "";
      assert text[..|text|] == text && text + "" == text;
    } else {
      k := Utf8.CutDecodesToPrefix(text, maxBytes);
      tail := StrippedTail(text[..k], SpaceOrDot);
      assert text[..|text|] == text;
    }
  }

  function Title(fields: Fields): string {
    if SeriesTitle in fields then fields[SeriesTitle] else ""
  }

  /** The first `k` characters of the title, without white space at the end. */
  function Trial(t: Tables, fields: Fields, k: nat): string
    requires k <= |Title(fields)|
  {
    StripRight(Title(fields)[..k], t.space)
  }

  predicate FitsAt(t: Tables, fields: Fields, template: string, replaceIllegal: bool, budget: int, k: nat)
    requires k <= |Title(fields)|
  {
    ByteLength(RenderBody(t, template, fields[SeriesTitle := Trial(t, fields, k)], replaceIllegal)) <= budget
  }

  predicate DownwardClosed(t: Tables, fields: Fields, template: string, replaceIllegal: bool, budget: int) {
    forall j: nat, k: nat :: j <= k <= |Title(fields)| && FitsAt(t, fields, template, replaceIllegal, budget, k)
      ==> FitsAt(t, fields, template, replaceIllegal, budget, j)
  }

  /** The position the search ends on: -1, or one that fits. */
  function Search(t: Tables, fields: Fields, template: string, replaceIllegal: bool, budget: int, lo: int, hi: int,
                  at: int): int
    requires 0 <= lo <= hi + 1 <= |Title(fields)| + 1
    decreases hi - lo + 1
  {
    if lo > hi then at
    else
      var mid := (lo + hi) / 2;
      if FitsAt(t, fields, template, replaceIllegal, budget, mid)
      then Search(t, fields, template, replaceIllegal, budget, mid + 1, hi, mid)
      else Search(t, fields, template, replaceIllegal, budget, lo, mid - 1, at)
  }

  /**
   `_shrink_series_title_to_fit`: the binary search ends on a trimmed prefix of
   the title that fits, or on the empty title; and on the longest that fits
   whenever every shorter prefix of one that fits does too.
   */
  method ShrinkTitle(t: Tables, fields: Fields, template: string, replaceIllegal: bool, budget: int)
    returns (best: string)
    ensures var at := Search(t, fields, template, replaceIllegal, budget, 0, |Title(fields)|, -1);
      && -1 <= at <= |Title(fields)|
      && best == (if at < 0 then "" else Trial(t, fields, at))
      && (at >= 0 ==> FitsAt(t, fields, template, replaceIllegal, budget, at))
      && (DownwardClosed(t, fields, template, replaceIllegal, budget) ==>
            forall k :: at < k <= |Title(fields)| ==> !FitsAt(t, fields, template, replaceIllegal, budget, k))
  {
    hide Trial, FitsAt, Title, RenderBody;
    var title := TitleOf(fields);
    var lo, hi := 0, |title|;
    ghost var at := -1;
    best := "";
    while lo <= hi
      invariant 0 <= lo <= hi + 1 <= |title| + 1
      invariant at == lo - 1
      invariant Search(t, fields, template, replaceIllegal, budget, 0, |title|, -1)
             == Search(t, fields, template, replaceIllegal, budget, lo, hi, at)
      invariant best == if at < 0 then "" else Trial(t, fields, at)
      invariant at >= 0 ==> FitsAt(t, fields, template, replaceIllegal, budget, at)
      invariant DownwardClosed(t, fields, template, replaceIllegal, budget) ==>
        forall k :: hi < k <= |title| ==> !FitsAt(t, fields, template, replaceIllegal, budget, k)
      decreases hi - lo
    {
      var mid := (lo + hi) / 2;
      TrialIs(t, fields, mid);
      var trial := StripRight(title[..mid], t.space);
      var body := RenderBody(t, template, fields[SeriesTitle := trial], replaceIllegal);
      FitsIs(t, fields, template, replaceIllegal, budget, mid);
      if ByteLength(body) <= budget {
        best := trial;
        at := mid;
        lo := mid + 1;
      } else {
        hi := mid - 1;
      }
    }
  }

  method TitleOf(fields: Fields) returns (title: string)
    ensures title == Title(fields)
  {
    title := if SeriesTitle in fields then fields[SeriesTitle] else "";
  }

  lemma TrialIs(t: Tables, fields: Fields, k: nat)
    requires k <= |Title(fields)|
    ensures Trial(t, fields, k) == StripRight(Title(fields)[..k], t.space)
  {
  }

  lemma FitsIs(t: Tables, fields: Fields, template: string, replaceIllegal: bool, budget: int, k: nat)
    requires k <= |Title(fields)|
    ensures FitsAt(t, fields, template, replaceIllegal, budget, k) <==>
            ByteLength(RenderBody(t, template, fields[SeriesTitle := Trial(t, fields, k)], replaceIllegal)) <= budget
  {
  }

  function NormalizeExt(ext: Option<string>): string {
    if ext.None? || ext.value == "" then "" else if Starts(ext.value, ".") then ext.value else "." + ext.value
  }

  /** A prefix of the title without white space at its end. */
  predicate ShortTitle(t: Tables, fields: Fields, title: string) {
    title <= Title(fields) && (title == "" || !t.space(title[|title| - 1]))
  }

  /** The title the search ends on. */
  function Shrunk(t: Tables, fields: Fields, template: string, replaceIllegal: bool, budget: int): string {
    var at := Search(t, fields, template, replaceIllegal, budget, 0, |Title(fields)|, -1);
    if 0 <= at <= |Title(fields)| then Trial(t, fields, at) else ""
  }

  /** Is `body` the whole render, the render with the title the search ends on, or a cut of that one? */
  ghost predicate BodyOf(t: Tables, template: string, fields: Fields, replaceIllegal: bool, budget: int, body: string) {
    var full := RenderBody(t, template, fields, replaceIllegal);
    var untitled := RenderBody(t, template, fields[SeriesTitle := ""], replaceIllegal);
    var title := Shrunk(t, fields, template, replaceIllegal, budget);
    var shorter := RenderBody(t, template, fields[SeriesTitle := title], replaceIllegal);
    if ByteLength(full) <= budget then body == full
    else
      && ShortTitle(t, fields, title)
      // Only the title gives way, unless not even an empty one fits.
      && body == if ByteLength(untitled) <= budget then shorter else TruncateBytes(shorter, budget)
  }

  lemma BodyIs(t: Tables, template: string, fields: Fields, replaceIllegal: bool, budget: int, body: string,
               title: string)
    requires ShortTitle(t, fields, title) && title == Shrunk(t, fields, template, replaceIllegal, budget)
    requires ByteLength(RenderBody(t, template, fields, replaceIllegal)) > budget
    requires var shorter := RenderBody(t, template, fields[SeriesTitle := title], replaceIllegal);
             && (ByteLength(RenderBody(t, template, fields[SeriesTitle := ""], replaceIllegal)) <= budget ==>
                  body == shorter)
             && body == TruncateBytes(shorter, budget)
    ensures BodyOf(t, template, fields, replaceIllegal, budget, body)
  {
    hide RenderBody, ShortTitle, TruncateBytes, ByteLength, Shrunk;
  }

  lemma BodyIsFull(t: Tables, template: string, fields: Fields, replaceIllegal: bool, budget: int)
    requires ByteLength(RenderBody(t, template, fields, replaceIllegal)) <= budget
    ensures BodyOf(t, template, fields, replaceIllegal, budget, RenderBody(t, template, fields, replaceIllegal))
  {
  }

  method FitBody(t: Tables, fields: Fields, template: string, budget: int, replaceIllegal: bool) returns (body: string)
    ensures ByteLength(body) <= (if budget < 0 then 0 else budget)
    ensures replaceIllegal ==> Legal(body)
    ensures BodyOf(t, template, fields, replaceIllegal, budget, body)
  {
    hide *;
    body := RenderBody(t, template, fields, replaceIllegal);
    if replaceIllegal { BodyIsLegal(t, template, fields); }
    if ByteLength(body) > budget {
      var best := ShrinkTitle(t, fields, template, replaceIllegal, budget);
      ghost var at := Search(t, fields, template, replaceIllegal, budget, 0, |Title(fields)|, -1);
      BestIsPrefix(t, fields, at, best);
      ShrunkIs(t, fields, template, replaceIllegal, budget);
      body := RenderBody(t, template, fields[SeriesTitle := best], replaceIllegal);
      ghost var shorter := body;
      if at >= 0 { FitsIs(t, fields, template, replaceIllegal, budget, at); }
      if replaceIllegal { BodyIsLegal(t, template, fields[SeriesTitle := best]); }
      FittingIsNotCut(body, budget);
      TruncatedFits(body, budget);
      if ByteLength(body) > budget {
        body := TruncateBytes(body, budget);
      }
      BodyIs(t, template, fields, replaceIllegal, budget, body, best);
    } else {
      BodyIsFull(t, template, fields, replaceIllegal, budget);
    }
  }

  /** What the extension adds: itself, behind a dot unless it begins with one, and nothing when it is missing. */
  lemma ExtensionAsGiven(ext: Option<string>)
    ensures ext.None? || ext.value == "" ==> NormalizeExt(ext) == ""
    ensures ext.Some? && ext.value != "" && ext.value[0] == '.' ==> NormalizeExt(ext) == ext.value
    ensures ext.Some? && ext.value != "" && ext.value[0] != '.' ==> NormalizeExt(ext) == "." + ext.value
  {
    if ext.Some? && ext.value != "" {
      assert ext.value[..1] == [ext.value[0]];
    }
  }

  /** A body within what the limit leaves for it, and the suffix behind it. */
  ghost predicate NamedWith(t: Tables, template: string, fields: Fields, replaceIllegal: bool, maxBytes: int,
                            name: string, suffix: string) {
    && Ends(name, suffix)
    && ByteLength(name) <= (if maxBytes < ByteLength(suffix) then ByteLength(suffix) else maxBytes)
    && var body := name[..|name| - |suffix|];
       && (replaceIllegal ==> Legal(body))
       && BodyOf(t, template, fields, replaceIllegal, maxBytes - ByteLength(suffix), body)
  }

  lemma BodyAndSuffix(t: Tables, template: string, fields: Fields, replaceIllegal: bool, maxBytes: int, body: string,
                      suffix: string)
    requires ByteLength(body) <= (if maxBytes < ByteLength(suffix) then 0 else maxBytes - ByteLength(suffix))
    requires replaceIllegal ==> Legal(body)
    requires BodyOf(t, template, fields, replaceIllegal, maxBytes - ByteLength(suffix), body)
    ensures NamedWith(t, template, fields, replaceIllegal, maxBytes, body + suffix, suffix)
  {
    hide Legal, ByteLength, BodyOf, Ends;
    NameBytes(body, suffix);
  }

  /**
   `render_filename`; None is the error for a disabled engine without an original name.
   The suffix is the extension as given, behind a dot unless it begins with one.
   */
  method RenderFilename(t: Tables, fields: Fields, template: string, ext: Option<string>, enabled: bool,
                        original: Option<string>, maxBytes: int, replaceIllegal: bool)
    returns (name: Option<string>)
    ensures !enabled ==> name == original
    ensures enabled ==> name.Some?
    ensures enabled && (ext.None? || ext.value == "") ==>
              NamedWith(t, template, fields, replaceIllegal, maxBytes, name.value, "")
    ensures enabled && ext.Some? && ext.value != "" && ext.value[0] == '.' ==>
              NamedWith(t, template, fields, replaceIllegal, maxBytes, name.value, ext.value)
    ensures enabled && ext.Some? && ext.value != "" && ext.value[0] != '.' ==>
              NamedWith(t, template, fields, replaceIllegal, maxBytes, name.value, "." + ext.value)
  {
    if !enabled {
      return original;
    }
    hide *;
    var extStr := NormalizeExt(ext);
    ExtensionAsGiven(ext);
    var budget := maxBytes - ByteLength(extStr);
    var body := FitBody(t, fields, template, budget, replaceIllegal);
    name := Some(body + extStr);
    BodyAndSuffix(t, template, fields, replaceIllegal, maxBytes, body, extStr);
  }

  lemma FittingIsNotCut(body: string, budget: int)
    ensures ByteLength(body) <= budget ==> TruncateBytes(body, budget) == body
  {
    if ByteLength(body) <= budget <= 0 {
      NoBytes(body);
    }
  }

  lemma NoBytes(s: string)
    requires ByteLength(s) == 0
    ensures s == ""
  {
  }

  lemma ShrunkIs(t: Tables, fields: Fields, template: string, replaceIllegal: bool, budget: int)
    ensures var at := Search(t, fields, template, replaceIllegal, budget, 0, |Title(fields)|, -1);
            0 <= at <= |Title(fields)| ==> Shrunk(t, fields, template, replaceIllegal, budget) == Trial(t, fields, at)
    ensures Search(t, fields, template, replaceIllegal, budget, 0, |Title(fields)|, -1) < 0 ==>
            Shrunk(t, fields, template, replaceIllegal, budget) == ""
  {
    hide Search, Trial;
  }

  lemma BestIsPrefix(t: Tables, fields: Fields, at: int, best: string)
    requires -1 <= at <= |Title(fields)| && best == if at < 0 then "" else Trial(t, fields, at)
    ensures ShortTitle(t, fields, best)
  {
  }

  lemma NameBytes(body: string, ext: string)
    ensures ByteLength(body + ext) == ByteLength(body) + ByteLength(ext)
    ensures Ends(body + ext, ext) && (body + ext)[..|body + ext| - |ext|] == body
  {
    Utf8.EncodeConcat(body, ext);
  }
}
