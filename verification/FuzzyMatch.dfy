/**
 The fuzzy ranking of the header search (frontend/src/lib/fuzzyMatch.ts), over
 strings without surrogate pairs.
 */
module FuzzyMatch {
  import opened Strings

  // ----- subsequences -----------------------------------------------------------------

  /** An increasing choice of positions of `haystack` that spells `needle`. */
  ghost predicate Embeds(needle: string, haystack: string) {
    exists at: seq<nat> :: Embedding(needle, haystack, at)
  }

  ghost predicate Embedding(needle: string, haystack: string, at: seq<nat>) {
    && |at| == |needle|
    && (forall i, j :: 0 <= i < j < |at| ==> at[i] < at[j])
    && (forall i :: 0 <= i < |at| ==> at[i] < |haystack| && haystack[at[i]] == needle[i])
  }

  /** How much of `needle` a greedy walk over `haystack` has found. */
  function Greedy(needle: string, haystack: string): (cursor: nat)
    ensures cursor <= |needle|
  {
    if haystack == "" then 0
    else
      var before := Greedy(needle, haystack[..|haystack| - 1]);
      if before < |needle| && haystack[|haystack| - 1] == needle[before] then before + 1 else before
  }

  /** The greedy walk finds the longest prefix of `needle` there is to find. */
  lemma {:induction false} GreedyIsLongest(needle: string, haystack: string, n: nat)
    requires n <= |needle|
    ensures Embeds(needle[..n], haystack) <==> n <= Greedy(needle, haystack)
    decreases |haystack|
  {
    if n == 0 {
      assert Embedding(needle[..0], haystack, []);
    } else if haystack == "" {
      NothingInEmpty(needle[..n]);
    } else {
      var init, last := haystack[..|haystack| - 1], haystack[|haystack| - 1];
      GreedyIsLongest(needle, init, n);
      GreedyIsLongest(needle, init, n - 1);
      EmbedsStep(needle[..n], haystack);
      assert needle[..n][..n - 1] == needle[..n - 1];
    }
  }

  lemma NothingInEmpty(needle: string)
    requires needle != ""
    ensures !Embeds(needle, "")
  {
    forall at ensures !Embedding(needle, "", at) {
      if |at| == |needle| {
        assert at[0] >= |""|;
      }
    }
  }

  lemma EmbedsStep(needle: string, haystack: string)
    requires needle != "" && haystack != ""
    ensures var n, h := |needle| - 1, |haystack| - 1;
            Embeds(needle, haystack) <==>
            Embeds(needle, haystack[..h]) || (needle[n] == haystack[h] && Embeds(needle[..n], haystack[..h]))
  {
    var n, h := |needle| - 1, |haystack| - 1;
    if Embeds(needle, haystack) {
      var at :| Embedding(needle, haystack, at);
      if at[n] == h {
        assert Embedding(needle[..n], haystack[..h], at[..n]);
      } else {
        assert Embedding(needle, haystack[..h], at);
      }
    }
    if Embeds(needle, haystack[..h]) {
      var at :| Embedding(needle, haystack[..h], at);
      assert Embedding(needle, haystack, at);
    }
    if needle[n] == haystack[h] && Embeds(needle[..n], haystack[..h]) {
      var at: seq<nat> :| Embedding(needle[..n], haystack[..h], at);
      forall i | 0 <= i < n ensures at[i] < h && haystack[at[i]] == needle[i] {
        assert haystack[..h][at[i]] == needle[..n][i];
      }
      assert Embedding(needle, haystack, at + [h as nat]);
    }
  }

  /** `isSubsequence`. */
  method IsSubsequence(needle: string, haystack: string) returns (r: bool)
    ensures r <==> Embeds(needle, haystack)
    ensures r == Subsequence(needle, haystack)
  {
    var cursor := 0;
    for k := 0 to |haystack|
      invariant cursor == Greedy(needle, haystack[..k])
    {
      assert haystack[..k + 1][..k] == haystack[..k];
      if cursor < |needle| && haystack[k] == needle[cursor] {
        cursor := cursor + 1;
      }
    }
    assert haystack[..|haystack|] == haystack && needle[..|needle|] == needle;
    GreedyIsLongest(needle, haystack, |needle|);
    return cursor == |needle|;
  }

  predicate Subsequence(needle: string, haystack: string) {
    Greedy(needle, haystack) == |needle|
  }

  lemma SubsequenceIsEmbedding(needle: string, haystack: string)
    ensures Subsequence(needle, haystack) <==> Embeds(needle, haystack)
  {
    assert needle[..|needle|] == needle;
    GreedyIsLongest(needle, haystack, |needle|);
  }

  // ----- the regular expression -----------------------------------------------------------

  const SYNTAX := ".*+?^${}()|[]\\"

  /** `escapeRegExp`. */
  function EscapeRegExp(value: string): string {
    if value == "" then ""
    else (if value[0] in SYNTAX then ['\\', value[0]] else [value[0]]) + EscapeRegExp(value[1..])
  }

  /** The characters a pattern stands for, when it has no operator of its own. */
  function Literal(pattern: string): Option<string>
    decreases |pattern|
  {
    if pattern == "" then Some("")
    else if pattern[0] == '\\' then
      if |pattern| >= 2 && pattern[1] in SYNTAX then Prepend(pattern[1], Literal(pattern[2..])) else None
    else if pattern[0] in SYNTAX then None
    else Prepend(pattern[0], Literal(pattern[1..]))
  }

  function Prepend(c: char, rest: Option<string>): Option<string> {
    if rest.None? then None else Some([c] + rest.value)
  }

  /** Escaping leaves no operator in a term, and the pattern stands for the term itself. */
  lemma {:induction false} EscapedTermIsLiteral(value: string)
    ensures Literal(EscapeRegExp(value)) == Some(value)
  {
    if value != "" {
      EscapedTermIsLiteral(value[1..]);
      var tail := EscapeRegExp(value[1..]);
      if value[0] in SYNTAX {
        assert EscapeRegExp(value)[2..] == tail;
      } else {
        assert EscapeRegExp(value)[1..] == tail;
      }
      assert [value[0]] + value[1..] == value;
    }
  }

  /** `canon` is what the flag `i` compares characters by. */
  predicate MatchesAt(canon: char -> char, t: string, c: string, p: nat) {
    p + |t| <= |c| && forall j :: 0 <= j < |t| ==> canon(c[p + j]) == canon(t[j])
  }

  predicate IsAlphanumeric(canon: char -> char, c: char) {
    exists m: char :: ('a' <= m <= 'z' || '0' <= m <= '9') && canon(m) == canon(c)
  }

  /** The term begins at `p`, which is the start or follows a character that is not alphanumeric. */
  predicate BeginsAt(canon: char -> char, t: string, c: string, p: nat) {
    MatchesAt(canon, t, c, p) && (p == 0 || !IsAlphanumeric(canon, c[p - 1]))
  }

  /** `(^|[^a-z0-9])term` finds a match. */
  predicate AtBoundary(canon: char -> char, t: string, c: string) {
    exists p :: 0 <= p <= |c| && BeginsAt(canon, t, c, p)
  }

  /** Character by character the same under the flag. */
  predicate SameUnder(canon: char -> char, a: string, b: string) {
    |a| == |b| && forall j :: 0 <= j < |a| ==> canon(a[j]) == canon(b[j])
  }

  /** Nothing, or text whose last character compares equal to none of a to z and 0 to 9. */
  ghost predicate EndsAWord(canon: char -> char, before: string) {
    before == "" || forall m: char :: 'a' <= m <= 'z' || '0' <= m <= '9' ==> canon(m) != canon(before[|before| - 1])
  }

  /**
   A term is at a boundary iff the text is something that ends a word, or nothing, then text
   equal to the term under the flag, then anything.
   */
  ghost predicate SplitsAtBoundary(canon: char -> char, t: string, c: string) {
    exists before: string, found: string, after: string ::
      c == before + (found + after) && SameUnder(canon, found, t) && EndsAWord(canon, before)
  }

  lemma BoundaryAsWritten(canon: char -> char, t: string, c: string)
    ensures AtBoundary(canon, t, c) <==> SplitsAtBoundary(canon, t, c)
  {
    hide SameUnder, EndsAWord, BeginsAt;
    if AtBoundary(canon, t, c) {
      var p :| 0 <= p <= |c| && BeginsAt(canon, t, c, p);
      BeginsSplits(canon, t, c, p);
      assert c == c[..p] + (c[p..p + |t|] + c[p + |t|..]);
    }
    if SplitsAtBoundary(canon, t, c) {
      var before: string, found: string, after: string :|
        c == before + (found + after) && SameUnder(canon, found, t) && EndsAWord(canon, before);
      SplitBegins(canon, t, before, found, after);
    }
  }

  lemma BeginsSplits(canon: char -> char, t: string, c: string, p: nat)
    requires BeginsAt(canon, t, c, p)
    ensures p + |t| <= |c| && SameUnder(canon, c[p..p + |t|], t) && EndsAWord(canon, c[..p])
  {
  }

  lemma SplitBegins(canon: char -> char, t: string, before: string, found: string, after: string)
    requires SameUnder(canon, found, t) && EndsAWord(canon, before)
    ensures BeginsAt(canon, t, before + (found + after), |before|)
  {
    var c := before + (found + after);
    assert forall j :: 0 <= j < |t| ==> c[|before| + j] == found[j];
    assert before != "" ==> c[|before| - 1] == before[|before| - 1];
  }

  // ----- tiers ----------------------------------------------------------------------------

  datatype Tier = Exact | Prefix | WordBoundary | InOrder

  function Rank(tier: Tier): nat {
    match tier case Exact => 0 case Prefix => 1 case WordBoundary => 2 case InOrder => 3
  }

  /** What the browser's text functions do: trimming, folding, the flag `i`, and the order of titles. */
  datatype Locale = Locale(
    trim: string -> string, normalize: string -> string, canon: char -> char, le: (string, string) -> bool)

  /** `matchTier`. */
  function MatchTier(l: Locale, term: string, candidate: string): Option<Tier> {
    var t, c := l.normalize(term), l.normalize(candidate);
    if t == "" then None
    else if c == t then Some(Exact)
    else if Starts(c, t) then Some(Prefix)
    else if AtBoundary(l.canon, t, c) then Some(WordBoundary)
    else if Subsequence(t, c) then Some(InOrder)
    else None
  }

  lemma PrefixIsAtBoundary(canon: char -> char, t: string, c: string)
    requires Starts(c, t)
    ensures AtBoundary(canon, t, c)
  {
    assert forall j :: 0 <= j < |t| ==> c[j] == c[..|t|][j];
    assert BeginsAt(canon, t, c, 0);
  }

  lemma BoundaryEmbeds(canon: char -> char, t: string, c: string)
    requires AtBoundary(canon, t, c) && forall x, y :: x in t && y in c && canon(x) == canon(y) ==> x == y
    ensures Subsequence(t, c)
  {
    var p :| 0 <= p <= |c| && BeginsAt(canon, t, c, p);
    var at: seq<nat> := seq(|t|, j requires 0 <= j => p + j);
    forall j | 0 <= j < |t| ensures c[at[j]] == t[j] {
      assert canon(c[p + j]) == canon(t[j]);
    }
    assert Embedding(t, c, at);
    SubsequenceIsEmbedding(t, c);
  }

  /** A character that normalizing leaves as it is. */
  predicate IsNormal(l: Locale, c: char) {
    l.normalize([c]) == [c]
  }

  /**
   Normalized text consists of normal characters and single spaces, and stays normalized when
   one of the former takes the place of another; only a space compares equal to a space.
   */
  ghost predicate Normalizes(l: Locale) {
    && (forall s: string, c :: c in l.normalize(s) ==> c == ' ' || IsNormal(l, c))
    && (forall s: string, k: nat, y :: k < |l.normalize(s)| && l.normalize(s)[k] != ' ' && IsNormal(l, y) ==>
          l.normalize(l.normalize(s)[k := y]) == l.normalize(s)[k := y])
    && (forall c :: l.canon(c) == l.canon(' ') ==> c == ' ')
  }

  /** The flag `i` takes two different normal characters for one. */
  predicate Alike(l: Locale, x: char, y: char) {
    x != y && IsNormal(l, x) && IsNormal(l, y) && l.canon(x) == l.canon(y)
  }

  /** The flag `i` takes some character of the normalized term for another. */
  ghost predicate Confuses(l: Locale, term: string) {
    exists x, y :: x in l.normalize(term) && Alike(l, x, y)
  }

  lemma NormalOccurs(l: Locale, term: string, candidate: string)
    requires Normalizes(l) && !Confuses(l, term)
    ensures forall x, y :: x in l.normalize(term) && y in l.normalize(candidate) && l.canon(x) == l.canon(y) ==> x == y
  {
    forall x, y | x in l.normalize(term) && y in l.normalize(candidate) && l.canon(x) == l.canon(y) ensures x == y {
      assert (x == ' ' || IsNormal(l, x)) && (y == ' ' || IsNormal(l, y));
      assert !Alike(l, x, y);
    }
  }

  /** Where the flag does, a word-boundary match is no subsequence match: two such characters show it. */
  lemma ConfusedPair(l: Locale, x: char, y: char)
    requires Alike(l, x, y)
    ensures MatchTier(l, [x], [y]) == Some(WordBoundary) && !Embeds(l.normalize([x]), l.normalize([y]))
  {
    assert BeginsAt(l.canon, [x], [y], 0);
    assert [y][..0] == "" && [y][..1] == [y];
    assert Greedy([x], [y][..0]) == 0;
    SubsequenceIsEmbedding([x], [y]);
  }

  /** The Greek small sigma and its final form are one capital letter, and two small ones. */
  lemma SigmaIsConfused(l: Locale)
    requires IsNormal(l, '\U{3C3}') && IsNormal(l, '\U{3C2}') && l.canon('\U{3C3}') == l.canon('\U{3C2}')
    ensures MatchTier(l, "\U{3C3}", "\U{3C2}") == Some(WordBoundary)
    ensures !Embeds(l.normalize("\U{3C3}"), l.normalize("\U{3C2}"))
  {
    ConfusedPair(l, '\U{3C3}', '\U{3C2}');
  }

  lemma SameLengthEmbeds(a: string, b: string)
    requires |a| == |b|
    ensures Embeds(a, b) <==> a == b
  {
    if a == b {
      assert Embedding(a, b, seq(|a|, i requires 0 <= i => i as nat));
    } else if Embeds(a, b) {
      var at :| Embedding(a, b, at);
      IncreasingIsIdentity(at, |b|);
      assert false;
    }
  }

  lemma {:induction false} IncreasingIsIdentity(at: seq<nat>, n: nat)
    requires |at| == n && forall i, j :: 0 <= i < j < |at| ==> at[i] < at[j]
    requires forall i :: 0 <= i < |at| ==> at[i] < n
    ensures forall i :: 0 <= i < n ==> at[i] == i
  {
    if n > 0 {
      assert forall i :: 0 <= i < n - 1 ==> at[i] < at[n - 1];
      AtLeastIndex(at, n - 1);
      IncreasingIsIdentity(at[..n - 1], n - 1);
      assert forall i :: 0 <= i < n - 1 ==> at[..n - 1][i] == at[i];
    }
  }

  lemma {:induction false} AtLeastIndex(at: seq<nat>, k: nat)
    requires k < |at| && forall i, j :: 0 <= i < j < |at| ==> at[i] < at[j]
    ensures at[k] >= k
  {
    if k > 0 {
      AtLeastIndex(at, k - 1);
    }
  }

  /** One character of a term exchanged for one the flag takes for it: found at the start, but not in order. */
  lemma ConfusedTerm(l: Locale, term: string, k: nat, y: char)
    requires Normalizes(l) && k < |l.normalize(term)| && Alike(l, l.normalize(term)[k], y)
    ensures var candidate := l.normalize(term)[k := y];
            && MatchTier(l, term, candidate) == Some(WordBoundary)
            && !Embeds(l.normalize(term), l.normalize(candidate))
  {
    var t := l.normalize(term);
    var c := t[k := y];
    assert t[k] != ' ' by { assert l.canon(y) == l.canon(t[k]); }
    assert l.normalize(c) == c && c[k] == y;
    assert c != t && c[..|c|] == c;
    assert BeginsAt(l.canon, t, c, 0);
    SameLengthEmbeds(t, c);
  }

  /**
   Every word-boundary match of a term, whatever the candidate, is a subsequence match
   iff the flag `i` takes no character of the normalized term for another.
   */
  lemma BoundariesNestIffNotConfused(l: Locale, term: string)
    requires Normalizes(l)
    ensures (forall candidate :: MatchTier(l, term, candidate) == Some(WordBoundary) ==>
               Embeds(l.normalize(term), l.normalize(candidate)))
            <==> !Confuses(l, term)
  {
    hide Embeds, AtBoundary, Subsequence, IsNormal, Normalizes, Alike;
    if Confuses(l, term) {
      var x, y :| x in l.normalize(term) && Alike(l, x, y);
      var k :| 0 <= k < |l.normalize(term)| && l.normalize(term)[k] == x;
      ConfusedTerm(l, term, k, y);
    } else {
      forall candidate | MatchTier(l, term, candidate) == Some(WordBoundary)
        ensures Embeds(l.normalize(term), l.normalize(candidate))
      {
        NormalOccurs(l, term, candidate);
        BoundaryEmbeds(l.canon, l.normalize(term), l.normalize(candidate));
        SubsequenceIsEmbedding(l.normalize(term), l.normalize(candidate));
      }
    }
  }

  /**
   The tiers are nested, so each names the strictest way a term is found: exact and
   prefix matches would also match at a boundary. A candidate matches iff the term is
   at a boundary of it or embedded in it; for a term none of whose characters the flag
   `i` takes for another, iff it is embedded.
   */
  lemma TiersAreNested(l: Locale, term: string, candidate: string)
    ensures var t, c := l.normalize(term), l.normalize(candidate);
            var tier := MatchTier(l, term, candidate);
            && (tier == Some(Exact) <==> t != "" && c == t)
            && (tier.Some? && Rank(tier.value) <= 1 <==> t != "" && Starts(c, t))
            && (tier.Some? && Rank(tier.value) <= 2 <==> t != "" && AtBoundary(l.canon, t, c))
            && (tier.Some? <==> t != "" && (AtBoundary(l.canon, t, c) || Embeds(t, c)))
            && (Normalizes(l) && !Confuses(l, term) ==> (tier.Some? <==> t != "" && Embeds(t, c)))
  {
    hide Subsequence, Embeds, AtBoundary, Normalizes, Confuses;
    var t, c := l.normalize(term), l.normalize(candidate);
    SubsequenceIsEmbedding(t, c);
    if Starts(c, t) {
      PrefixIsAtBoundary(l.canon, t, c);
    }
    if Normalizes(l) && !Confuses(l, term) && AtBoundary(l.canon, t, c) {
      NormalOccurs(l, term, candidate);
      BoundaryEmbeds(l.canon, t, c);
    }
  }

  // ----- ranking --------------------------------------------------------------------------

  datatype Series = Series(title: string, aliases: seq<string>, sortTitle: string)

  datatype Match = Match(series: Series, tier: Tier)

  function Names(s: Series): seq<string> {
    [s.title] + s.aliases
  }

  predicate Better(a: Option<Tier>, b: Option<Tier>) {
    a.Some? && (b.None? || Rank(a.value) < Rank(b.value))
  }

  /** The best tier of any name, if any name matches. */
  ghost predicate IsBest(l: Locale, term: string, names: seq<string>, best: Option<Tier>) {
    && (best.Some? ==> exists name :: name in names && MatchTier(l, term, name) == best)
    && (forall name :: name in names ==> !Better(MatchTier(l, term, name), best))
  }

  lemma BestIsUnique(l: Locale, term: string, names: seq<string>, a: Option<Tier>, b: Option<Tier>)
    requires IsBest(l, term, names, a) && IsBest(l, term, names, b)
    ensures a == b
  {
  }

  function Best(l: Locale, term: string, names: seq<string>): (best: Option<Tier>)
    ensures IsBest(l, term, names, best)
  {
    if names == [] then None
    else
      var n := |names| - 1;
      var before, tier := Best(l, term, names[..n]), MatchTier(l, term, names[n]);
      assert forall name :: name in names ==> name in names[..n] || name == names[n];
      if Better(tier, before) then tier else before
  }

  /** The inner loop of `matchSeries`, which stops at an exact match. */
  method BestTier(l: Locale, term: string, names: seq<string>) returns (best: Option<Tier>)
    ensures IsBest(l, term, names, best) && best == Best(l, term, names)
  {
    hide MatchTier;
    best := None;
    for k := 0 to |names|
      invariant IsBest(l, term, names[..k], best)
    {
      var tier := MatchTier(l, term, names[k]);
      assert forall name :: name in names[..k + 1] <==> name in names[..k] || name == names[k];
      if Better(tier, best) {
        best := tier;
        if best == Some(Exact) {
          break;
        }
      }
    }
    assert IsBest(l, term, names, best);
    BestIsUnique(l, term, names, best, Best(l, term, names));
  }

  /** The library's matching series, in its own order. */
  function Matches(l: Locale, term: string, series: seq<Series>): seq<Match> {
    if series == [] then []
    else
      var n := |series| - 1;
      var best := Best(l, term, Names(series[n]));
      Matches(l, term, series[..n]) + if best.Some? then [Match(series[n], best.value)] else []
  }

  /** The comparator: a tie of tiers is broken by sort title. */
  predicate Ordered(l: Locale, a: Match, b: Match) {
    Rank(a.tier) < Rank(b.tier) || (a.tier == b.tier && l.le(a.series.sortTitle, b.series.sortTitle))
  }

  ghost predicate TotalPreorder(le: (string, string) -> bool) {
    (forall a, b :: le(a, b) || le(b, a)) && (forall a, b, c :: le(a, b) && le(b, c) ==> le(a, c))
  }

  function Insert(l: Locale, sorted: seq<Match>, m: Match): seq<Match> {
    if sorted == [] || Ordered(l, sorted[|sorted| - 1], m) then sorted + [m]
    else Insert(l, sorted[..|sorted| - 1], m) + [sorted[|sorted| - 1]]
  }

  /** The array sort of the language, which is stable. */
  function StableSort(l: Locale, ms: seq<Match>): seq<Match> {
    if ms == [] then [] else Insert(l, StableSort(l, ms[..|ms| - 1]), ms[|ms| - 1])
  }

  /** `matchSeries`. */
  method MatchSeries(l: Locale, term: string, series: seq<Series>) returns (matches: seq<Match>)
    ensures matches == if l.trim(term) == "" then [] else StableSort(l, Matches(l, l.trim(term), series))
  {
    var trimmed := l.trim(term);
    if trimmed == "" {
      return [];
    }
    matches := [];
    for k := 0 to |series|
      invariant matches == Matches(l, trimmed, series[..k])
    {
      assert series[..k + 1][..k] == series[..k];
      var best := BestTier(l, trimmed, Names(series[k]));
      if best.Some? {
        matches := matches + [Match(series[k], best.value)];
      }
    }
    assert series[..|series|] == series;
    matches := StableSort(l, matches);
  }

  // ----- what the search shows -------------------------------------------------------------

  predicate Sorted(l: Locale, ms: seq<Match>) {
    forall i, j :: 0 <= i < j < |ms| ==> Ordered(l, ms[i], ms[j])
  }

  predicate Tied(l: Locale, a: Match, b: Match) {
    Ordered(l, a, b) && Ordered(l, b, a)
  }

  /** The matches tied with `m`, in the order of the list. */
  function TiedWith(l: Locale, m: Match, ms: seq<Match>): seq<Match> {
    if ms == [] then []
    else TiedWith(l, m, ms[..|ms| - 1]) + if Tied(l, ms[|ms| - 1], m) then [ms[|ms| - 1]] else []
  }

  /** Sorted, with every group of ties as it stood before. */
  ghost predicate IsStableSort(l: Locale, before: seq<Match>, after: seq<Match>) {
    Sorted(l, after) && forall m :: TiedWith(l, m, after) == TiedWith(l, m, before)
  }

  lemma OrderedFacts(l: Locale, a: Match, b: Match, c: Match)
    requires TotalPreorder(l.le)
    ensures Ordered(l, a, b) || Ordered(l, b, a)
    ensures Ordered(l, a, b) && Ordered(l, b, c) ==> Ordered(l, a, c)
  {
  }

  lemma TiedStep(l: Locale, m: Match, ms: seq<Match>, x: Match)
    ensures TiedWith(l, m, ms + [x]) == TiedWith(l, m, ms) + if Tied(l, x, m) then [x] else []
  {
    assert (ms + [x])[..|ms|] == ms;
  }

  lemma {:induction false} InsertKeepsTies(l: Locale, sorted: seq<Match>, x: Match, m: Match)
    requires TotalPreorder(l.le)
    ensures TiedWith(l, m, Insert(l, sorted, x)) == TiedWith(l, m, sorted + [x])
    ensures multiset(Insert(l, sorted, x)) == multiset(sorted + [x])
  {
    hide Ordered, TotalPreorder;
    if sorted != [] && !Ordered(l, sorted[|sorted| - 1], x) {
      var init, y := sorted[..|sorted| - 1], sorted[|sorted| - 1];
      InsertKeepsTies(l, init, x, m);
      TiedStep(l, m, Insert(l, init, x), y);
      TiedStep(l, m, init, x);
      TiedStep(l, m, init, y);
      TiedStep(l, m, sorted, x);
      assert sorted == init + [y];
      OrderedFacts(l, y, m, x);
    }
  }

  lemma SameElement(a: seq<Match>, b: seq<Match>, i: nat)
    requires i < |a| && multiset(a) == multiset(b)
    ensures a[i] in b
  {
    assert a[i] in multiset(a);
  }

  lemma SortedAppend(l: Locale, ms: seq<Match>, x: Match)
    requires Sorted(l, ms) && forall i :: 0 <= i < |ms| ==> Ordered(l, ms[i], x)
    ensures Sorted(l, ms + [x])
  {
    hide Ordered;
  }

  lemma {:induction false} InsertKeepsSorted(l: Locale, sorted: seq<Match>, x: Match)
    requires TotalPreorder(l.le) && Sorted(l, sorted)
    ensures Sorted(l, Insert(l, sorted, x))
  {
    hide Ordered, TotalPreorder, Tied, TiedWith;
    if sorted != [] {
      var init, y := sorted[..|sorted| - 1], sorted[|sorted| - 1];
      if Ordered(l, y, x) {
        forall i | 0 <= i < |sorted| ensures Ordered(l, sorted[i], x) {
          OrderedFacts(l, sorted[i], y, x);
        }
        SortedAppend(l, sorted, x);
      } else {
        InsertKeepsSorted(l, init, x);
        var inner := Insert(l, init, x);
        InsertKeepsTies(l, init, x, x);
        OrderedFacts(l, y, x, x);
        forall i | 0 <= i < |inner| ensures Ordered(l, inner[i], y) {
          SameElement(inner, init + [x], i);
        }
        SortedAppend(l, inner, y);
      }
    }
  }

  lemma {:induction false} SortIsStable(l: Locale, ms: seq<Match>)
    requires TotalPreorder(l.le)
    ensures IsStableSort(l, ms, StableSort(l, ms))
    ensures multiset(StableSort(l, ms)) == multiset(ms)
  {
    hide TotalPreorder, Ordered, Tied, Insert;
    if ms != [] {
      var init, x := ms[..|ms| - 1], ms[|ms| - 1];
      SortIsStable(l, init);
      InsertKeepsSorted(l, StableSort(l, init), x);
      assert ms == init + [x];
      forall m ensures TiedWith(l, m, StableSort(l, ms)) == TiedWith(l, m, ms) {
        InsertKeepsTies(l, StableSort(l, init), x, m);
        TiedStep(l, m, StableSort(l, init), x);
      }
      InsertKeepsTies(l, StableSort(l, init), x, x);
    }
  }

  lemma {:induction false} TiedAreThere(l: Locale, m: Match, ms: seq<Match>)
    ensures forall x :: x in TiedWith(l, m, ms) <==> x in ms && Tied(l, x, m)
  {
    hide Tied;
    if ms != [] {
      TiedAreThere(l, m, ms[..|ms| - 1]);
      assert ms == ms[..|ms| - 1] + [ms[|ms| - 1]];
    }
  }

  /** Sorting stably has one outcome. */
  lemma {:induction false} StableSortIsUnique(l: Locale, a: seq<Match>, b: seq<Match>)
    requires TotalPreorder(l.le) && Sorted(l, a) && Sorted(l, b)
    requires forall m :: TiedWith(l, m, a) == TiedWith(l, m, b)
    ensures a == b
  {
    hide Ordered, TotalPreorder;
    SameMembers(l, a, b);
    if a != [] && b != [] {
      var c, x := a[..|a| - 1], a[|a| - 1];
      var d, y := b[..|b| - 1], b[|b| - 1];
      assert x in b && y in a;
      OrderedFacts(l, x, x, x);
      OrderedFacts(l, y, y, y);
      assert Tied(l, x, y) && Tied(l, y, x) && Tied(l, x, x);
      assert a == c + [x] && b == d + [y];
      TiedStep(l, x, c, x);
      TiedStep(l, x, d, y);
      LastOfEqual(TiedWith(l, x, c), x, TiedWith(l, x, d), y);
      forall m ensures TiedWith(l, m, c) == TiedWith(l, m, d) {
        TiedStep(l, m, c, x);
        TiedStep(l, m, d, y);
        if Tied(l, x, m) {
          LastOfEqual(TiedWith(l, m, c), x, TiedWith(l, m, d), y);
        } else {
          assert TiedWith(l, m, c) + [] == TiedWith(l, m, c) && TiedWith(l, m, d) + [] == TiedWith(l, m, d);
        }
      }
      StableSortIsUnique(l, c, d);
    }
  }

  lemma LastOfEqual<T>(a: seq<T>, x: T, b: seq<T>, y: T)
    requires a + [x] == b + [y]
    ensures x == y && a == b
  {
    assert (a + [x])[|a|] == x && (b + [y])[|b|] == y;
    assert (a + [x])[..|a|] == a && (b + [y])[..|b|] == b;
  }

  lemma SameMembers(l: Locale, a: seq<Match>, b: seq<Match>)
    requires TotalPreorder(l.le) && forall m :: TiedWith(l, m, a) == TiedWith(l, m, b)
    ensures (a == [] <==> b == []) && forall x :: x in a <==> x in b
  {
    hide Ordered, TotalPreorder;
    assert (a != [] ==> a[0] in a) && (b != [] ==> b[0] in b);
    forall x ensures x in a <==> x in b {
      TiedAreThere(l, x, a);
      TiedAreThere(l, x, b);
      OrderedFacts(l, x, x, x);
    }
  }

  lemma {:induction false} MatchesOnceEach(l: Locale, term: string, series: seq<Series>, s: Series, tier: Tier)
    ensures multiset(Matches(l, term, series))[Match(s, tier)] ==
            if Best(l, term, Names(s)) == Some(tier) then multiset(series)[s] else 0
  {
    hide Best, Names;
    if series != [] {
      var n := |series| - 1;
      MatchesOnceEach(l, term, series[..n], s, tier);
      assert series == series[..n] + [series[n]];
    }
  }

  /** The title or an alias matches under the tier, and neither the title nor an alias under a stricter one. */
  ghost predicate IsShownUnder(l: Locale, term: string, s: Series, tier: Tier) {
    && (MatchTier(l, term, s.title) == Some(tier) || exists a :: a in s.aliases && MatchTier(l, term, a) == Some(tier))
    && !Stricter(MatchTier(l, term, s.title), tier)
    && forall a :: a in s.aliases ==> !Stricter(MatchTier(l, term, a), tier)
  }

  predicate Stricter(found: Option<Tier>, tier: Tier) {
    found.Some? && match tier
      case Exact => false
      case Prefix => found.value == Exact
      case WordBoundary => found.value == Exact || found.value == Prefix
      case InOrder => found.value != InOrder
  }

  lemma StricterIsBetter(found: Option<Tier>, tier: Tier)
    ensures Stricter(found, tier) <==> Better(found, Some(tier))
  {
  }

  lemma NamesAreTitleAndAliases(l: Locale, term: string, s: Series, tier: Tier)
    ensures IsBest(l, term, Names(s), Some(tier)) <==> IsShownUnder(l, term, s, tier)
  {
    hide MatchTier, Better, Stricter;
    forall name: string ensures name in Names(s) <==> name == s.title || name in s.aliases {}
    forall name: string
      ensures Stricter(MatchTier(l, term, name), tier) <==> Better(MatchTier(l, term, name), Some(tier))
    {
      StricterIsBetter(MatchTier(l, term, name), tier);
    }
    if IsBest(l, term, Names(s), Some(tier)) {
      var name :| name in Names(s) && MatchTier(l, term, name) == Some(tier);
      assert name == s.title || name in s.aliases;
    }
    if IsShownUnder(l, term, s, tier) {
      assert s.title in Names(s);
    }
  }

  /** Stricter tiers come first, and within one tier the order of the sort titles holds. */
  predicate InSearchOrder(l: Locale, shown: seq<Match>) {
    forall i, j :: 0 <= i < j < |shown| ==>
      && !Stricter(Some(shown[j].tier), shown[i].tier)
      && (shown[i].tier == shown[j].tier ==> l.le(shown[i].series.sortTitle, shown[j].series.sortTitle))
  }

  lemma ShownInOrder(l: Locale, shown: seq<Match>)
    requires Sorted(l, shown)
    ensures InSearchOrder(l, shown)
  {
    forall i, j | 0 <= i < j < |shown|
      ensures !Stricter(Some(shown[j].tier), shown[i].tier)
      ensures shown[i].tier == shown[j].tier ==> l.le(shown[i].series.sortTitle, shown[j].series.sortTitle)
    {
      assert Ordered(l, shown[i], shown[j]);
    }
  }

  function SeriesOf(ms: seq<Match>): (r: seq<Series>)
    ensures |r| == |ms| && forall i :: 0 <= i < |ms| ==> r[i] == ms[i].series
  {
    seq(|ms|, i requires 0 <= i < |ms| => ms[i].series)
  }

  /** Before sorting, the matches are in the order of the library. */
  lemma {:induction false} MatchesInLibraryOrder(l: Locale, term: string, series: seq<Series>) returns (at: seq<nat>)
    ensures Picks(series, at, SeriesOf(Matches(l, term, series)))
  {
    hide Best, Names, Picks;
    if series == [] {
      at := [];
      NothingPicked();
      assert SeriesOf(Matches(l, term, series)) == [];
    } else {
      var n := |series| - 1;
      var init, x := series[..n], series[n];
      at := MatchesInLibraryOrder(l, term, init);
      assert series == init + [x];
      PicksLater(init, x, at, SeriesOf(Matches(l, term, init)));
      if Best(l, term, Names(x)).Some? {
        at := at + [n];
        assert SeriesOf(Matches(l, term, series)) == SeriesOf(Matches(l, term, init)) + [x];
      } else {
        assert SeriesOf(Matches(l, term, series)) == SeriesOf(Matches(l, term, init));
      }
    }
  }

  lemma NothingPicked()
    ensures Picks<Series>([], [], [])
  {
  }

  /**
   The search shows each series as often as the library holds it, iff its title or an
   alias matches, under the strictest tier any of them matches under; stricter tiers
   come first and equal ones in the order of the sort titles; and what is tied keeps
   its order.
   */
  lemma SearchShowsEachOnce(l: Locale, term: string, series: seq<Series>, s: Series, tier: Tier)
    requires TotalPreorder(l.le)
    ensures var shown := StableSort(l, Matches(l, term, series));
            && IsStableSort(l, Matches(l, term, series), shown)
            && multiset(shown)[Match(s, tier)] ==
               (if IsShownUnder(l, term, s, tier) then multiset(series)[s] else 0)
            && InSearchOrder(l, shown)
  {
    hide Best, IsBest, Names, IsShownUnder;
    SortIsStable(l, Matches(l, term, series));
    MatchesOnceEach(l, term, series, s, tier);
    assert IsBest(l, term, Names(s), Best(l, term, Names(s)));
    NamesAreTitleAndAliases(l, term, s, tier);
    if IsBest(l, term, Names(s), Some(tier)) {
      BestIsUnique(l, term, Names(s), Some(tier), Best(l, term, Names(s)));
    }
    ShownInOrder(l, StableSort(l, Matches(l, term, series)));
    hide StableSort, Matches, TiedWith, Ordered, Stricter, Sorted;
  }
}
