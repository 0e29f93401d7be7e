/**
 Cleaning the list of non-comic publishers (backend/src/foragerr/config.py): the
 first spelling of every rule is kept, and cleaning a clean list changes nothing.
 */
module PublisherList {
  import opened Strings

  const MAX_NON_COMIC_PUBLISHERS := 1000
  const MAX_NON_COMIC_PUBLISHER_LENGTH := 200

  /** The shared folding of names, and Python's case folding for what it folds to nothing. */
  datatype Folding = Folding(matchingKey: string -> string, casefold: string -> string)

  /** Two entries are one rule when they fold alike and both, or neither, end in a star. */
  datatype Rule = Rule(fold: string, star: bool)

  function RuleOf(f: Folding, entry: string): Rule {
    Rule(if f.matchingKey(entry) != "" then f.matchingKey(entry) else f.casefold(entry), Ends(entry, "*"))
  }

  predicate Starred(entry: string) {
    entry != "" && entry[|entry| - 1] == '*'
  }

  /** Both or neither carry a star, and they fold alike; what the shared folding leaves nothing of is casefolded. */
  predicate SameRule(f: Folding, a: string, b: string) {
    && (Starred(a) <==> Starred(b))
    && (if f.matchingKey(a) == "" then f.casefold(a) else f.matchingKey(a)) ==
       (if f.matchingKey(b) == "" then f.casefold(b) else f.matchingKey(b))
  }

  lemma RuleIffSame(f: Folding, a: string, b: string)
    ensures RuleOf(f, a) == RuleOf(f, b) <==> SameRule(f, a, b)
  {
    StarIsAtTheEnd(a);
    StarIsAtTheEnd(b);
  }

  lemma StarIsAtTheEnd(entry: string)
    ensures Ends(entry, "*") <==> Starred(entry)
  {
    if entry != "" {
      assert entry[|entry| - 1..] == [entry[|entry| - 1]];
    }
  }

  datatype Cleaned = TooLong(entry: string) | TooMany(count: nat) | List(text: string)

  // ----- splitting and joining ---------------------------------------------------------

  /** `value.split(",")`. */
  function Split(value: string): (pieces: seq<string>)
    ensures pieces != []
  {
    if value == "" then [""]
    else
      var rest := Split(value[1..]);
      if value[0] == ',' then [""] + rest else [[value[0]] + rest[0]] + rest[1..]
  }

  function EntryOf(piece: string): seq<string> {
    if Strip(piece, IsSpace) == "" then [] else [Strip(piece, IsSpace)]
  }

  function Entries(pieces: seq<string>): seq<string> {
    if pieces == [] then [] else Entries(pieces[..|pieces| - 1]) + EntryOf(pieces[|pieces| - 1])
  }

  /** `", ".join(entries)`. */
  function Join(entries: seq<string>): string {
    if entries == [] then "" else if |entries| == 1 then entries[0] else entries[0] + ", " + Join(entries[1..])
  }

  // ----- cleaning -------------------------------------------------------------------------

  function Rules(f: Folding, entries: seq<string>): set<Rule> {
    set e | e in entries :: RuleOf(f, e)
  }

  /** The first entry of every rule. */
  function Kept(f: Folding, entries: seq<string>): seq<string> {
    if entries == [] then []
    else
      var before, last := Kept(f, entries[..|entries| - 1]), entries[|entries| - 1];
      if RuleOf(f, last) in Rules(f, before) then before else before + [last]
  }

  function FirstTooLong(entries: seq<string>): Option<string> {
    if entries == [] then None
    else
      var before, last := FirstTooLong(entries[..|entries| - 1]), entries[|entries| - 1];
      if before.Some? then before else if |last| > MAX_NON_COMIC_PUBLISHER_LENGTH then Some(last) else None
  }

  /** What a list is cleaned to, or why it is refused. */
  function Clean(f: Folding, value: string): Cleaned {
    var entries := Entries(Split(value));
    var tooLong := FirstTooLong(entries);
    var kept := Kept(f, entries);
    if tooLong.Some? then TooLong(tooLong.value)
    else if |kept| > MAX_NON_COMIC_PUBLISHERS then TooMany(|kept|)
    else List(Join(kept))
  }

  /** `_clean_non_comic_publishers`. */
  method CleanNonComicPublishers(f: Folding, value: string) returns (r: Cleaned)
    ensures r == Clean(f, value)
  {
    var pieces := Split(value);
    var seen: set<Rule>, kept: seq<string> := {}, [];
    assert pieces[..0] == [];
    for k := 0 to |pieces|
      invariant FirstTooLong(Entries(pieces[..k])) == None
      invariant kept == Kept(f, Entries(pieces[..k])) && seen == Rules(f, kept)
    {
      hide *;
      EntriesStep(pieces, k);
      var entry := Strip(pieces[k], IsSpace);
      if entry == "" {
        continue;
      }
      EntryStep(f, Entries(pieces[..k]), entry);
      if |entry| > MAX_NON_COMIC_PUBLISHER_LENGTH {
        TooLongStays(pieces, k + 1);
        CleanTooLong(f, value);
        return TooLong(entry);
      }
      var rule := RuleOf(f, entry);
      if rule in seen {
        continue;
      }
      seen := seen + {rule};
      kept := kept + [entry];
    }
    assert pieces[..|pieces|] == pieces;
    if |kept| > MAX_NON_COMIC_PUBLISHERS {
      return TooMany(|kept|);
    }
    return List(Join(kept));
  }

  lemma CleanTooLong(f: Folding, value: string)
    requires FirstTooLong(Entries(Split(value))).Some?
    ensures Clean(f, value) == TooLong(FirstTooLong(Entries(Split(value))).value)
  {
  }

  lemma EntriesStep(pieces: seq<string>, k: nat)
    requires k < |pieces|
    ensures var entry := Strip(pieces[k], IsSpace);
            Entries(pieces[..k + 1]) == Entries(pieces[..k]) + if entry == "" then [] else [entry]
    ensures Strip(pieces[k], IsSpace) == "" ==> Entries(pieces[..k + 1]) == Entries(pieces[..k])
  {
    hide Strip;
    assert pieces[..k + 1][..k] == pieces[..k];
  }

  lemma EntryStep(f: Folding, entries: seq<string>, entry: string)
    ensures var kept := Kept(f, entries);
            && Kept(f, entries + [entry]) == (if RuleOf(f, entry) in Rules(f, kept) then kept else kept + [entry])
            && Rules(f, kept + [entry]) == Rules(f, kept) + {RuleOf(f, entry)}
    ensures FirstTooLong(entries).None? ==>
              FirstTooLong(entries + [entry]) == if |entry| > MAX_NON_COMIC_PUBLISHER_LENGTH then Some(entry) else None
  {
    assert (entries + [entry])[..|entries|] == entries;
  }

  lemma OneMorePiece(pieces: seq<string>)
    requires pieces != [] && FirstTooLong(Entries(pieces[..|pieces| - 1])).Some?
    ensures FirstTooLong(Entries(pieces)) == FirstTooLong(Entries(pieces[..|pieces| - 1]))
  {
    hide Strip;
    var before, more := Entries(pieces[..|pieces| - 1]), EntryOf(pieces[|pieces| - 1]);
    assert more != [] ==> (before + more)[..|before|] == before;
    assert more == [] ==> before + more == before;
  }

  lemma {:induction false} TooLongStays(pieces: seq<string>, k: nat)
    requires k <= |pieces| && FirstTooLong(Entries(pieces[..k])).Some?
    ensures FirstTooLong(Entries(pieces)) == FirstTooLong(Entries(pieces[..k]))
    decreases |pieces|
  {
    hide *;
    if k < |pieces| {
      assert pieces[..|pieces| - 1][..k] == pieces[..k];
      TooLongStays(pieces[..|pieces| - 1], k);
      OneMorePiece(pieces);
    } else {
      assert pieces[..k] == pieces;
    }
  }

  // ----- first of each rule --------------------------------------------------------------

  predicate FirstOfItsRule(f: Folding, entries: seq<string>, i: nat)
    requires i < |entries|
  {
    forall j :: 0 <= j < i ==> !SameRule(f, entries[j], entries[i])
  }

  /** `at` are the positions of the entries that are the first of their rule, in order. */
  ghost predicate Firsts(f: Folding, entries: seq<string>, at: seq<nat>) {
    && (forall i, j :: 0 <= i < j < |at| ==> at[i] < at[j])
    && (forall i :: 0 <= i < |at| ==> at[i] < |entries|)
    && (forall i :: 0 <= i < |entries| ==> (i in at <==> FirstOfItsRule(f, entries, i)))
  }

  lemma FirstIffNew(f: Folding, entries: seq<string>, i: nat)
    requires i < |entries|
    ensures FirstOfItsRule(f, entries, i) <==> RuleOf(f, entries[i]) !in Rules(f, entries[..i])
  {
    hide RuleOf, SameRule;
    var before := entries[..i];
    forall j | 0 <= j < i
      ensures SameRule(f, entries[j], entries[i]) <==> RuleOf(f, entries[j]) == RuleOf(f, entries[i])
    {
      RuleIffSame(f, entries[j], entries[i]);
    }
    assert forall j :: 0 <= j < i ==> before[j] == entries[j] && before[j] in before;
  }

  lemma {:induction false} NoRuleIsLost(f: Folding, entries: seq<string>)
    ensures Rules(f, Kept(f, entries)) == Rules(f, entries)
  {
    hide RuleOf, Rules;
    if entries == [] {
      assert Kept(f, entries) == entries;
    } else {
      var init, last := entries[..|entries| - 1], entries[|entries| - 1];
      NoRuleIsLost(f, init);
      RulesStep(f, init, last);
      RulesStep(f, Kept(f, init), last);
      assert entries == init + [last];
    }
  }

  /** Every entry has one kept that is the same rule; a starred and an unstarred spelling are two rules. */
  lemma EveryEntryIsCovered(f: Folding, entries: seq<string>, e: string) returns (k: string)
    requires e in entries
    ensures k in Kept(f, entries) && SameRule(f, k, e) && (Starred(k) <==> Starred(e))
  {
    hide RuleOf, Kept;
    NoRuleIsLost(f, entries);
    assert RuleOf(f, e) in Rules(f, entries);
    k :| k in Kept(f, entries) && RuleOf(f, k) == RuleOf(f, e);
    RuleIffSame(f, k, e);
  }

  lemma StarredIsAnotherRule(f: Folding, e: string)
    requires !Starred(e)
    ensures Kept(f, [e, e + "*"]) == [e, e + "*"] && Kept(f, [e + "*", e]) == [e + "*", e]
  {
    var starred := e + "*";
    assert starred[|starred| - 1] == '*';
    RuleIffSame(f, e, starred);
    assert !SameRule(f, e, starred);
    hide RuleOf, SameRule;
    TwoRules(f, e, starred);
    TwoRules(f, starred, e);
  }

  lemma TwoRules(f: Folding, a: string, b: string)
    requires RuleOf(f, a) != RuleOf(f, b)
    ensures Kept(f, [a, b]) == [a, b]
  {
    hide RuleOf;
    assert [a, b][..1] == [a] && [a][..0] == [];
    assert Kept(f, [a]) == [a] && Rules(f, [a]) == {RuleOf(f, a)};
  }

  lemma RulesStep(f: Folding, entries: seq<string>, e: string)
    ensures Rules(f, entries + [e]) == Rules(f, entries) + {RuleOf(f, e)}
  {
  }

  /** The positions of the first entries of every rule. */
  function Positions(f: Folding, entries: seq<string>): seq<nat> {
    if entries == [] then []
    else
      var n := |entries| - 1;
      Positions(f, entries[..n]) + if FirstOfItsRule(f, entries, n) then [n] else []
  }

  lemma {:induction false} PositionsAreFirsts(f: Folding, entries: seq<string>)
    ensures Firsts(f, entries, Positions(f, entries))
  {
    hide RuleOf, FirstOfItsRule;
    if entries != [] {
      var n := |entries| - 1;
      PositionsAreFirsts(f, entries[..n]);
      forall i | 0 <= i < n ensures FirstOfItsRule(f, entries, i) == FirstOfItsRule(f, entries[..n], i) {
        SameBefore(f, entries, n, i);
      }
    }
  }

  lemma SameBefore(f: Folding, entries: seq<string>, n: nat, i: nat)
    requires i < n <= |entries|
    ensures FirstOfItsRule(f, entries, i) == FirstOfItsRule(f, entries[..n], i)
  {
    hide SameRule;
  }

  /** What is kept are the first entries of every rule, in the order they came, and nothing else. */
  lemma {:induction false} KeptAreTheFirsts(f: Folding, entries: seq<string>)
    ensures var at := Positions(f, entries);
            && Firsts(f, entries, at) && |Kept(f, entries)| == |at|
            && forall i :: 0 <= i < |at| ==> Kept(f, entries)[i] == entries[at[i]]
  {
    hide RuleOf, Rules, FirstOfItsRule;
    PositionsAreFirsts(f, entries);
    if entries != [] {
      var n := |entries| - 1;
      KeptAreTheFirsts(f, entries[..n]);
      NoRuleIsLost(f, entries[..n]);
      FirstIffNew(f, entries, n);
    }
  }

  // ----- cleaning a clean list ---------------------------------------------------------------

  /** An entry as cleaning leaves it: not empty, nothing to strip, no comma. */
  predicate CleanEntry(e: string) {
    e != "" && Strip(e, IsSpace) == e && ',' !in e
  }

  predicate CleanEntries(es: seq<string>) {
    es == [] || (CleanEntry(es[0]) && CleanEntries(es[1..]))
  }

  lemma {:induction false} SplitAtComma(a: string, b: string)
    requires ',' !in a
    ensures Split(a) == [a] && Split(a + "," + b) == [a] + Split(b)
  {
    if a == "" {
      assert "" + "," + b == "," + b;
      assert ("," + b)[1..] == b;
    } else {
      SplitAtComma(a[1..], b);
      assert [a[0]] + a[1..] == a;
      assert (a + "," + b)[1..] == a[1..] + "," + b;
    }
  }

  lemma {:induction false} EntriesFront(piece: string, pieces: seq<string>)
    ensures Entries([piece] + pieces) == EntryOf(piece) + Entries(pieces)
  {
    hide EntryOf;
    var all := [piece] + pieces;
    if pieces == [] {
      assert all[..0] == [] && all == [piece];
      assert [] + EntryOf(piece) == EntryOf(piece) + [];
    } else {
      var n := |pieces| - 1;
      EntriesFront(piece, pieces[..n]);
      assert all[..|all| - 1] == [piece] + pieces[..n];
    }
  }

  lemma JoinStep(es: seq<string>)
    requires es != []
    ensures Join(es) == if |es| == 1 then es[0] else es[0] + ", " + Join(es[1..])
    ensures CleanEntries(es) ==> CleanEntry(es[0]) && CleanEntries(es[1..])
  {
    hide CleanEntry;
  }

  lemma CommaAndSpace(pad: string, e: string, tail: string)
    ensures pad + (e + ", " + tail) == (pad + e) + "," + (" " + tail)
  {
  }

  lemma {:induction false} JoinReadsBack(es: seq<string>, pad: string)
    requires es != [] && CleanEntries(es) && pad in ["", " "]
    ensures Entries(Split(pad + Join(es))) == es
  {
    hide *;
    JoinStep(es);
    PaddedEntry(es[0], pad);
    var e := pad + es[0];
    if |es| == 1 {
      SplitAtComma(e, "");
      EntriesFront(e, []);
      NoEntries();
      assert [e] + [] == [e];
    } else {
      CommaAndSpace(pad, es[0], Join(es[1..]));
      SplitAtComma(e, " " + Join(es[1..]));
      JoinReadsBack(es[1..], " ");
      EntriesFront(e, Split(" " + Join(es[1..])));
    }
  }

  lemma NoEntries()
    ensures Entries([]) == [] && Entries(Split("")) == []
  {
    assert Split("") == [""];
    assert Strip("", IsSpace) == "";
  }

  lemma PaddedEntry(e: string, pad: string)
    requires CleanEntry(e) && pad in ["", " "]
    ensures EntryOf(pad + e) == [e] && ',' !in pad + e
  {
    if pad == "" {
      assert pad + e == e;
    } else {
      assert (pad + e)[1..] == e;
    }
  }

  lemma {:induction false} StripIsClean(s: string)
    ensures Strip(Strip(s, IsSpace), IsSpace) == Strip(s, IsSpace) && (',' !in s ==> ',' !in Strip(s, IsSpace))
  {
    StripLeftFacts(s, IsSpace);
    StripRightFacts(StripLeft(s, IsSpace), IsSpace);
    StripLeftFacts(Strip(s, IsSpace), IsSpace);
    StripRightFacts(StripLeft(Strip(s, IsSpace), IsSpace), IsSpace);
  }

  lemma {:induction false} SplitHasNoCommas(value: string)
    ensures forall p :: p in Split(value) ==> ',' !in p
  {
    if value != "" {
      SplitHasNoCommas(value[1..]);
      var rest := Split(value[1..]);
      assert rest[0] in rest && forall p :: p in rest[1..] ==> p in rest;
    }
  }

  lemma {:induction false} EntriesAreClean(pieces: seq<string>)
    requires forall p :: p in pieces ==> ',' !in p
    ensures forall e :: e in Entries(pieces) ==> CleanEntry(e)
  {
    hide Strip;
    if pieces != [] {
      EntriesAreClean(pieces[..|pieces| - 1]);
      assert pieces[|pieces| - 1] in pieces;
      StripIsClean(pieces[|pieces| - 1]);
    }
  }

  lemma {:induction false} AllClean(es: seq<string>)
    requires forall e :: e in es ==> CleanEntry(e)
    ensures CleanEntries(es)
  {
    hide CleanEntry;
    if es != [] {
      assert es[0] in es;
      AllClean(es[1..]);
    }
  }

  lemma {:induction false} KeptFacts(f: Folding, entries: seq<string>)
    ensures forall e :: e in Kept(f, entries) ==> e in entries
    ensures Kept(f, Kept(f, entries)) == Kept(f, entries)
    ensures FirstTooLong(entries).None? ==> FirstTooLong(Kept(f, entries)).None?
  {
    hide RuleOf, Rules;
    if entries != [] {
      var init, last := entries[..|entries| - 1], entries[|entries| - 1];
      KeptFacts(f, init);
      EntryStep(f, Kept(f, init), last);
    }
  }

  /** Cleaning what cleaning returned changes nothing. */
  lemma CleaningIsIdempotent(f: Folding, value: string)
    requires Clean(f, value).List?
    ensures Clean(f, Clean(f, value).text) == Clean(f, value)
  {
    hide Split, Entries, CleanEntry, Kept, FirstTooLong, Join;
    var entries := Entries(Split(value));
    var kept := Kept(f, entries);
    SplitHasNoCommas(value);
    EntriesAreClean(Split(value));
    KeptFacts(f, entries);
    AllClean(kept);
    if kept == [] {
      NoEntries();
      assert Join(kept) == "" by { JoinNothing(); }
    } else {
      JoinReadsBack(kept, "");
      assert "" + Join(kept) == Join(kept);
    }
  }

  lemma JoinNothing()
    ensures Join([]) == ""
  {
  }

  // ----- refusals ---------------------------------------------------------------------------

  /** The first entry longer than 200 characters. */
  predicate FirstLong(entries: seq<string>, i: nat) {
    i < |entries| && |entries[i]| > 200 && forall j :: 0 <= j < i ==> |entries[j]| <= 200
  }

  lemma {:induction false} TooLongIsThere(entries: seq<string>)
    ensures FirstTooLong(entries).None? <==> forall j :: 0 <= j < |entries| ==> |entries[j]| <= 200
    ensures FirstTooLong(entries).Some? ==>
              exists i: nat :: FirstLong(entries, i) && FirstTooLong(entries) == Some(entries[i])
  {
    if entries != [] {
      var n := |entries| - 1;
      var init := entries[..n];
      TooLongIsThere(init);
      assert forall j :: 0 <= j < n ==> init[j] == entries[j];
      if FirstTooLong(init).Some? {
        var i: nat :| FirstLong(init, i) && FirstTooLong(init) == Some(init[i]);
        assert FirstLong(entries, i);
      } else if |entries[n]| > 200 {
        assert FirstLong(entries, n);
      }
    }
  }

  /** The entries of a list: what stands between commas, stripped, where that leaves anything. */
  lemma EntriesAtCommas(a: string, b: string)
    requires ',' !in a
    ensures var e := Strip(a, IsSpace);
            && Entries(Split(a)) == (if e == "" then [] else [e])
            && Entries(Split(a + "," + b)) == (if e == "" then [] else [e]) + Entries(Split(b))
  {
    hide Strip, Split, Entries;
    SplitAtComma(a, b);
    EntriesFront(a, []);
    EntriesFront(a, Split(b));
    NoEntries();
    assert [a] + [] == [a];
  }

  /** A list is refused iff an entry is longer than 200 characters or more than 1000 rules are left. */
  lemma WhenListsAreRefused(f: Folding, value: string)
    ensures var entries, r := Entries(Split(value)), Clean(f, value);
            && (r.TooLong? <==> exists i: nat :: FirstLong(entries, i) && r == TooLong(entries[i]))
            && (r.TooMany? <==>
                 (forall j :: 0 <= j < |entries| ==> |entries[j]| <= 200) && |Kept(f, entries)| > 1000)
            && (r.TooMany? ==> r.count == |Kept(f, entries)|)
            && (r.List? ==> r.text == Join(Kept(f, entries)))
  {
    hide Split, Entries, Kept, FirstTooLong;
    TooLongIsThere(Entries(Split(value)));
  }
}
