/**
 Following creators in the query cache (frontend/src/api/hooks.ts): the page walk
 that fills the lists, the optimistic patch of one creator, and its rollback.
 */
module FollowToggle {
  import opened Strings

  datatype Creator = Creator(id: int, followed: bool, name: string)

  /** A volume of a creator's bibliography; it has neither an id nor a flag to follow. */
  datatype Volume = Volume(cvVolumeId: int, title: string)

  /** A count that is not there, or is no number. */
  datatype Count = NoField | NotANumber

  /** What the cache holds under the creators' keys. */
  datatype Entry =
    | CreatorsList(records: seq<Creator>, totalCreators: int, followedCreators: int)
    | Profile(id: int, followed: bool)
    | Bibliography(pending: bool, volumes: seq<Volume>, count: Count)
    | OtherData

  /** `'records' in value`: true of lists of creators, and of bibliographies. */
  predicate HasRecords(e: Entry) {
    e.CreatorsList? || e.Bibliography?
  }

  // ----- the page walk --------------------------------------------------------------

  /** Page size the server is asked for. */
  const MAX_PAGE_SIZE := 200

  datatype Page<T> = Page(records: seq<T>, totalRecords: nat)

  function Flatten<T>(pages: seq<Page<T>>): seq<T> {
    if pages == [] then [] else Flatten(pages[..|pages| - 1]) + pages[|pages| - 1].records
  }

  /** The server's answer for a page number; past the end it is an empty page. */
  function PageAt<T>(pages: seq<Page<T>>, n: nat): Page<T>
    requires n >= 1
  {
    if n <= |pages| then pages[n - 1] else Page([], 0)
  }

  /** Page `n` is neither empty nor does it reach its own total. */
  predicate GoesOn<T(==)>(pages: seq<Page<T>>, n: nat) {
    1 <= n <= |pages| && |Flatten(pages[..n])| < pages[n - 1].totalRecords && pages[n - 1].records != []
  }

  /** The first page, from `n` on, after which the walk does not go on. */
  function LastPage<T(==)>(pages: seq<Page<T>>, n: nat): (last: nat)
    requires 1 <= n <= |pages| + 1
    ensures n <= last <= |pages| + 1 && !GoesOn(pages, last) && forall k :: n <= k < last ==> GoesOn(pages, k)
    decreases |pages| + 1 - n
  {
    if GoesOn(pages, n) then LastPage(pages, n + 1) else n
  }

  /** There is such a page, with rows, and with them there are fewer than it says there are. */
  ghost predicate StaysShort<T>(pages: seq<Page<T>>, n: nat) {
    1 <= n <= |pages| && pages[n - 1].records != [] && |Flatten(pages[..n])| < pages[n - 1].totalRecords
  }

  /** The walk stops at the first page that is empty, is missing, or makes the rows as many as the page's own total. */
  lemma WhereTheWalkStops<T>(pages: seq<Page<T>>)
    ensures var last := LastPage(pages, 1);
            && (forall n :: 1 <= n < last ==> StaysShort(pages, n))
            && (last <= |pages| ==>
                  pages[last - 1].records == [] || |Flatten(pages[..last])| >= pages[last - 1].totalRecords)
  {
    var last := LastPage(pages, 1);
    forall n | 1 <= n < last ensures StaysShort(pages, n) {
      assert GoesOn(pages, n);
    }
  }

  /** `fetchAllPages`: pages in order up to the first that is empty or reaches its own total. */
  method FetchAllPages<T(==)>(pages: seq<Page<T>>) returns (records: seq<T>)
    ensures var last := LastPage(pages, 1);
            records == Flatten(if last <= |pages| then pages[..last] else pages)
  {
    records := [];
    var page := 1;
    while true
      invariant 1 <= page <= |pages| + 1
      invariant records == Flatten(pages[..page - 1])
      invariant LastPage(pages, page) == LastPage(pages, 1)
      decreases |pages| + 1 - page
    {
      var res := PageAt(pages, page);
      records := records + res.records;
      if page <= |pages| {
        assert pages[..page][..page - 1] == pages[..page - 1];
      } else {
        assert pages[..page - 1] == pages;
      }
      if |records| >= res.totalRecords || res.records == [] {
        return;
      }
      page := page + 1;
    }
  }

  /** Against a server whose pages agree on the total, the walk misses nothing. */
  lemma {:induction false} AgreeingPagesAreAllFetched<T>(pages: seq<Page<T>>)
    requires forall n :: 0 <= n < |pages| ==> pages[n].totalRecords == |Flatten(pages)| && pages[n].records != []
    ensures var last := LastPage(pages, 1); Flatten(if last <= |pages| then pages[..last] else pages) == Flatten(pages)
  {
    var last := LastPage(pages, 1);
    if last <= |pages| {
      FlattenGrows(pages, last);
      assert pages[..|pages|] == pages;
    }
  }

  lemma {:induction false} FlattenGrows<T>(pages: seq<Page<T>>, k: nat)
    requires k <= |pages| && forall n :: 0 <= n < |pages| ==> pages[n].records != []
    ensures |Flatten(pages)| >= |Flatten(pages[..k])| + (|pages| - k)
    decreases |pages|
  {
    if k < |pages| {
      var shorter := pages[..|pages| - 1];
      FlattenGrows(shorter, k);
      assert shorter[..k] == pages[..k];
    } else {
      assert pages[..k] == pages;
    }
  }

  predicate Seen(records: seq<Creator>, id: int) {
    exists j :: 0 <= j < |records| && records[j].id == id
  }

  predicate UniqueIds(records: seq<Creator>) {
    forall i, j :: 0 <= i < j < |records| ==> records[i].id != records[j].id
  }

  /** The rows without those whose id came earlier. */
  function Dedup(rows: seq<Creator>): (r: seq<Creator>)
    ensures UniqueIds(r)
    ensures forall id :: Seen(r, id) <==> Seen(rows, id)
  {
    if rows == [] then []
    else
      var row := rows[|rows| - 1];
      var before := Dedup(rows[..|rows| - 1]);
      SeenLast(rows);
      SeenLast(before + [row]);
      assert (before + [row])[..|before|] == before;
      if Seen(before, row.id) then before else before + [row]
  }

  lemma SeenLast(rows: seq<Creator>)
    requires rows != []
    ensures forall id :: Seen(rows, id) <==> Seen(rows[..|rows| - 1], id) || rows[|rows| - 1].id == id
  {
    forall id ensures Seen(rows, id) <==> Seen(rows[..|rows| - 1], id) || rows[|rows| - 1].id == id {
      if Seen(rows, id) && rows[|rows| - 1].id != id {
        var j :| 0 <= j < |rows| && rows[j].id == id;
        assert rows[..|rows| - 1][j].id == id;
      }
      if Seen(rows[..|rows| - 1], id) {
        var j :| 0 <= j < |rows| - 1 && rows[..|rows| - 1][j].id == id;
        assert rows[j].id == id;
      }
      if rows[|rows| - 1].id == id {
        assert Seen(rows, id);
      }
    }
  }

  lemma DedupStep(rows: seq<Creator>, row: Creator)
    ensures var before := Dedup(rows); Dedup(rows + [row]) == if Seen(before, row.id) then before else before + [row]
    ensures forall id :: Seen(Dedup(rows) + [row], id) <==> Seen(Dedup(rows), id) || row.id == id
  {
    hide UniqueIds, Seen;
    assert (rows + [row])[..|rows|] == rows;
    SeenLast(Dedup(rows) + [row]);
    assert (Dedup(rows) + [row])[..|Dedup(rows)|] == Dedup(rows);
  }

  /** The rows kept are the first of their ids, in the order they came. */
  lemma {:induction false} DedupKeepsFirsts(rows: seq<Creator>) returns (at: seq<nat>)
    ensures Picks(rows, at, Dedup(rows))
    ensures forall k: nat :: k < |rows| ==> (k in at <==> FirstOfItsId(rows, k))
  {
    hide UniqueIds, Seen, FirstOfItsId, Picks;
    if rows == [] {
      at := [];
      NothingPicked();
    } else {
      var n := |rows| - 1;
      var init, x := rows[..n], rows[n];
      at := DedupKeepsFirsts(init);
      assert rows == init + [x];
      PicksLater(init, x, at, Dedup(init));
      PicksAreBelow(init, at, Dedup(init));
      forall k: nat | k < n ensures FirstOfItsId(rows, k) <==> FirstOfItsId(init, k) {
        SameFirst(rows, n, k);
      }
      FirstIsNotSeen(rows, n);
      DedupStep(init, x);
      SeenInDedup(init);
      if FirstOfItsId(rows, n) {
        at := at + [n];
      }
    }
  }

  lemma SeenInDedup(rows: seq<Creator>)
    ensures forall id :: Seen(Dedup(rows), id) <==> Seen(rows, id)
  {
  }

  lemma NothingPicked()
    ensures Picks<Creator>([], [], Dedup([]))
  {
  }

  predicate FirstOfItsId(rows: seq<Creator>, k: nat)
    requires k < |rows|
  {
    forall j :: 0 <= j < k ==> rows[j].id != rows[k].id
  }

  lemma SameFirst(rows: seq<Creator>, n: nat, k: nat)
    requires k < n <= |rows|
    ensures FirstOfItsId(rows, k) <==> FirstOfItsId(rows[..n], k)
  {
  }

  lemma FirstIsNotSeen(rows: seq<Creator>, n: nat)
    requires n < |rows|
    ensures FirstOfItsId(rows, n) <==> !Seen(rows[..n], rows[n].id)
  {
    assert forall j :: 0 <= j < n ==> rows[..n][j] == rows[j];
  }

  /** `absorb`: rows of one more page, skipping ids already seen. */
  method Absorb(rows: seq<Creator>, records: seq<Creator>, seenIds: set<int>, ghost walked: seq<Creator>)
    returns (records': seq<Creator>, seenIds': set<int>)
    requires records == Dedup(walked) && forall id :: id in seenIds <==> Seen(records, id)
    ensures records' == Dedup(walked + rows) && forall id :: id in seenIds' <==> Seen(records', id)
  {
    hide *;
    records', seenIds' := records, seenIds;
    assert walked + rows[..0] == walked;
    for k := 0 to |rows|
      invariant records' == Dedup(walked + rows[..k])
      invariant forall id :: id in seenIds' <==> Seen(records', id)
    {
      var row := rows[k];
      DedupStep(walked + rows[..k], row);
      assert walked + rows[..k + 1] == walked + rows[..k] + [row];
      if row.id !in seenIds' {
        seenIds' := seenIds' + {row.id};
        records' := records' + [row];
      }
    }
    assert rows[..|rows|] == rows;
  }

  function CeilDiv(a: nat, b: nat): nat
    requires b > 0
  {
    (a + b - 1) / b
  }

  /** Pages 1 to `n`, as the server answers for them. */
  function Answers(pages: seq<Page<Creator>>, n: nat): (r: seq<Page<Creator>>)
    ensures |r| == n
  {
    if n == 0 then [] else Answers(pages, n - 1) + [PageAt(pages, n)]
  }

  lemma OneMoreAnswer(pages: seq<Page<Creator>>, n: nat)
    ensures Flatten(Answers(pages, n + 1)) == Flatten(Answers(pages, n)) + PageAt(pages, n + 1).records
  {
    var all := Answers(pages, n + 1);
    assert all[..n] == Answers(pages, n) && all[n] == PageAt(pages, n + 1);
  }

  function PagesToWalk(totalRecords: nat): (n: nat)
    ensures n >= 1 && n * MAX_PAGE_SIZE >= totalRecords
    ensures n > 1 ==> (n - 1) * MAX_PAGE_SIZE < totalRecords
  {
    var n := CeilDiv(totalRecords, MAX_PAGE_SIZE);
    if n > 1 then n else 1
  }

  /** The walk of `useCreatorsList`: the first page says how many there are. */
  method WalkCreators(pages: seq<Page<Creator>>, totalCreators: int, followedCreators: int) returns (data: Entry)
    ensures data.CreatorsList? && UniqueIds(data.records)
    ensures data.totalCreators == totalCreators && data.followedCreators == followedCreators
    ensures data.records == Dedup(Flatten(Answers(pages, PagesToWalk(PageAt(pages, 1).totalRecords))))
  {
    hide Flatten, Answers, PageAt, UniqueIds, Seen;
    var first := PageAt(pages, 1);
    var totalPages := PagesToWalk(first.totalRecords);
    NothingSeen(pages);
    OneMoreAnswer(pages, 0);
    var records, seenIds := Absorb(first.records, [], {}, Flatten(Answers(pages, 0)));
    for page := 2 to totalPages + 1
      invariant records == Dedup(Flatten(Answers(pages, page - 1)))
      invariant forall id :: id in seenIds <==> Seen(records, id)
    {
      OneMoreAnswer(pages, page - 1);
      records, seenIds := Absorb(PageAt(pages, page).records, records, seenIds, Flatten(Answers(pages, page - 1)));
    }
    data := CreatorsList(records, totalCreators, followedCreators);
  }

  lemma NothingSeen(pages: seq<Page<Creator>>)
    ensures Flatten(Answers(pages, 0)) == [] && Dedup([]) == [] && forall id :: !Seen([], id)
  {
  }

  // ----- the patch ---------------------------------------------------------------------

  predicate Flips(row: Creator, id: int, followed: bool) {
    row.id == id && row.followed != followed
  }

  /** `records.map`: rows of the creator take the flag. */
  function PatchRecords(records: seq<Creator>, id: int, followed: bool): (r: seq<Creator>)
    ensures |r| == |records|
    ensures forall j :: 0 <= j < |r| ==>
            r[j] == if records[j].id == id then records[j].(followed := followed) else records[j]
  {
    if records == [] then []
    else
      var last := records[|records| - 1];
      PatchRecords(records[..|records| - 1], id, followed)
      + [if !Flips(last, id, followed) then last else last.(followed := followed)]
  }

  function FlipCount(records: seq<Creator>, id: int, followed: bool): nat {
    if records == [] then 0
    else
      var n := |records| - 1;
      FlipCount(records[..n], id, followed) + (if Flips(records[n], id, followed) then 1 else 0)
  }

  function Max0(n: int): int { if n > 0 then n else 0 }

  /**
   `patchListFollow`: the count moves by one however many rows flip, and never below
   zero. No volume of a bibliography has the id; its missing count becomes no number.
   */
  function PatchListFollow(data: Entry, id: int, followed: bool): Entry
    requires HasRecords(data)
  {
    match data
    case CreatorsList(records, _, count) =>
      var delta := if FlipCount(records, id, followed) == 0 then 0 else if followed then 1 else -1;
      data.(records := PatchRecords(records, id, followed), followedCreators := Max0(count + delta))
    case Bibliography(_, _, _) => data.(count := NotANumber)
  }

  function PatchEntry(e: Entry, id: int, followed: bool): Entry {
    if HasRecords(e) then PatchListFollow(e, id, followed)
    else if e.Profile? && e.id == id then e.(followed := followed)
    else e
  }

  function PatchAll(entries: map<string, Entry>, id: int, followed: bool): map<string, Entry> {
    map k | k in entries :: PatchEntry(entries[k], id, followed)
  }

  class QueryCache {
    var entries: map<string, Entry>

    /** `patchCreatorEverywhere`. */
    method PatchCreatorEverywhere(id: int, followed: bool)
      modifies this
      ensures entries == PatchAll(old(entries), id, followed)
    {
      hide PatchEntry;
      var todo := entries.Keys;
      while todo != {}
        invariant todo <= entries.Keys == old(entries).Keys
        invariant forall k :: k in entries ==>
          entries[k] == if k in todo then old(entries)[k] else PatchEntry(old(entries)[k], id, followed)
        decreases |todo|
      {
        var key :| key in todo;
        todo := todo - {key};
        entries := entries[key := PatchEntry(entries[key], id, followed)];
      }
    }

    /** The mutation's optimistic write; what it returns is what an error would put back. */
    method OnMutate(id: int, followed: bool) returns (previousFollowed: bool)
      modifies this
      ensures entries == PatchAll(old(entries), id, followed) && previousFollowed == !followed
    {
      PatchCreatorEverywhere(id, followed);
      previousFollowed := !followed;
    }

    method OnError(id: int, previousFollowed: bool)
      modifies this
      ensures entries == PatchAll(old(entries), id, previousFollowed)
    {
      PatchCreatorEverywhere(id, previousFollowed);
    }
  }

  // ----- the header count ----------------------------------------------------------------

  function FollowedRows(records: seq<Creator>): nat {
    if records == [] then 0
    else FollowedRows(records[..|records| - 1]) + (if records[|records| - 1].followed then 1 else 0)
  }

  /** How far the header count is from the followed rows of the list. */
  function Drift(e: Entry): int
    requires e.CreatorsList?
  {
    e.followedCreators - FollowedRows(e.records)
  }

  lemma {:induction false} FollowedAfterPatch(records: seq<Creator>, id: int, followed: bool)
    ensures FollowedRows(PatchRecords(records, id, followed))
         == FollowedRows(records) + (if followed then 1 else -1) * FlipCount(records, id, followed)
    ensures !followed ==> FlipCount(records, id, followed) <= FollowedRows(records)
  {
    if records != [] {
      var init, patched := records[..|records| - 1], PatchRecords(records, id, followed);
      FollowedAfterPatch(init, id, followed);
      assert patched[..|patched| - 1] == PatchRecords(init, id, followed);
    }
  }

  /** A patch keeps the drift iff at most one row flips and the count need not go below zero. */
  lemma WhenDriftIsKept(e: Entry, id: int, followed: bool)
    requires e.CreatorsList? && e.followedCreators >= 0
    ensures var n := FlipCount(e.records, id, followed);
            Drift(PatchEntry(e, id, followed)) == Drift(e) <==>
            n == 0 || (n == 1 && (followed || e.followedCreators >= 1))
  {
    FollowedAfterPatch(e.records, id, followed);
  }

  lemma {:induction false} UniqueFlips(records: seq<Creator>, id: int, followed: bool)
    requires UniqueIds(records)
    ensures FlipCount(records, id, followed) <= 1
    ensures FlipCount(records, id, followed) == 1 ==> Seen(records, id)
  {
    if records != [] {
      var init := records[..|records| - 1];
      UniqueFlips(init, id, followed);
      SeenLast(records);
    }
  }

  /** A list as the walk makes it, whose count covers its followed rows. */
  predicate Honest(e: Entry) {
    e.CreatorsList? ==> UniqueIds(e.records) && Drift(e) >= 0
  }

  lemma PatchKeepsHonesty(e: Entry, id: int, followed: bool)
    requires Honest(e)
    ensures Honest(PatchEntry(e, id, followed))
    ensures e.CreatorsList? ==> Drift(PatchEntry(e, id, followed)) == Drift(e)
  {
    if e.CreatorsList? {
      UniqueFlips(e.records, id, followed);
      FollowedAfterPatch(e.records, id, followed);
      WhenDriftIsKept(e, id, followed);
      var r := PatchRecords(e.records, id, followed);
      assert forall i :: 0 <= i < |r| ==> r[i].id == e.records[i].id;
    }
  }

  /** Does the entry have a row of the creator, or is it the creator's profile? */
  predicate IsAbout(e: Entry, id: int) {
    (e.CreatorsList? && Seen(e.records, id)) || (e.Profile? && e.id == id)
  }

  lemma {:induction false} NothingFlips(records: seq<Creator>, id: int, followed: bool)
    requires !Seen(records, id)
    ensures FlipCount(records, id, followed) == 0 && PatchRecords(records, id, followed) == records
  {
    if records != [] {
      assert Seen(records, records[|records| - 1].id);
      SeenLast(records);
      NothingFlips(records[..|records| - 1], id, followed);
    }
  }

  /**
   An entry that is not about the creator stays as it was iff it has no records, or
   is a list of creators, whose count is not negative; a bibliography stays as it was
   only when its count was no number before.
   */
  lemma WhatStaysAsItWas(e: Entry, id: int, followed: bool)
    requires !IsAbout(e, id)
    ensures PatchEntry(e, id, followed) == e <==>
            || !HasRecords(e)
            || (e.CreatorsList? && e.followedCreators >= 0)
            || (e.Bibliography? && e.count == NotANumber)
  {
    if e.CreatorsList? {
      NothingFlips(e.records, id, followed);
    }
  }

  // ----- overlapping toggles ----------------------------------------------------------------

  /** One write to the cache: a toggle of a creator, or the rollback of one. */
  datatype Patch = Patch(id: int, followed: bool)

  function RunPatches(e: Entry, patches: seq<Patch>): Entry {
    if patches == [] then e
    else
      var last := patches[|patches| - 1];
      PatchEntry(RunPatches(e, patches[..|patches| - 1]), last.id, last.followed)
  }

  /** The last word on a creator, if anything was said. */
  function LastWord(patches: seq<Patch>, id: int, before: bool): bool {
    if patches == [] then before
    else if patches[|patches| - 1].id == id then patches[|patches| - 1].followed
    else LastWord(patches[..|patches| - 1], id, before)
  }

  /** Two entries that differ at most in flags and counts. */
  predicate SameShape(e: Entry, f: Entry) {
    match e
    case CreatorsList(rs, total, _) =>
      f.CreatorsList? && |f.records| == |rs| && f.totalCreators == total
      && forall j :: 0 <= j < |rs| ==> f.records[j].id == rs[j].id && f.records[j].name == rs[j].name
    case Profile(id, _) => f.Profile? && f.id == id
    case Bibliography(pending, volumes, _) => f.Bibliography? && f.pending == pending && f.volumes == volumes
    case OtherData => f == e
  }

  /**
   After any run of toggles and rollbacks, in any interleaving, every row and
   profile shows the last word on its own creator, every honest list's count has moved
   with its rows, bibliographies have a count that is no number as soon as anything was
   toggled, and nothing else has changed.
   */
  lemma {:induction false} RunShowsLastWords(e: Entry, patches: seq<Patch>)
    ensures var f := RunPatches(e, patches);
            && SameShape(e, f)
            && (e.CreatorsList? ==> forall j :: 0 <= j < |e.records| ==>
                  f.records[j].followed == LastWord(patches, e.records[j].id, e.records[j].followed))
            && (e.Profile? ==> f.followed == LastWord(patches, e.id, e.followed))
            && (e.Bibliography? ==> f.count == if patches == [] then e.count else NotANumber)
            && (Honest(e) ==> Honest(f) && (e.CreatorsList? ==> Drift(f) == Drift(e)))
  {
    if patches != [] {
      var init, last := patches[..|patches| - 1], patches[|patches| - 1];
      RunShowsLastWords(e, init);
      if Honest(e) {
        PatchKeepsHonesty(RunPatches(e, init), last.id, last.followed);
      }
    }
  }

  /** Does the entry show the creator with the given flag, wherever it shows it? */
  predicate Shows(e: Entry, id: int, followed: bool) {
    match e
    case CreatorsList(rs, _, _) => forall j :: 0 <= j < |rs| && rs[j].id == id ==> rs[j].followed == followed
    case Profile(pid, flag) => pid == id ==> flag == followed
    case _ => true
  }

  /** Everything but the counts: the rows and the profile flag of the other creators, and the volumes. */
  predicate AgreesOnOthers(e: Entry, f: Entry, id: int) {
    && SameShape(e, f)
    && (e.CreatorsList? ==> forall j :: 0 <= j < |e.records| && e.records[j].id != id ==> f.records[j] == e.records[j])
    && (e.Profile? && e.id != id ==> f == e)
  }

  lemma {:induction false} LastWordAround(mid: seq<Patch>, id: int, followed: bool, d: int, before: bool)
    requires forall k :: 0 <= k < |mid| ==> mid[k].id != id
    ensures LastWord([Patch(id, followed)] + mid + [Patch(id, !followed)], d, before)
         == if d == id then !followed else LastWord(mid, d, before)
  {
    var all := [Patch(id, followed)] + mid + [Patch(id, !followed)];
    assert all[..|all| - 1] == [Patch(id, followed)] + mid;
    if d != id {
      LastWordAfter(mid, id, followed, d, before);
    }
  }

  lemma {:induction false} LastWordAfter(mid: seq<Patch>, id: int, followed: bool, d: int, before: bool)
    requires d != id
    ensures LastWord([Patch(id, followed)] + mid, d, before) == LastWord(mid, d, before)
  {
    var all := [Patch(id, followed)] + mid;
    if mid == [] {
      assert all[..0] == [];
    } else {
      assert all[..|all| - 1] == [Patch(id, followed)] + mid[..|mid| - 1];
      LastWordAfter(mid[..|mid| - 1], id, followed, d, before);
    }
  }

  /**
   Rolling a toggle back after any toggles of other creators leaves the others as
   those toggles alone would have, and puts the creator back iff the toggle was a
   real flip: everywhere shown, it was not yet at the flag asked for. It does not take
   back the count a bibliography was given.
   */
  lemma RollbackIsScoped(e: Entry, id: int, followed: bool, mid: seq<Patch>)
    requires forall k :: 0 <= k < |mid| ==> mid[k].id != id
    ensures var after := RunPatches(e, [Patch(id, followed)] + mid + [Patch(id, !followed)]);
            && AgreesOnOthers(RunPatches(e, mid), after, id)
            && (Shows(e, id, !followed) <==> AgreesOnCreator(e, after, id))
            && (e.Bibliography? ==> after == e.(count := NotANumber))
  {
    var all := [Patch(id, followed)] + mid + [Patch(id, !followed)];
    RunShowsLastWords(e, all);
    RunShowsLastWords(e, mid);
    forall d, before ensures LastWord(all, d, before) == if d == id then !followed else LastWord(mid, d, before) {
      LastWordAround(mid, id, followed, d, before);
    }
  }

  /** The rows and the profile flag of one creator. */
  predicate AgreesOnCreator(e: Entry, f: Entry, id: int) {
    && SameShape(e, f)
    && (e.CreatorsList? ==> forall j :: 0 <= j < |e.records| && e.records[j].id == id ==> f.records[j] == e.records[j])
    && (e.Profile? && e.id == id ==> f == e)
  }
}
