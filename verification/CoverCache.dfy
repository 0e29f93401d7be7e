/**
 The bounded cover cache of the proxy (backend/src/foragerr/api/cover_proxy.py): an
 ordered dictionary updated by hits and puts, which requests interleave at will.
 */
module CoverCache {
  import opened Strings

  type Byte = n: int | 0 <= n < 256

  type Bytes = seq<Byte>

  const CACHE_CAPACITY := 64

  // ----- sniffing -------------------------------------------------------------------

  const JPEG: Bytes := [0xFF, 0xD8, 0xFF]
  const PNG: Bytes := [0x89, 0x50, 0x4E, 0x47, 0x0D, 0x0A, 0x1A, 0x0A]
  const GIF87A: Bytes := [0x47, 0x49, 0x46, 0x38, 0x37, 0x61]
  const GIF89A: Bytes := [0x47, 0x49, 0x46, 0x38, 0x39, 0x61]
  const RIFF: Bytes := [0x52, 0x49, 0x46, 0x46]
  const WEBP: Bytes := [0x57, 0x45, 0x42, 0x50]

  const IMAGE_MAGICS: seq<(Bytes, string)> :=
    [(JPEG, "image/jpeg"), (PNG, "image/png"), (GIF87A, "image/gif"), (GIF89A, "image/gif")]

  predicate StartsWith(body: Bytes, magic: Bytes) {
    |magic| <= |body| && body[..|magic|] == magic
  }

  function FirstMagic(body: Bytes, magics: seq<(Bytes, string)>): Option<string> {
    if magics == [] then None
    else if StartsWith(body, magics[0].0) then Some(magics[0].1)
    else FirstMagic(body, magics[1..])
  }

  /** `_sniff_image`. */
  function SniffImage(body: Bytes): Option<string> {
    var magic := FirstMagic(body, IMAGE_MAGICS);
    if magic.Some? then magic
    else if |body| >= 12 && body[..4] == RIFF && body[8..12] == WEBP then Some("image/webp")
    else None
  }

  /** What a body of each type looks like; no body looks like two types. */
  predicate LooksLike(body: Bytes, contentType: string) {
    match contentType
    case "image/jpeg" => StartsWith(body, JPEG)
    case "image/png" => StartsWith(body, PNG)
    case "image/gif" => StartsWith(body, GIF87A) || StartsWith(body, GIF89A)
    case "image/webp" => |body| >= 12 && body[..4] == RIFF && body[8..12] == WEBP
    case _ => false
  }

  lemma FirstByte(body: Bytes, magic: Bytes)
    requires magic != [] && StartsWith(body, magic)
    ensures body[0] == magic[0]
  {
    assert body[..|magic|][0] == body[0];
  }

  /** The order of the magics does not matter: a type is sniffed iff the body looks like it. */
  lemma SniffIsUnambiguous(body: Bytes, contentType: string)
    ensures SniffImage(body) == Some(contentType) <==> LooksLike(body, contentType)
  {
    hide StartsWith;
    forall m | m in [JPEG, PNG, GIF87A, GIF89A] && StartsWith(body, m) ensures body != [] && body[0] == m[0] {
      assert body != [] by { NotEmpty(body, m); }
      FirstByte(body, m);
    }
    if |body| >= 12 && body[..4] == RIFF {
      assert body[..4][0] == body[0];
    }
    FourMagics(body);
  }

  lemma NotEmpty(body: Bytes, magic: Bytes)
    requires magic != [] && StartsWith(body, magic)
    ensures body != []
  {
  }

  lemma FourMagics(body: Bytes)
    ensures FirstMagic(body, IMAGE_MAGICS) ==
            if StartsWith(body, JPEG) then Some("image/jpeg")
            else if StartsWith(body, PNG) then Some("image/png")
            else if StartsWith(body, GIF87A) then Some("image/gif")
            else if StartsWith(body, GIF89A) then Some("image/gif")
            else None
  {
    hide FirstMagic, StartsWith;
    assert IMAGE_MAGICS ==
           [(JPEG, "image/jpeg")] + [(PNG, "image/png"), (GIF87A, "image/gif"), (GIF89A, "image/gif")];
    assert [(PNG, "image/png"), (GIF87A, "image/gif"), (GIF89A, "image/gif")] ==
           [(PNG, "image/png")] + [(GIF87A, "image/gif"), (GIF89A, "image/gif")];
    assert [(GIF87A, "image/gif"), (GIF89A, "image/gif")] == [(GIF87A, "image/gif")] + [(GIF89A, "image/gif")];
    assert [(GIF89A, "image/gif")] == [(GIF89A, "image/gif")] + [];
    FirstMagicStep(body, JPEG, "image/jpeg", [(PNG, "image/png"), (GIF87A, "image/gif"), (GIF89A, "image/gif")]);
    FirstMagicStep(body, PNG, "image/png", [(GIF87A, "image/gif"), (GIF89A, "image/gif")]);
    FirstMagicStep(body, GIF87A, "image/gif", [(GIF89A, "image/gif")]);
    FirstMagicStep(body, GIF89A, "image/gif", []);
  }

  lemma FirstMagicStep(body: Bytes, magic: Bytes, contentType: string, rest: seq<(Bytes, string)>)
    ensures FirstMagic(body, [(magic, contentType)] + rest) ==
            if StartsWith(body, magic) then Some(contentType) else FirstMagic(body, rest)
    ensures FirstMagic(body, []) == None
  {
    assert ([(magic, contentType)] + rest)[1..] == rest;
  }

  // ----- what was touched, and when ------------------------------------------------------

  /** One touch of the cache: a hit, or a put with the body it stored. */
  datatype Step = Hit(key: string) | Put(key: string, body: Bytes)

  /** When a key was last touched; -1 when it never was. */
  function LastTouch(trace: seq<Step>, key: string): (n: int)
    ensures -1 <= n < |trace|
  {
    if trace == [] then -1
    else if trace[|trace| - 1].key == key then |trace| - 1
    else LastTouch(trace[..|trace| - 1], key)
  }

  /** The last body put under a key. */
  function LastBody(trace: seq<Step>, key: string): Option<Bytes> {
    if trace == [] then None
    else
      var last := trace[|trace| - 1];
      if last.Put? && last.key == key then Some(last.body) else LastBody(trace[..|trace| - 1], key)
  }

  predicate InOrder(trace: seq<Step>, keys: seq<string>) {
    forall i, j :: 0 <= i < j < |keys| ==> LastTouch(trace, keys[i]) < LastTouch(trace, keys[j])
  }

  /** A key left out was never touched, or longer ago than every one of a full cache. */
  predicate LeftOut(trace: seq<Step>, keys: seq<string>, key: string) {
    LastTouch(trace, key) == -1
    || (|keys| == CACHE_CAPACITY && forall k :: k in keys ==> LastTouch(trace, key) < LastTouch(trace, k))
  }

  /** The most recently touched keys, up to the capacity, oldest first. */
  ghost predicate MostRecent(trace: seq<Step>, keys: seq<string>) {
    && |keys| <= CACHE_CAPACITY
    && InOrder(trace, keys)
    && (forall k :: k in keys ==> LastTouch(trace, k) >= 0)
    && (forall k :: k in keys || LeftOut(trace, keys, k))
  }

  function Without(keys: seq<string>, key: string): (r: seq<string>)
    ensures forall k :: k in r <==> k in keys && k != key
  {
    if keys == [] then []
    else if keys[0] == key then Without(keys[1..], key)
    else [keys[0]] + Without(keys[1..], key)
  }

  /** The keys left once the oldest are popped down to the capacity. */
  function Newest(keys: seq<string>): (r: seq<string>)
    ensures |r| <= CACHE_CAPACITY && (|keys| >= CACHE_CAPACITY ==> |r| == CACHE_CAPACITY)
  {
    if |keys| > CACHE_CAPACITY then keys[|keys| - CACHE_CAPACITY..] else keys
  }

  lemma LastTouchStep(trace: seq<Step>, s: Step, key: string)
    ensures LastTouch(trace + [s], key) == if s.key == key then |trace| else LastTouch(trace, key)
    ensures LastBody(trace + [s], key) == if s.key == key && s.Put? then Some(s.body) else LastBody(trace, key)
  {
    assert (trace + [s])[..|trace|] == trace;
  }

  lemma {:induction false} WithoutOne(trace: seq<Step>, keys: seq<string>, key: string)
    requires InOrder(trace, keys)
    ensures InOrder(trace, Without(keys, key))
    ensures |Without(keys, key)| == |keys| - if key in keys then 1 else 0
  {
    if keys != [] {
      var rest := keys[1..];
      forall i | 0 <= i < |rest| ensures rest[i] != keys[0] {
        assert LastTouch(trace, keys[0]) < LastTouch(trace, keys[i + 1]);
      }
      assert InOrder(trace, rest);
      WithoutOne(trace, rest, key);
      var r := Without(rest, key);
      if keys[0] != key {
        forall j | 0 <= j < |r| ensures LastTouch(trace, keys[0]) < LastTouch(trace, r[j]) {
          assert r[j] in r;
          var i :| 0 <= i < |rest| && rest[i] == r[j];
          assert LastTouch(trace, keys[0]) < LastTouch(trace, keys[i + 1]);
        }
      }
    }
  }

  predicate Distinct(keys: seq<string>) {
    forall i, j :: 0 <= i < j < |keys| ==> keys[i] != keys[j]
  }

  lemma MovedToEnd(trace: seq<Step>, keys: seq<string>, s: Step)
    requires InOrder(trace, keys)
    ensures InOrder(trace + [s], Without(keys, s.key) + [s.key])
    ensures Distinct(Without(keys, s.key) + [s.key])
  {
    hide LastTouch;
    WithoutOne(trace, keys, s.key);
    var w := Without(keys, s.key);
    var moved := w + [s.key];
    forall i, j | 0 <= i < j < |moved| ensures LastTouch(trace + [s], moved[i]) < LastTouch(trace + [s], moved[j]) {
      LastTouchStep(trace, s, moved[i]);
      LastTouchStep(trace, s, moved[j]);
      assert moved[i] in w;
    }
  }

  lemma EvictedIsOldest(trace: seq<Step>, moved: seq<string>, k: string)
    requires InOrder(trace, moved) && |moved| <= CACHE_CAPACITY + 1
    ensures InOrder(trace, Newest(moved)) && forall x :: x in Newest(moved) ==> x in moved
    ensures k in moved && k !in Newest(moved) ==> LeftOut(trace, Newest(moved), k)
  {
    hide LastTouch;
    var kept := Newest(moved);
    var off := |moved| - |kept|;
    assert forall j :: 0 <= j < |kept| ==> kept[j] == moved[j + off];
    if k in moved && k !in kept {
      var i :| 0 <= i < |moved| && moved[i] == k;
      assert forall j :: off <= j < |moved| ==> moved[j] == kept[j - off];
      forall x | x in kept ensures LastTouch(trace, k) < LastTouch(trace, x) {
        var j :| 0 <= j < |kept| && kept[j] == x;
        assert moved[j + off] == x;
      }
    }
  }

  lemma StillLeftOut(trace: seq<Step>, keys: seq<string>, s: Step, k: string)
    requires InOrder(trace, keys) && LeftOut(trace, keys, k) && k != s.key
    requires forall x :: x in keys ==> LastTouch(trace, x) >= 0
    ensures LeftOut(trace + [s], Newest(Without(keys, s.key) + [s.key]), k)
  {
    hide LastTouch, InOrder;
    WithoutOne(trace, keys, s.key);
    var moved := Without(keys, s.key) + [s.key];
    var kept := Newest(moved);
    LastTouchStep(trace, s, k);
    forall x | x in kept ensures LastTouch(trace, k) != -1 ==> LastTouch(trace + [s], k) < LastTouch(trace + [s], x) {
      assert x in moved;
      LastTouchStep(trace, s, x);
    }
  }

  /** Touching a key, new or not, keeps the cache at the most recently touched. */
  lemma TouchKeepsMostRecent(trace: seq<Step>, keys: seq<string>, s: Step)
    requires MostRecent(trace, keys)
    ensures MostRecent(trace + [s], Newest(Without(keys, s.key) + [s.key]))
    ensures s.key in keys ==> Newest(Without(keys, s.key) + [s.key]) == Without(keys, s.key) + [s.key]
    ensures s.key in Newest(Without(keys, s.key) + [s.key]) && Distinct(Without(keys, s.key) + [s.key])
  {
    hide LastTouch, InOrder, LeftOut, Distinct;
    WithoutOne(trace, keys, s.key);
    MovedToEnd(trace, keys, s);
    var moved := Without(keys, s.key) + [s.key];
    var kept := Newest(moved);
    assert kept[|kept| - 1] == s.key;
    forall k ensures (k in kept ==> LastTouch(trace + [s], k) >= 0) && (k in kept || LeftOut(trace + [s], kept, k)) {
      LastTouchStep(trace, s, k);
      EvictedIsOldest(trace + [s], moved, k);
      if k !in moved {
        StillLeftOut(trace, keys, s, k);
      }
    }
    EvictedIsOldest(trace + [s], moved, s.key);
  }

  // ----- the keys are determined --------------------------------------------------------

  function SetOf(keys: seq<string>): set<string> {
    set k | k in keys
  }

  lemma {:induction false} SizeOfSet(trace: seq<Step>, keys: seq<string>)
    requires InOrder(trace, keys)
    ensures |SetOf(keys)| == |keys|
  {
    if keys != [] {
      var rest := keys[..|keys| - 1];
      SizeOfSet(trace, rest);
      assert keys[|keys| - 1] !in rest by {
        assert forall j :: 0 <= j < |rest| ==> LastTouch(trace, keys[j]) < LastTouch(trace, keys[|keys| - 1]);
      }
      assert SetOf(keys) == SetOf(rest) + {keys[|keys| - 1]};
    }
  }

  lemma OnlyEmptyIsEmpty(keys: seq<string>)
    ensures SetOf(keys) == {} <==> keys == []
  {
    assert keys != [] ==> keys[0] in SetOf(keys);
  }

  lemma {:induction false} SameSetSameOrder(trace: seq<Step>, a: seq<string>, b: seq<string>)
    requires InOrder(trace, a) && InOrder(trace, b) && SetOf(a) == SetOf(b)
    ensures a == b
  {
    hide LastTouch;
    assert forall k :: k in a <==> k in SetOf(a);
    assert forall k :: k in b <==> k in SetOf(b);
    if a == [] || b == [] {
      OnlyEmptyIsEmpty(a);
      OnlyEmptyIsEmpty(b);
    } else {
      var x, y := a[|a| - 1], b[|b| - 1];
      assert x == y by {
        assert x in b && y in a;
        var i :| 0 <= i < |b| && b[i] == x;
        var j :| 0 <= j < |a| && a[j] == y;
      }
      var c, d := a[..|a| - 1], b[..|b| - 1];
      assert SetOf(c) == SetOf(a) - {x} by { LastOnce(trace, a); }
      assert SetOf(d) == SetOf(b) - {x} by { LastOnce(trace, b); }
      SameSetSameOrder(trace, c, d);
      assert a == c + [x] && b == d + [x];
    }
  }

  lemma LastOnce(trace: seq<Step>, a: seq<string>)
    requires InOrder(trace, a) && a != []
    ensures SetOf(a[..|a| - 1]) == SetOf(a) - {a[|a| - 1]}
  {
    forall j | 0 <= j < |a| - 1 ensures a[j] != a[|a| - 1] {
      assert LastTouch(trace, a[j]) < LastTouch(trace, a[|a| - 1]);
    }
    assert a == a[..|a| - 1] + [a[|a| - 1]];
  }

  lemma NoneMissing(trace: seq<Step>, a: seq<string>, b: seq<string>)
    requires MostRecent(trace, a) && MostRecent(trace, b)
    ensures SetOf(a) <= SetOf(b)
  {
    hide LastTouch, InOrder;
    if k :| k in a && k !in b {
      assert LeftOut(trace, b, k);
      forall x | x in b ensures x in a {
        if x !in a {
          assert false;
        }
      }
      SizeOfSet(trace, a);
      SizeOfSet(trace, b);
      assert SetOf(b) <= SetOf(a) - {k};
      SubsetSize(SetOf(b), SetOf(a) - {k});
    }
  }

  lemma {:induction false} SubsetSize(a: set<string>, b: set<string>)
    requires a <= b
    ensures |a| <= |b|
  {
    if a != {} {
      var x :| x in a;
      SubsetSize(a - {x}, b - {x});
    }
  }

  /** What was touched leaves one possible cache, down to the order of its keys. */
  lemma MostRecentIsUnique(trace: seq<Step>, a: seq<string>, b: seq<string>)
    requires MostRecent(trace, a) && MostRecent(trace, b)
    ensures a == b
  {
    NoneMissing(trace, a, b);
    NoneMissing(trace, b, a);
    SameSetSameOrder(trace, a, b);
  }

  // ----- the cache ------------------------------------------------------------------------

  datatype Cover = Cover(body: Bytes, contentType: string)

  /** What an upstream fetch came to. */
  datatype Fetched = Failed | Answered(status: int, content: Bytes)

  datatype Response = Served(cover: Cover) | Refused(status: int)

  lemma PopOldest(keys: seq<string>)
    requires Distinct(keys) && |keys| > CACHE_CAPACITY
    ensures Distinct(keys[1..]) && Newest(keys[1..]) == Newest(keys)
    ensures forall k :: k in keys[1..] <==> k in keys && k != keys[0]
  {
    assert keys == [keys[0]] + keys[1..];
  }

  /** A cover as the cache keeps it: the last body put under its key, with the type that body sniffs as. */
  predicate Stored(trace: seq<Step>, key: string, cover: Cover) {
    LastBody(trace, key) == Some(cover.body) && SniffImage(cover.body) == Some(cover.contentType)
  }

  lemma StoredStep(trace: seq<Step>, s: Step, key: string, cover: Cover)
    ensures Stored(trace, key, cover) && (s.Hit? || s.key != key) ==> Stored(trace + [s], key, cover)
    ensures s == Put(key, cover.body) && SniffImage(cover.body) == Some(cover.contentType) ==>
            Stored(trace + [s], key, cover)
  {
    hide SniffImage;
    LastTouchStep(trace, s, key);
  }

  ghost predicate AllStored(trace: seq<Step>, entries: map<string, Cover>) {
    forall k :: k in entries ==> Stored(trace, k, entries[k])
  }

  lemma HitKeepsStored(trace: seq<Step>, entries: map<string, Cover>, key: string)
    requires AllStored(trace, entries)
    ensures AllStored(trace + [Hit(key)], entries)
  {
    hide Stored;
    forall k | k in entries ensures Stored(trace + [Hit(key)], k, entries[k]) {
      StoredStep(trace, Hit(key), k, entries[k]);
    }
  }

  lemma PutKeepsStored(trace: seq<Step>, entries: map<string, Cover>, key: string, cover: Cover)
    requires AllStored(trace, entries) && SniffImage(cover.body) == Some(cover.contentType)
    ensures AllStored(trace + [Put(key, cover.body)], entries[key := cover])
  {
    hide Stored, SniffImage;
    var after := entries[key := cover];
    forall k | k in after ensures Stored(trace + [Put(key, cover.body)], k, after[k]) {
      StoredStep(trace, Put(key, cover.body), k, after[k]);
    }
  }

  class Cache {
    var order: seq<string>
    var entries: map<string, Cover>
    ghost var trace: seq<Step>

    ghost predicate Valid()
      reads this
    {
      && MostRecent(trace, order)
      && (forall k :: k in entries <==> k in order)
      && AllStored(trace, entries)
    }

    constructor ()
      ensures Valid() && trace == []
    {
      order, entries, trace := [], map[], [];
    }

    /**
     A request up to its fetch: a refused URL and a hit are answered, a miss is
     not yet. Other requests may run before it goes on.
     */
    method Begin(cacheKey: Option<string>) returns (answer: Option<Response>)
      requires Valid()
      modifies this
      ensures Valid()
      ensures cacheKey.None? ==> answer == Some(Refused(400))
      ensures cacheKey.Some? && cacheKey.value in old(order) ==>
                answer.Some? && answer.value.Served? && Stored(old(trace), cacheKey.value, answer.value.cover)
                && trace == old(trace) + [Hit(cacheKey.value)]
      ensures cacheKey.Some? && cacheKey.value !in old(order) ==> answer.None?
      ensures cacheKey.None? || answer.None? ==> trace == old(trace) && order == old(order) && entries == old(entries)
    {
      hide MostRecent, Stored, Newest, Without, Distinct, SniffImage;
      if cacheKey.None? {
        return Some(Refused(400));
      }
      var key := cacheKey.value;
      if key !in entries {
        return None;
      }
      HitKeepsStored(trace, entries, key);
      TouchKeepsMostRecent(trace, order, Hit(key));
      order := Without(order, key) + [key];
      trace := trace + [Hit(key)];
      answer := Some(Served(entries[key]));
    }

    /** `_cache_put`. */
    method CachePut(url: string, body: Bytes, contentType: string)
      requires Valid() && SniffImage(body) == Some(contentType)
      modifies this
      ensures Valid() && trace == old(trace) + [Put(url, body)]
      ensures url in entries && entries[url] == Cover(body, contentType)
    {
      hide MostRecent, Stored, Without, SniffImage, Distinct, Newest;
      ghost var s := Put(url, body);
      PutKeepsStored(trace, entries, url, Cover(body, contentType));
      TouchKeepsMostRecent(trace, order, s);
      entries := entries[url := Cover(body, contentType)];
      order := Without(order, url) + [url];
      trace := trace + [s];
      PopDown();
    }

    /** The eviction loop: the oldest entries go until the cache fits. */
    method PopDown()
      requires forall k :: k in entries <==> k in order
      requires Distinct(order)
      modifies this`order, this`entries
      ensures order == Newest(old(order))
      ensures forall k :: k in entries <==> k in order
      ensures forall k :: k in entries ==> k in old(entries) && entries[k] == old(entries)[k]
    {
      while |order| > CACHE_CAPACITY
        invariant Distinct(order) && Newest(order) == Newest(old(order))
        invariant forall k :: k in entries <==> k in order
        invariant forall k :: k in entries ==> k in old(entries) && entries[k] == old(entries)[k]
      {
        hide Distinct, Newest;
        PopOldest(order);
        entries := entries - {order[0]};
        order := order[1..];
      }
    }

    /** The rest of a missed request, once its fetch has come back. */
    method Finish(cacheKey: string, result: Fetched) returns (answer: Response)
      requires Valid()
      modifies this
      ensures Valid()
      ensures match result
              case Answered(200, content) =>
                if SniffImage(content).Some? then
                  && answer == Served(Cover(content, SniffImage(content).value))
                  && trace == old(trace) + [Put(cacheKey, content)]
                else answer == Refused(502) && Untouched()
              case _ => answer == Refused(502) && Untouched()
    {
      if result.Failed? || result.status != 200 {
        return Refused(502);
      }
      var contentType := SniffImage(result.content);
      if contentType.None? {
        return Refused(502);
      }
      CachePut(cacheKey, result.content, contentType.value);
      answer := Served(Cover(result.content, contentType.value));
    }

    twostate predicate Untouched()
      reads this
    {
      trace == old(trace) && order == old(order) && entries == old(entries)
    }
  }

  /** What the invariant means: two caches with the same touches are equal, entry by entry. */
  lemma TouchesDetermineTheCache(a: Cache, b: Cache)
    requires a.Valid() && b.Valid() && a.trace == b.trace
    ensures a.order == b.order && a.entries == b.entries
  {
    hide SniffImage, MostRecent;
    MostRecentIsUnique(a.trace, a.order, b.order);
    assert a.entries.Keys == b.entries.Keys;
  }
}
