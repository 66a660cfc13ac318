/** The three backends side by side on one history of stores. */
module Backends {
  import opened Common
  import opened Keys
  import opened Listing
  import opened Recency
  import MemcacheSpec
  import MemoryRuns
  import RedisLaws
  import RedisSpec

  /**
    One accepted `Store` call on every backend: the document, the in-memory store's clock, the
    three times of the memcache call, and the times of the redis commands.
  */
  datatype Put = Put(metadata: Metadata, now: int, setAt: int, loadAt: int, saveAt: int, clock: Clock)

  ghost predicate Accepted(h: seq<Put>) {
    forall k :: 0 <= k < |h| ==> Check(Some(h[k].metadata)) == Stored
  }

  function MemoryCalls(h: seq<Put>): seq<Event> {
    if h == [] then [] else MemoryCalls(h[..|h| - 1]) + [StoreCall(Some(h[|h| - 1].metadata), h[|h| - 1].now)]
  }

  function Memory(cap: Capacity, h: seq<Put>): seq<MemoryEntry> {
    MemoryRuns.Run(cap, MemoryCalls(h))
  }

  /** Every entry that was stored, in order. */
  function EntriesOf(h: seq<Put>): seq<MemoryEntry> {
    MemoryRuns.History(MemoryCalls(h))
  }

  function MemcacheCall(p: Put): MemcacheSpec.StoreAt {
    MemcacheSpec.StoreAt(p.metadata, p.setAt, p.loadAt, p.saveAt)
  }

  function MemcacheCalls(h: seq<Put>): seq<MemcacheSpec.StoreAt> {
    if h == [] then [] else MemcacheCalls(h[..|h| - 1]) + [MemcacheCall(h[|h| - 1])]
  }

  function Memcache(cfg: MemcacheSpec.Config, h: seq<Put>): MemcacheSpec.Backend {
    MemcacheSpec.Run(cfg, MemcacheCalls(h))
  }

  function Redis(cfg: RedisSpec.Config, h: seq<Put>): RedisSpec.Backend {
    if h == [] then RedisSpec.EMPTY
    else RedisSpec.Store(cfg, Redis(cfg, h[..|h| - 1]), h[|h| - 1].metadata, h[|h| - 1].clock)
  }

  function Ids(s: seq<MemoryEntry>): seq<string> {
    if s == [] then [] else [s[0].id] + Ids(s[1..])
  }

  /** The byte limit never binds: the entries that the count limit alone would keep always fit. */
  ghost predicate BytesNeverBind(cap: Capacity, h: seq<Put>) {
    forall k :: 0 <= k <= |h| ==> TotalBytes(LastN(Latest(EntriesOf(h[..k])), cap.maxEntries)) <= cap.maxBytes
  }

  /** The time lies within one time to live from `start`. */
  predicate InTime(start: int, ttl: nat, now: int) {
    start <= now < start + ttl
  }

  ghost predicate AllInTime(start: int, ttl: nat, clock: Clock) {
    forall k: nat :: InTime(start, ttl, clock(k))
  }

  /** Nothing expires in memcache: everything happens within one time to live from some start. */
  ghost predicate MemcacheInTime(start: int, ttl: nat, h: seq<Put>) {
    forall k :: 0 <= k < |h| ==> InTime(start, ttl, h[k].setAt) && InTime(start, ttl, h[k].loadAt) && InTime(start, ttl, h[k].saveAt)
  }

  ghost predicate RedisInTime(start: int, ttl: nat, h: seq<Put>) {
    forall k :: 0 <= k < |h| ==> AllInTime(start, ttl, h[k].clock)
  }

  // ---- One more store ------------------------------------------------------------------------

  lemma MemoryLast(cap: Capacity, h: seq<Put>)
    requires h != [] && Accepted(h)
    ensures var before, p := h[..|h| - 1], h[|h| - 1];
            && Memory(cap, h) == Apply(cap, Memory(cap, before), StoreCall(Some(p.metadata), p.now))
            && EntriesOf(h) == EntriesOf(before) + [EntryOf(p.metadata, p.now)]
  {
    var before, p := h[..|h| - 1], h[|h| - 1];
    MemoryRuns.RunSnoc(cap, MemoryCalls(before), StoreCall(Some(p.metadata), p.now));
  }

  lemma MemcacheLast(cfg: MemcacheSpec.Config, h: seq<Put>)
    requires h != []
    ensures Memcache(cfg, h) == MemcacheSpec.Store(cfg, Memcache(cfg, h[..|h| - 1]), MemcacheCall(h[|h| - 1]))
  {
    var calls := MemcacheCalls(h[..|h| - 1]);
    assert (calls + [MemcacheCall(h[|h| - 1])])[..|calls|] == calls;
  }

  // ---- Lists of entries and lists of ids ---------------------------------------------------

  lemma {:induction false} IdsConcat(a: seq<MemoryEntry>, b: seq<MemoryEntry>)
    ensures Ids(a + b) == Ids(a) + Ids(b)
  {
    if a == [] {
      assert a + b == b;
    } else {
      assert (a + b)[1..] == a[1..] + b;
      IdsConcat(a[1..], b);
    }
  }

  lemma {:induction false} IdsLength(s: seq<MemoryEntry>)
    ensures |Ids(s)| == |s|
  {
    if s != [] {
      IdsLength(s[1..]);
    }
  }

  lemma {:induction false} IdAt(s: seq<MemoryEntry>, k: nat)
    requires k < |s|
    ensures |Ids(s)| == |s| && Ids(s)[k] == s[k].id
  {
    IdsLength(s);
    if k > 0 {
      IdAt(s[1..], k - 1);
    }
  }

  lemma IdsAt(s: seq<MemoryEntry>)
    ensures |Ids(s)| == |s| && forall k :: 0 <= k < |s| ==> Ids(s)[k] == s[k].id
  {
    IdsLength(s);
    forall k | 0 <= k < |s| ensures Ids(s)[k] == s[k].id {
      IdAt(s, k);
    }
  }

  lemma IdsOfTail(s: seq<MemoryEntry>, m: nat)
    ensures LastN(Ids(s), m) == Ids(LastN(s, m))
  {
    IdsAt(s);
    if m <= |s| {
      var a, b := s[..|s| - m], s[|s| - m..];
      assert s == a + b;
      IdsConcat(a, b);
      IdsAt(a);
    }
  }

  lemma IdsDistinct(s: seq<MemoryEntry>)
    ensures Distinct(Ids(s)) <==> DistinctIds(s)
  {
    IdsAt(s);
  }

  /** Removing an id commutes with reading a list of entries backwards as ids. */
  lemma {:induction false} WithoutBackwards(s: seq<MemoryEntry>, id: string)
    ensures IdsWithout(Reverse(Ids(s)), id) == Reverse(Ids(Without(s, id)))
  {
    if s != [] {
      WithoutBackwards(s[1..], id);
      IdsWithoutConcat(Reverse(Ids(s[1..])), [s[0].id], id);
      assert IdsWithout([s[0].id], id) == if s[0].id == id then [] else [s[0].id];
    }
  }

  lemma {:induction false} ReverseTake<T>(s: seq<T>, m: nat)
    ensures Take(Reverse(s), m) == Reverse(LastN(s, m))
  {
    ReverseLength(s);
    if m <= |s| {
      var a, b := s[..|s| - m], s[|s| - m..];
      assert s == a + b;
      ReverseConcat(a, b);
      ReverseLength(b);
    }
  }

  /** The memcache index after a store, seen from the in-memory list before it. */
  lemma PrependBackwards(s: seq<MemoryEntry>, e: MemoryEntry, m: nat)
    ensures Take(PrependUnique(Reverse(Ids(s)), e.id), m) == Reverse(Ids(LastN(Without(s, e.id) + [e], m)))
  {
    var t := Without(s, e.id) + [e];
    WithoutBackwards(s, e.id);
    IdsConcat(Without(s, e.id), [e]);
    ReverseConcat(Ids(Without(s, e.id)), [e.id]);
    assert Reverse([e.id]) == [e.id] && Ids([e]) == [e.id];
    assert PrependUnique(Reverse(Ids(s)), e.id) == Reverse(Ids(t));
    ReverseTake(Ids(t), m);
    IdsOfTail(t, m);
  }

  // ---- The in-memory store without a binding byte limit --------------------------------------

  lemma WithoutAtMostOne(s: seq<MemoryEntry>, id: string)
    requires DistinctIds(s)
    ensures |Without(s, id)| + 1 >= |s|
  {
    if k :| 0 <= k < |s| && s[k].id == id {
      WithoutSplit(s, k);
    } else {
      WithoutAbsent(s, id);
    }
  }

  lemma LastNOfConcat(w: seq<MemoryEntry>, t: seq<MemoryEntry>, m: nat)
    requires |t| >= m
    ensures LastN(w + t, m) == LastN(t, m)
  {
    assert (w + t)[|w| + |t| - m..] == t[|t| - m..];
  }

  /** Cutting to the newest `m` before a store makes no difference after cutting again. */
  lemma LastNWithout(s: seq<MemoryEntry>, e: MemoryEntry, m: nat)
    requires DistinctIds(s) && m >= 1
    ensures LastN(Without(LastN(s, m), e.id) + [e], m) == LastN(Without(s, e.id) + [e], m)
  {
    if |s| > m {
      var a, b := s[..|s| - m], LastN(s, m);
      assert s == a + b;
      WithoutConcat(a, b, e.id);
      WithoutAtMostOne(b, e.id);
      LastNOfConcat(Without(a, e.id), Without(b, e.id) + [e], m);
      assert Without(s, e.id) + [e] == Without(a, e.id) + (Without(b, e.id) + [e]);
    } else {
      assert LastN(s, m) == s;
    }
  }

  /** If the newest `maxEntries` fit the byte limit, eviction keeps exactly those. */
  lemma EvictByCount(cap: Capacity, t: seq<MemoryEntry>)
    requires TotalBytes(LastN(t, cap.maxEntries)) <= cap.maxBytes
    ensures Evict(cap, t) == LastN(t, cap.maxEntries)
  {
    var r := LastN(t, cap.maxEntries);
    EvictIsLongest(cap, t);
    if cap.maxEntries > |t| {
      assert r == t == t[0..];
    }
    forall j | 0 <= j < |t| - |r|
      ensures !Admissible(cap, None, t[j..])
    {
      assert |t[j..]| > cap.maxEntries;
    }
    LongestIsUnique(cap, None, Evict(cap, t), r, t);
  }

  lemma BytesNeverBindPrefix(cap: Capacity, h: seq<Put>)
    requires h != [] && Accepted(h) && BytesNeverBind(cap, h)
    ensures BytesNeverBind(cap, h[..|h| - 1])
  {
    var before := h[..|h| - 1];
    assert forall k :: 0 <= k <= |before| ==> before[..k] == h[..k];
  }

  lemma {:induction false} MemoryIsNewest(cap: Capacity, h: seq<Put>)
    requires Accepted(h) && cap.maxEntries >= 1 && BytesNeverBind(cap, h)
    ensures Memory(cap, h) == LastN(Latest(EntriesOf(h)), cap.maxEntries)
  {
    if h != [] {
      var before, p := h[..|h| - 1], h[|h| - 1];
      var e := EntryOf(p.metadata, p.now);
      BytesNeverBindPrefix(cap, h);
      MemoryLast(cap, h);
      MemoryIsNewest(cap, before);
      MemoryRuns.LatestSnoc(EntriesOf(before), e);
      MemoryRuns.LatestFromHistory(EntriesOf(before));
      LastNWithout(Latest(EntriesOf(before)), e, cap.maxEntries);
      assert h[..|h|] == h;
      EvictByCount(cap, Without(Memory(cap, before), e.id) + [e]);
    }
  }

  // ---- Step by step ----------------------------------------------------------------------------

  lemma TailDistinct(t: seq<MemoryEntry>, m: nat)
    requires DistinctIds(t)
    ensures DistinctIds(LastN(t, m))
  {
    var r := LastN(t, m);
    var d := |t| - |r|;
    forall i, j | 0 <= i < j < |r| ensures r[i].id != r[j].id {
      assert r[i] == t[d + i] && r[j] == t[d + j];
    }
  }

  /** The list after a store: distinct ids, the new entry last, everything else from before. */
  lemma EntriesAfter(s: seq<MemoryEntry>, e: MemoryEntry, m: nat)
    requires DistinctIds(s) && m >= 1
    ensures var r := LastN(Without(s, e.id) + [e], m);
            && DistinctIds(r) && r != [] && r[|r| - 1] == e
            && forall k :: 0 <= k < |r| - 1 ==> r[k] in s && r[k].id != e.id
  {
    var kept := Without(s, e.id);
    WithoutMembers(s, e.id);
    WithoutKeepsOrder(s, e.id);
    MemoryRuns.LatestSorted(kept, s, e);
    TailDistinct(kept + [e], m);
    var r := LastN(kept + [e], m);
    forall k | 0 <= k < |r| - 1 ensures r[k] in s && r[k].id != e.id {
      assert r[k] == kept[|kept| + 1 - |r| + k] && r[k] in kept;
    }
  }

  /** What `Get` finds after a store: the new document, or an older one that is still listed. */
  lemma LookupAfter(s: seq<MemoryEntry>, e: MemoryEntry, m: nat, id: string)
    requires DistinctIds(s) && m >= 1
    ensures var r := LastN(Without(s, e.id) + [e], m);
            && Lookup(r, id) == (if id !in Ids(r) then None else if id == e.id then Some(e.metadata) else Lookup(s, id))
            && e.id in Ids(r)
  {
    var r := LastN(Without(s, e.id) + [e], m);
    EntriesAfter(s, e, m);
    IdsAt(r);
    MemoryRuns.LookupFinds(r, id);
    MemoryRuns.LookupFinds(s, id);
    assert Ids(r)[|r| - 1] == e.id;
    if id in Ids(r) && id != e.id {
      var k :| 0 <= k < |r| && Ids(r)[k] == id;
      assert r[k] in s;
      var j :| 0 <= j < |s| && s[j] == r[k];
    }
  }

  /** The memcache state mirrors the in-memory list, and nothing in it expires before `end`. */
  ghost predicate Mirrors(s: seq<MemoryEntry>, b: MemcacheSpec.Backend, end: int) {
    && (b.index.Some? ==> b.index.value.deadline >= end)
    && (if b.index.Some? then b.index.value.ids else []) == Reverse(Ids(s))
    && (forall id :: id in b.docs <==> id in Ids(s))
    && (forall id :: id in b.docs ==> b.docs[id].deadline >= end && Lookup(s, id) == Some(b.docs[id].metadata))
  }

  lemma KeptApart(loaded: seq<string>, id: string, kept: seq<string>, evicted: seq<string>)
    requires Distinct(IdsWithout(loaded, id)) && kept + evicted == PrependUnique(loaded, id)
    ensures forall x :: x in evicted ==> x !in kept
  {
    var ids, rest := kept + evicted, IdsWithout(loaded, id);
    IdsWithoutMembers(loaded, id);
    forall k | 0 <= k < |rest| ensures rest[k] != id {
      assert rest[k] in rest;
    }
    assert Distinct([id] + rest);
    assert forall i :: 0 <= i < |kept| ==> ids[i] == kept[i];
    assert forall i :: 0 <= i < |evicted| ==> ids[|kept| + i] == evicted[i];
  }

  lemma ReversedIdsDistinct(s: seq<MemoryEntry>)
    requires DistinctIds(s)
    ensures Distinct(Reverse(Ids(s)))
  {
    IdsAt(s);
    ReverseLength(Ids(s));
    forall i, j | 0 <= i < j < |s|
      ensures Reverse(Ids(s))[i] != Reverse(Ids(s))[j]
    {
      ReverseAt(Ids(s), i);
      ReverseAt(Ids(s), j);
    }
  }

  lemma {:induction false} ReverseMembers(ids: seq<string>)
    ensures forall x :: x in Reverse(ids) <==> x in ids
  {
    if ids != [] {
      ReverseMembers(ids[1..]);
      assert ids == [ids[0]] + ids[1..];
    }
  }

  lemma MirrorIndex(cfg: MemcacheSpec.Config, s: seq<MemoryEntry>, e: MemoryEntry)
    requires DistinctIds(s) && cfg.maxEntries >= 1
    ensures var ids := PrependUnique(Reverse(Ids(s)), e.id);
            var kept, evicted := MemcacheSpec.KeptIds(cfg, ids), MemcacheSpec.EvictedIds(cfg, ids);
            && kept == Reverse(Ids(LastN(Without(s, e.id) + [e], cfg.maxEntries)))
            && (forall id :: id in kept || id in evicted <==> id == e.id || id in Ids(s))
            && (forall id :: id in evicted ==> id !in kept)
  {
    var loaded := Reverse(Ids(s));
    var ids := PrependUnique(loaded, e.id);
    var kept, evicted := MemcacheSpec.KeptIds(cfg, ids), MemcacheSpec.EvictedIds(cfg, ids);
    PrependBackwards(s, e, cfg.maxEntries);
    assert |ids| == cfg.maxEntries ==> ids[..cfg.maxEntries] == ids;
    assert ids == kept + evicted;
    ReversedIdsDistinct(s);
    IdsWithoutMembers(loaded, e.id);
    KeptApart(loaded, e.id, kept, evicted);
    ReverseMembers(Ids(s));
    assert forall id :: id in kept || id in evicted <==> id in kept + evicted;
  }

  /** Which ids are evicted, and which are listed, after the store. */
  lemma MirrorKept(cfg: MemcacheSpec.Config, s: seq<MemoryEntry>, e: MemoryEntry, id: string)
    requires DistinctIds(s) && cfg.maxEntries >= 1
    ensures var evicted := MemcacheSpec.EvictedIds(cfg, PrependUnique(Reverse(Ids(s)), e.id));
            var listed := Ids(LastN(Without(s, e.id) + [e], cfg.maxEntries));
            && (id in evicted <==> (id == e.id || id in Ids(s)) && id !in listed)
            && (id in listed ==> id == e.id || id in Ids(s))
  {
    MirrorIndex(cfg, s, e);
    ReverseMembers(Ids(LastN(Without(s, e.id) + [e], cfg.maxEntries)));
  }

  /** Which documents memcache has after the store. */
  lemma MirrorMember(cfg: MemcacheSpec.Config, s: seq<MemoryEntry>, docs: map<string, MemcacheSpec.Doc>, e: MemoryEntry,
                     doc: MemcacheSpec.Doc, id: string)
    requires DistinctIds(s) && cfg.maxEntries >= 1 && (id in docs <==> id in Ids(s))
    ensures var ids := PrependUnique(Reverse(Ids(s)), e.id);
            (id in docs[e.id := doc] - IdSet(MemcacheSpec.EvictedIds(cfg, ids)) <==>
             id in Ids(LastN(Without(s, e.id) + [e], cfg.maxEntries)))
  {
    LookupAfter(s, e, cfg.maxEntries, id);
    MirrorKept(cfg, s, e, id);
  }

  lemma MirrorDoc(cfg: MemcacheSpec.Config, s: seq<MemoryEntry>, b: MemcacheSpec.Backend, p: Put, start: int, id: string)
    requires Check(Some(p.metadata)) == Stored && DistinctIds(s) && Mirrors(s, b, start + cfg.ttl)
    requires cfg.maxEntries >= 1 && start <= p.setAt && p.loadAt < start + cfg.ttl
    ensures var e := EntryOf(p.metadata, p.now);
            var r := LastN(Without(s, e.id) + [e], cfg.maxEntries);
            var docs := MemcacheSpec.Store(cfg, b, MemcacheCall(p)).docs;
            && (id in docs <==> id in Ids(r))
            && (id in docs ==> docs[id].deadline >= start + cfg.ttl && Lookup(r, id) == Some(docs[id].metadata))
  {
    var e := EntryOf(p.metadata, p.now);
    assert MemcacheSpec.LoadIndex(b, p.loadAt) == Reverse(Ids(s));
    MirrorMember(cfg, s, b.docs, e, MemcacheSpec.Doc(p.metadata, p.setAt + cfg.ttl), id);
    LookupAfter(s, e, cfg.maxEntries, id);
  }

  lemma MirrorStep(cfg: MemcacheSpec.Config, s: seq<MemoryEntry>, b: MemcacheSpec.Backend, p: Put, start: int)
    requires Check(Some(p.metadata)) == Stored && DistinctIds(s) && Mirrors(s, b, start + cfg.ttl)
    requires cfg.maxEntries >= 1 && start <= p.setAt && p.loadAt < start + cfg.ttl && start <= p.saveAt
    ensures var e := EntryOf(p.metadata, p.now);
            Mirrors(LastN(Without(s, e.id) + [e], cfg.maxEntries), MemcacheSpec.Store(cfg, b, MemcacheCall(p)), start + cfg.ttl)
  {
    var e := EntryOf(p.metadata, p.now);
    var r := LastN(Without(s, e.id) + [e], cfg.maxEntries);
    var b' := MemcacheSpec.Store(cfg, b, MemcacheCall(p));
    assert MemcacheSpec.LoadIndex(b, p.loadAt) == Reverse(Ids(s));
    MirrorIndex(cfg, s, e);
    forall id
      ensures id in b'.docs <==> id in Ids(r)
      ensures id in b'.docs ==> b'.docs[id].deadline >= start + cfg.ttl && Lookup(r, id) == Some(b'.docs[id].metadata)
    {
      MirrorDoc(cfg, s, b, p, start, id);
    }
  }

  lemma MemoryDistinct(cap: Capacity, h: seq<Put>)
    ensures DistinctIds(Memory(cap, h)) && Fits(cap, Memory(cap, h))
  {
    MemoryRuns.RunInvariant(cap, MemoryCalls(h));
  }

  lemma MemoryStep(cap: Capacity, h: seq<Put>)
    requires h != [] && Accepted(h) && cap.maxEntries >= 1 && BytesNeverBind(cap, h)
    ensures var e := EntryOf(h[|h| - 1].metadata, h[|h| - 1].now);
            Memory(cap, h) == LastN(Without(Memory(cap, h[..|h| - 1]), e.id) + [e], cap.maxEntries)
  {
    var before, e := h[..|h| - 1], EntryOf(h[|h| - 1].metadata, h[|h| - 1].now);
    BytesNeverBindPrefix(cap, h);
    MemoryLast(cap, h);
    MemoryIsNewest(cap, before);
    MemoryIsNewest(cap, h);
    MemoryRuns.LatestSnoc(EntriesOf(before), e);
    MemoryRuns.LatestFromHistory(EntriesOf(before));
    LastNWithout(Latest(EntriesOf(before)), e, cap.maxEntries);
  }

  lemma {:induction false} MemcacheMirrors(cap: Capacity, cfg: MemcacheSpec.Config, h: seq<Put>, start: int)
    requires Accepted(h) && cap.maxEntries >= 1 && cfg.maxEntries == cap.maxEntries
    requires BytesNeverBind(cap, h) && MemcacheInTime(start, cfg.ttl, h)
    ensures Mirrors(Memory(cap, h), Memcache(cfg, h), start + cfg.ttl)
  {
    if h != [] {
      var before, p := h[..|h| - 1], h[|h| - 1];
      BytesNeverBindPrefix(cap, h);
      MemcacheMirrors(cap, cfg, before, start);
      MemoryDistinct(cap, before);
      MirrorStep(cfg, Memory(cap, before), Memcache(cfg, before), p, start);
      MemoryStep(cap, h);
      MemcacheLast(cfg, h);
    }
  }

  // ---- Listings of a reversed list -------------------------------------------------------------

  lemma TakeReverseAt(ids: seq<string>, n: nat, k: nat)
    requires k < |Take(Reverse(ids), n)|
    ensures k < |ids| && Take(Reverse(ids), n)[k] == ids[|ids| - 1 - k]
  {
    ReverseLength(ids);
    ReverseAt(ids, k);
  }

  lemma BackwardsAt(s: seq<MemoryEntry>, n: nat, k: nat)
    requires k < |Take(Reverse(Ids(s)), n)|
    ensures k < |s| && Take(Reverse(Ids(s)), n)[k] == s[|s| - 1 - k].id
  {
    TakeReverseAt(Ids(s), n, k);
    IdsLength(s);
    IdAt(s, |s| - 1 - k);
  }

  /** All reads of the documents of `s` at the times of the clock bring back those documents. */
  ghost predicate AllRead(get: Getter, s: seq<MemoryEntry>, clock: Clock) {
    forall e, k: nat :: e in s ==> get(e.id, clock(k)) == Some(e.metadata)
  }

  /** Reading the ids of the list backwards gives the newest documents of the list. */
  lemma {:induction false} FoundFrom(get: Getter, s: seq<MemoryEntry>, n: nat, i: nat, clock: Clock)
    requires AllRead(get, s, clock) && i <= |Take(Reverse(Ids(s)), n)| && i <= |s|
    ensures Found(get, Take(Reverse(Ids(s)), n), i, clock, ALL_ANSWERED) == Newest(s[..|s| - i], |Take(Reverse(Ids(s)), n)| - i)
    decreases |s| - i
  {
    var ids := Take(Reverse(Ids(s)), n);
    if i < |ids| {
      BackwardsAt(s, n, i);
      var e := s[|s| - 1 - i];
      assert get(e.id, clock(i)) == Some(e.metadata);
      FoundFrom(get, s, n, i + 1, clock);
      assert s[..|s| - i][..|s| - i - 1] == s[..|s| - (i + 1)];
    }
  }

  lemma {:induction false} NewestCut(s: seq<MemoryEntry>, n: nat)
    ensures Newest(s, n) == Newest(s, if n <= |s| then n else |s|)
  {
    if s != [] && n > 0 {
      NewestCut(s[..|s| - 1], n - 1);
    }
  }

  lemma FoundIsNewest(get: Getter, s: seq<MemoryEntry>, n: nat, clock: Clock)
    requires AllRead(get, s, clock)
    ensures Found(get, Take(Reverse(Ids(s)), n), 0, clock, ALL_ANSWERED) == Newest(s, n)
  {
    IdsAt(s);
    ReverseLength(Ids(s));
    FoundFrom(get, s, n, 0, clock);
    NewestCut(s, n);
    assert s[..|s| - 0] == s;
  }

  // ---- Memcache against memory -----------------------------------------------------------------

  /** Every read of an alive mirror finds what `Get` of the in-memory store finds. */
  lemma MirroredGet(s: seq<MemoryEntry>, b: MemcacheSpec.Backend, end: int, id: string, now: int)
    requires DistinctIds(s) && Mirrors(s, b, end) && now < end
    ensures MemcacheSpec.Get(b, id, now) == Lookup(s, id)
    ensures forall e :: e in s && e.id == id ==> Lookup(s, id) == Some(e.metadata)
  {
    IdsAt(s);
    MemoryRuns.LookupFinds(s, id);
  }

  lemma MirroredReads(s: seq<MemoryEntry>, b: MemcacheSpec.Backend, end: int, clock: Clock)
    requires DistinctIds(s) && Mirrors(s, b, end) && forall k: nat :: clock(k) < end
    ensures AllRead(MemcacheSpec.GetterOf(b), s, clock)
  {
    forall e, k: nat | e in s ensures MemcacheSpec.GetterOf(b)(e.id, clock(k)) == Some(e.metadata) {
      MirroredGet(s, b, end, e.id, clock(k));
    }
  }

  /** When nothing is listed beyond `most`, a limit of zero and one of `most` take the same ids. */
  lemma WantedIsTaken(ids: seq<string>, limit: int, most: nat)
    requires |ids| <= most
    ensures MemcacheSpec.Wanted(limit, ids) == Take(ids, if limit <= 0 then most else limit)
  {
    assert ids[..|ids|] == ids;
  }

  lemma MirroredList(s: seq<MemoryEntry>, b: MemcacheSpec.Backend, end: int, limit: int, most: nat, loadAt: int, clock: Clock)
    requires DistinctIds(s) && Mirrors(s, b, end) && |s| <= most && loadAt < end && forall k: nat :: clock(k) < end
    ensures MemcacheSpec.LoadIndex(b, loadAt) == Reverse(Ids(s))
    ensures MemcacheSpec.List(b, limit, loadAt, clock) == Newest(s, if limit <= 0 then most else limit)
  {
    MirroredReads(s, b, end, clock);
    FoundIsNewest(MemcacheSpec.GetterOf(b), s, if limit <= 0 then most else limit, clock);
    IdsAt(s);
    ReverseLength(Ids(s));
    WantedIsTaken(Reverse(Ids(s)), limit, most);
  }

  /**
    The memcache and the in-memory backend agree: with the same history of stores, re-stores
    included, the same positive count limit, a byte limit that never binds and nothing expiring,
    the index is the list backwards, and `Get` and `List` answer alike for every id and every limit.
  */
  lemma MemcacheAgrees(cap: Capacity, cfg: MemcacheSpec.Config, h: seq<Put>, start: int, limit: int, now: int, clock: Clock)
    requires Accepted(h) && cap.maxEntries >= 1 && cfg.maxEntries == cap.maxEntries && BytesNeverBind(cap, h)
    requires MemcacheInTime(start, cfg.ttl, h) && InTime(start, cfg.ttl, now) && AllInTime(start, cfg.ttl, clock)
    ensures var s, b := Memory(cap, h), Memcache(cfg, h);
            && MemcacheSpec.LoadIndex(b, now) == Reverse(Ids(s))
            && (forall id :: MemcacheSpec.Get(b, id, now) == Lookup(s, id))
            && MemcacheSpec.List(b, limit, now, clock) == Newest(s, if limit <= 0 then cap.maxEntries else limit)
  {
    var s, b := Memory(cap, h), Memcache(cfg, h);
    MemcacheMirrors(cap, cfg, h, start);
    MemoryDistinct(cap, h);
    forall id ensures MemcacheSpec.Get(b, id, now) == Lookup(s, id) {
      MirroredGet(s, b, start + cfg.ttl, id, now);
    }
    assert forall k: nat :: InTime(start, cfg.ttl, clock(k));
    MirroredList(s, b, start + cfg.ttl, limit, cap.maxEntries, now, clock);
  }

  // ---- Redis -----------------------------------------------------------------------------------

  lemma TakeCons<T>(x: T, s: seq<T>, n: nat)
    requires n > 0
    ensures Take([x] + s, n) == [x] + Take(s, n - 1)
  {}

  lemma TakeTake<T>(s: seq<T>, n: nat)
    requires n >= 1
    ensures Take(Take(s, n), n - 1) == Take(s, n - 1)
  {}

  /** The newest pushes after one more push, cut before and after or only after. */
  lemma PushNewest(ids: seq<string>, id: string, m: nat)
    requires m >= 1
    ensures Take([id] + Reverse(LastN(ids, m)), m) == Reverse(LastN(ids + [id], m))
  {
    ReverseTake(ids, m);
    ReverseTake(ids + [id], m);
    ReverseConcat(ids, [id]);
    assert Reverse([id]) == [id];
    TakeCons(id, Take(Reverse(ids), m), m);
    TakeCons(id, Reverse(ids), m);
    TakeTake(Reverse(ids), m);
  }

  /** The documents are those of the entries, and none expires before `end`. */
  ghost predicate Holds(docs: map<string, RedisSpec.Doc>, entries: seq<MemoryEntry>, end: int) {
    forall e :: e in entries ==> e.id in docs && docs[e.id].metadata == e.metadata && docs[e.id].deadline >= end
  }

  /** The index holds exactly `ids`, the documents are those of `latest`, and nothing expires before `end`. */
  ghost predicate Pushed(ids: seq<string>, latest: seq<MemoryEntry>, b: RedisSpec.Backend, end: int) {
    && (b.index.Some? ==> b.index.value.deadline.Some? && b.index.value.deadline.value >= end)
    && (if b.index.Some? then b.index.value.ids else []) == ids
    && Holds(b.docs, latest, end)
  }

  lemma HoldsAfter(docs: map<string, RedisSpec.Doc>, latest: seq<MemoryEntry>, e: MemoryEntry, deadline: int, end: int)
    requires Holds(docs, latest, end) && deadline >= end
    ensures Holds(docs[e.id := RedisSpec.Doc(e.metadata, deadline)], Without(latest, e.id) + [e], end)
  {
    WithoutMembers(latest, e.id);
  }

  lemma PushedAlive(ids: seq<string>, latest: seq<MemoryEntry>, b: RedisSpec.Backend, end: int, now: int)
    requires Pushed(ids, latest, b, end) && now < end
    ensures RedisSpec.LiveIds(b, now) == ids
  {
  }

  lemma PushedStep(cfg: RedisSpec.Config, ids: seq<string>, latest: seq<MemoryEntry>, b: RedisSpec.Backend, e: MemoryEntry,
                   clock: Clock, start: int)
    requires e.metadata.id == e.id && Pushed(ids, latest, b, start + cfg.ttl) && AllInTime(start, cfg.ttl, clock)
    ensures Pushed(RedisSpec.Trimmed([e.id] + ids, cfg.maxEntries), Without(latest, e.id) + [e],
                   RedisSpec.Store(cfg, b, e.metadata, clock), start + cfg.ttl)
  {
    assert InTime(start, cfg.ttl, clock(0)) && InTime(start, cfg.ttl, clock(1));
    assert InTime(start, cfg.ttl, clock(2)) && InTime(start, cfg.ttl, clock(3));
    PushedAlive(ids, latest, b, start + cfg.ttl, clock(1));
    RedisLaws.StoreEffect(cfg, b, e.metadata, clock);
    HoldsAfter(b.docs, latest, e, clock(0) + cfg.ttl, start + cfg.ttl);
  }

  /** The ids of the newest `m` pushes, newest first, repeats included. */
  function NewestPushes(entries: seq<MemoryEntry>, m: nat): seq<string> {
    Reverse(LastN(Ids(entries), m))
  }

  lemma PushedIndexStep(entries: seq<MemoryEntry>, e: MemoryEntry, m: nat)
    requires m >= 1
    ensures RedisSpec.Trimmed([e.id] + NewestPushes(entries, m), m) == NewestPushes(entries + [e], m)
  {
    IdsConcat(entries, [e]);
    assert Ids([e]) == [e.id];
    PushNewest(Ids(entries), e.id, m);
  }

  /** Redis holds exactly the newest pushes in its index, and the latest document of every id ever stored. */
  lemma {:induction false} RedisIsPushed(cap: Capacity, cfg: RedisSpec.Config, h: seq<Put>, start: int)
    requires Accepted(h) && cfg.maxEntries >= 1 && RedisInTime(start, cfg.ttl, h)
    ensures Pushed(NewestPushes(EntriesOf(h), cfg.maxEntries), Latest(EntriesOf(h)), Redis(cfg, h), start + cfg.ttl)
  {
    if h != [] {
      var before, p := h[..|h| - 1], h[|h| - 1];
      var entries, e := EntriesOf(before), EntryOf(p.metadata, p.now);
      RedisIsPushed(cap, cfg, before, start);
      MemoryLast(cap, h);
      PushedIndexStep(entries, e, cfg.maxEntries);
      MemoryRuns.LatestSnoc(entries, e);
      PushedStep(cfg, NewestPushes(entries, cfg.maxEntries), Latest(entries), Redis(cfg, before), e, p.clock, start);
    }
  }

  lemma TailStep(v: seq<MemoryEntry>, front: seq<MemoryEntry>, e: MemoryEntry)
    requires forall x :: x in front ==> x.id != e.id
    ensures Without(v + front, e.id) + [e] == Without(v, e.id) + (front + [e])
  {
    WithoutConcat(v, front, e.id);
    WithoutAbsent(front, e.id);
  }

  /** Entries with distinct ids at the end of a history are at the end of its latest view. */
  lemma {:induction false} LatestKeepsTail(a: seq<MemoryEntry>, b: seq<MemoryEntry>) returns (w: seq<MemoryEntry>)
    requires DistinctIds(b)
    ensures Latest(a + b) == w + b
    decreases |b|
  {
    if b == [] {
      assert a + b == a;
      w := Latest(a);
      assert w + b == w;
    } else {
      var front, e := b[..|b| - 1], b[|b| - 1];
      assert b == front + [e] && a + b == (a + front) + [e];
      var v := LatestKeepsTail(a, front);
      MemoryRuns.LatestSnoc(a + front, e);
      TailStep(v, front, e);
      w := Without(v, e.id);
    }
  }

  lemma DistinctTail(entries: seq<MemoryEntry>, m: nat)
    requires Distinct(LastN(Ids(entries), m))
    ensures LastN(Latest(entries), m) == LastN(entries, m)
  {
    var b := LastN(entries, m);
    IdsOfTail(entries, m);
    IdsDistinct(b);
    if |entries| >= m {
      var a := entries[..|entries| - m];
      assert entries == a + b;
      var w := LatestKeepsTail(a, b);
      LastNOfConcat(w, b, m);
      assert LastN(b, m) == b;
    } else {
      MemoryRuns.LatestOfDistinct(entries);
    }
  }

  lemma DistinctReverse(ids: seq<string>)
    requires Distinct(Reverse(ids))
    ensures Distinct(ids)
  {
    forall i, j | 0 <= i < j < |ids|
      ensures ids[i] != ids[j]
    {
      ReverseAt(ids, |ids| - 1 - i);
      ReverseAt(ids, |ids| - 1 - j);
    }
  }

  lemma NewestPushesIff(cap: Capacity, h: seq<Put>)
    requires Accepted(h) && cap.maxEntries >= 1 && BytesNeverBind(cap, h)
    ensures NewestPushes(EntriesOf(h), cap.maxEntries) == Reverse(Ids(Memory(cap, h)))
       <==> Distinct(LastN(Ids(EntriesOf(h)), cap.maxEntries))
  {
    var entries, m := EntriesOf(h), cap.maxEntries;
    MemoryIsNewest(cap, h);
    if Distinct(LastN(Ids(entries), m)) {
      DistinctTail(entries, m);
      IdsOfTail(entries, m);
    } else {
      MemoryDistinct(cap, h);
      ReversedIdsDistinct(Memory(cap, h));
      if Distinct(Reverse(LastN(Ids(entries), m))) {
        DistinctReverse(LastN(Ids(entries), m));
      }
    }
  }

  /**
    When redis agrees with the in-memory store: its index is the list backwards exactly if the
    last `maxEntries` stores carry pairwise distinct ids. A re-store that comes sooner is listed
    twice by redis and once by the in-memory store.
  */
  lemma RedisIndexAgreesIff(cap: Capacity, cfg: RedisSpec.Config, h: seq<Put>, start: int, now: int)
    requires Accepted(h) && cap.maxEntries >= 1 && cfg.maxEntries == cap.maxEntries && BytesNeverBind(cap, h)
    requires RedisInTime(start, cfg.ttl, h) && InTime(start, cfg.ttl, now)
    ensures RedisSpec.LiveIds(Redis(cfg, h), now) == Reverse(Ids(Memory(cap, h)))
       <==> Distinct(LastN(Ids(EntriesOf(h)), cap.maxEntries))
  {
    RedisIsPushed(cap, cfg, h, start);
    assert RedisSpec.LiveIds(Redis(cfg, h), now) == NewestPushes(EntriesOf(h), cap.maxEntries);
    NewestPushesIff(cap, h);
  }

  /** Every read of a pushed document within the time finds its latest version. */
  lemma PushedReads(latest: seq<MemoryEntry>, b: RedisSpec.Backend, end: int, s: seq<MemoryEntry>, clock: Clock)
    requires Holds(b.docs, latest, end) && forall e :: e in s ==> e in latest
    requires forall k: nat :: clock(k) < end
    ensures AllRead(RedisSpec.GetterOf(b), s, clock)
  {
    forall e, k: nat | e in s ensures RedisSpec.GetterOf(b)(e.id, clock(k)) == Some(e.metadata) {
      assert e in latest && clock(k) < end;
    }
  }

  lemma MemoryReads(cap: Capacity, cfg: RedisSpec.Config, h: seq<Put>, start: int, clock: Clock)
    requires Accepted(h) && cap.maxEntries >= 1 && cfg.maxEntries == cap.maxEntries && BytesNeverBind(cap, h)
    requires RedisInTime(start, cfg.ttl, h) && AllInTime(start, cfg.ttl, clock)
    ensures AllRead(RedisSpec.GetterOf(Redis(cfg, h)), Memory(cap, h), clock)
  {
    RedisIsPushed(cap, cfg, h, start);
    MemoryIsNewest(cap, h);
    assert forall e :: e in Memory(cap, h) ==> e in Latest(EntriesOf(h));
    assert forall k: nat :: InTime(start, cfg.ttl, clock(k));
    PushedReads(Latest(EntriesOf(h)), Redis(cfg, h), start + cfg.ttl, Memory(cap, h), clock);
  }

  /** Under that condition redis lists the same documents for every limit. */
  lemma RedisAgrees(cap: Capacity, cfg: RedisSpec.Config, h: seq<Put>, start: int, limit: int, now: int, clock: Clock)
    requires Accepted(h) && cap.maxEntries >= 1 && cfg.maxEntries == cap.maxEntries && BytesNeverBind(cap, h)
    requires RedisInTime(start, cfg.ttl, h) && InTime(start, cfg.ttl, now) && AllInTime(start, cfg.ttl, clock)
    requires Distinct(LastN(Ids(EntriesOf(h)), cap.maxEntries))
    ensures RedisSpec.List(Redis(cfg, h), limit, cap.maxEntries, now, clock)
         == Newest(Memory(cap, h), if limit <= 0 then cap.maxEntries else limit)
  {
    RedisIndexAgreesIff(cap, cfg, h, start, now);
    MemoryReads(cap, cfg, h, start, clock);
    FoundIsNewest(RedisSpec.GetterOf(Redis(cfg, h)), Memory(cap, h), if limit <= 0 then cap.maxEntries else limit, clock);
  }

  // ---- The full listing of redis -----------------------------------------------------------------

  function MetadataIds(docs: seq<Metadata>): seq<string> {
    if docs == [] then [] else [docs[0].id] + MetadataIds(docs[1..])
  }

  /** Documents that carry the id they are stored under and are all there are listed under exactly the ids read. */
  lemma {:induction false} FoundIds(get: Getter, ids: seq<string>, i: nat, clock: Clock)
    requires i <= |ids|
    requires forall j, k: nat :: 0 <= j < |ids| ==> get(ids[j], clock(k)).Some? && get(ids[j], clock(k)).value.id == ids[j]
    ensures MetadataIds(Found(get, ids, i, clock, ALL_ANSWERED)) == ids[i..]
    decreases |ids| - i
  {
    if i < |ids| {
      FoundIds(get, ids, i + 1, clock);
      var doc := get(ids[i], clock(i));
      assert Found(get, ids, i, clock, ALL_ANSWERED)[1..] == Found(get, ids, i + 1, clock, ALL_ANSWERED);
    }
  }

  lemma MetadataIdsCons(doc: Metadata, docs: seq<Metadata>)
    ensures MetadataIds([doc] + docs) == [doc.id] + MetadataIds(docs)
  {
    assert ([doc] + docs)[1..] == docs;
  }

  lemma ReversedIdsSnoc(front: seq<MemoryEntry>, e: MemoryEntry)
    ensures Reverse(Ids(front + [e])) == [e.id] + Reverse(Ids(front))
  {
    IdsConcat(front, [e]);
    ReverseConcat(Ids(front), [e.id]);
    assert Ids([e]) == [e.id] && Reverse([e.id]) == [e.id];
  }

  /** The ids of the newest documents of a list whose documents carry their ids. */
  lemma {:induction false} NewestIds(s: seq<MemoryEntry>, n: nat)
    requires n >= |s| && forall e :: e in s ==> e.metadata.id == e.id
    ensures MetadataIds(Newest(s, n)) == Reverse(Ids(s))
  {
    if s != [] {
      var front, e := s[..|s| - 1], s[|s| - 1];
      assert e in s && s == front + [e];
      NewestIds(front, n - 1);
      MetadataIdsCons(e.metadata, Newest(front, n - 1));
      ReversedIdsSnoc(front, e);
    }
  }

  lemma {:induction false} HistoryIds(h: seq<Put>)
    requires Accepted(h)
    ensures forall e :: e in EntriesOf(h) ==> e.metadata.id == e.id
  {
    if h != [] {
      HistoryIds(h[..|h| - 1]);
      MemoryLast(Capacity(1, 1), h);
    }
  }

  /** Every id of a history has an entry in its latest view. */
  lemma {:induction false} LatestHasAll(entries: seq<MemoryEntry>, id: string) returns (e: MemoryEntry)
    requires id in Ids(entries)
    ensures e in Latest(entries) && e in entries && e.id == id
  {
    var front, last := entries[..|entries| - 1], entries[|entries| - 1];
    assert entries == front + [last];
    IdsConcat(front, [last]);
    assert Ids([last]) == [last.id];
    if id == last.id {
      e := last;
      assert last in Latest(entries);
    } else {
      e := LatestHasAll(front, id);
      WithoutMembers(Latest(front), last.id);
      assert e in Without(Latest(front), last.id);
    }
  }

  lemma PushedIdRead(h: seq<Put>, b: RedisSpec.Backend, end: int, id: string, now: int)
    requires Accepted(h) && Holds(b.docs, Latest(EntriesOf(h)), end) && now < end && id in Ids(EntriesOf(h))
    ensures RedisSpec.Get(b, id, now).Some? && RedisSpec.Get(b, id, now).value.id == id
  {
    HistoryIds(h);
    var e := LatestHasAll(EntriesOf(h), id);
  }

  lemma PushedIdsRead(h: seq<Put>, m: nat, b: RedisSpec.Backend, end: int, clock: Clock)
    requires Accepted(h) && Holds(b.docs, Latest(EntriesOf(h)), end) && forall k: nat :: clock(k) < end
    ensures var ids, get := NewestPushes(EntriesOf(h), m), RedisSpec.GetterOf(b);
            forall j, k: nat :: 0 <= j < |ids| ==> get(ids[j], clock(k)).Some? && get(ids[j], clock(k)).value.id == ids[j]
  {
    var tail, get := LastN(Ids(EntriesOf(h)), m), RedisSpec.GetterOf(b);
    var ids := Reverse(tail);
    ReverseMembers(tail);
    forall j, k: nat | 0 <= j < |ids| ensures get(ids[j], clock(k)).Some? && get(ids[j], clock(k)).value.id == ids[j] {
      assert ids[j] in ids && ids[j] in tail && clock(k) < end;
      PushedIdRead(h, b, end, ids[j], clock(k));
    }
  }

  lemma RedisListIds(cap: Capacity, cfg: RedisSpec.Config, h: seq<Put>, start: int, now: int, clock: Clock)
    requires Accepted(h) && cap.maxEntries >= 1 && cfg.maxEntries == cap.maxEntries
    requires RedisInTime(start, cfg.ttl, h) && InTime(start, cfg.ttl, now) && AllInTime(start, cfg.ttl, clock)
    ensures MetadataIds(RedisSpec.List(Redis(cfg, h), 0, cap.maxEntries, now, clock))
         == NewestPushes(EntriesOf(h), cap.maxEntries)
  {
    var b, m := Redis(cfg, h), cap.maxEntries;
    var ids := NewestPushes(EntriesOf(h), m);
    RedisIsPushed(cap, cfg, h, start);
    assert RedisSpec.LiveIds(b, now) == ids;
    ReverseLength(LastN(Ids(EntriesOf(h)), m));
    assert Take(ids, m) == ids && ids[0..] == ids;
    assert forall k: nat :: InTime(start, cfg.ttl, clock(k));
    PushedIdsRead(h, m, b, start + cfg.ttl, clock);
    FoundIds(RedisSpec.GetterOf(b), ids, 0, clock);
  }

  lemma MemoryListIds(cap: Capacity, h: seq<Put>)
    ensures MetadataIds(Newest(Memory(cap, h), cap.maxEntries)) == Reverse(Ids(Memory(cap, h)))
  {
    MemoryDistinct(cap, h);
    MemoryRuns.EntriesCarryTheirId(cap, MemoryCalls(h));
    NewestIds(Memory(cap, h), cap.maxEntries);
  }

  /**
    So the full listings agree exactly if the last `maxEntries` stores carry pairwise distinct ids:
    with a repeated id redis shows its document twice.
  */
  lemma RedisListAgreesIff(cap: Capacity, cfg: RedisSpec.Config, h: seq<Put>, start: int, now: int, clock: Clock)
    requires Accepted(h) && cap.maxEntries >= 1 && cfg.maxEntries == cap.maxEntries && BytesNeverBind(cap, h)
    requires RedisInTime(start, cfg.ttl, h) && InTime(start, cfg.ttl, now) && AllInTime(start, cfg.ttl, clock)
    ensures RedisSpec.List(Redis(cfg, h), 0, cap.maxEntries, now, clock) == Newest(Memory(cap, h), cap.maxEntries)
       <==> Distinct(LastN(Ids(EntriesOf(h)), cap.maxEntries))
  {
    if Distinct(LastN(Ids(EntriesOf(h)), cap.maxEntries)) {
      RedisAgrees(cap, cfg, h, start, 0, now, clock);
    } else {
      RedisListIds(cap, cfg, h, start, now, clock);
      MemoryListIds(cap, h);
      NewestPushesIff(cap, h);
    }
  }
}
