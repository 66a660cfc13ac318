/** Expiry in the memcache backend: what sequential stores leave alive, and what `List` shows of it. */
module MemcacheLaws {
  import opened Common
  import opened Keys
  import opened Listing
  import opened MemcacheSpec

  function IdsOf(calls: seq<StoreAt>): seq<string> {
    if calls == [] then [] else IdsOf(calls[..|calls| - 1]) + [calls[|calls| - 1].metadata.id]
  }

  /** The document that the last store of `id` wrote. */
  function LatestOf(calls: seq<StoreAt>, id: string): Option<Metadata> {
    if calls == [] then None
    else if calls[|calls| - 1].metadata.id == id then Some(calls[|calls| - 1].metadata)
    else LatestOf(calls[..|calls| - 1], id)
  }

  /** Within a call the clock does not run backwards, and no call starts before the one before it is done. */
  ghost predicate Sequential(calls: seq<StoreAt>) {
    && (forall k :: 0 <= k < |calls| ==> calls[k].setAt <= calls[k].loadAt <= calls[k].saveAt)
    && (forall i, j :: 0 <= i < j < |calls| ==> calls[i].saveAt <= calls[j].setAt)
  }

  /** The ids of the index, expired or not. */
  function Ids(b: Backend): seq<string> {
    if b.index.Some? then b.index.value.ids else []
  }

  /** The ids have documents, and in the order of the ids their deadlines fall. */
  ghost predicate Falling(docs: map<string, Doc>, ids: seq<string>) {
    && (forall i :: 0 <= i < |ids| ==> ids[i] in docs)
    && (forall i, j :: 0 <= i < j < |ids| ==> docs[ids[i]].deadline >= docs[ids[j]].deadline)
  }

  /** In index order, every listed payload is there and expires no later than the one before it and than the index. */
  ghost predicate DeadlinesFall(b: Backend) {
    && Falling(b.docs, Ids(b))
    && (Ids(b) != [] ==> b.docs[Ids(b)[0]].deadline <= b.index.value.deadline)
  }

  /** Every payload is the latest of its id, expires within one time to live, and is listed unless expired. */
  ghost predicate DocsCurrent(cfg: Config, b: Backend, calls: seq<StoreAt>, now: int) {
    && (forall id :: id in b.docs ==> id in Ids(b) || b.docs[id].deadline <= now)
    && (forall id :: id in b.docs ==> LatestOf(calls, id) == Some(b.docs[id].metadata))
    && (forall id :: id in b.docs ==> b.docs[id].deadline <= now + cfg.ttl)
  }

  /** What sequential stores keep, as of time `now`. */
  ghost predicate Inv(cfg: Config, b: Backend, calls: seq<StoreAt>, now: int) {
    && Distinct(Ids(b))
    && Ids(b) <= RecentIds(IdsOf(calls))
    && DeadlinesFall(b)
    && DocsCurrent(cfg, b, calls, now)
  }

  lemma SequentialPrefix(calls: seq<StoreAt>)
    requires calls != [] && Sequential(calls)
    ensures var before, last := calls[..|calls| - 1], calls[|calls| - 1];
            && Sequential(before) && last.setAt <= last.loadAt <= last.saveAt
            && (before != [] ==> before[|before| - 1].saveAt <= last.setAt)
  {}

  lemma InvLater(cfg: Config, b: Backend, calls: seq<StoreAt>, now: int, later: int)
    requires Inv(cfg, b, calls, now) && now <= later
    ensures Inv(cfg, b, calls, later)
  {}

  /** When the index has expired, so has every payload. */
  lemma LoadedIds(cfg: Config, b: Backend, calls: seq<StoreAt>, now: int, loadAt: int)
    requires Inv(cfg, b, calls, now) && now <= loadAt
    ensures LoadIndex(b, loadAt) == Ids(b)
         || (LoadIndex(b, loadAt) == [] && forall id :: id in b.docs ==> b.docs[id].deadline <= loadAt)
  {
    forall id | id in b.docs && id in Ids(b)
      ensures b.docs[id].deadline <= b.index.value.deadline
    {
      var i :| 0 <= i < |Ids(b)| && Ids(b)[i] == id;
    }
  }

  // ---- Lists with falling deadlines --------------------------------------------------------

  /** Every id of the list has a document that expires no later than `deadline`. */
  ghost predicate AllBy(docs: map<string, Doc>, ids: seq<string>, deadline: int) {
    forall x :: x in ids ==> x in docs && docs[x].deadline <= deadline
  }

  lemma FallingTail(docs: map<string, Doc>, ids: seq<string>)
    requires Falling(docs, ids) && ids != []
    ensures Falling(docs, ids[1..]) && AllBy(docs, ids[1..], docs[ids[0]].deadline)
  {
    forall x | x in ids[1..] ensures x in docs && docs[x].deadline <= docs[ids[0]].deadline {
      var j :| 0 <= j < |ids[1..]| && ids[1..][j] == x;
      assert ids[j + 1] == x;
    }
  }

  lemma FallingCons(docs: map<string, Doc>, x: string, rest: seq<string>)
    requires Falling(docs, rest) && x in docs && AllBy(docs, rest, docs[x].deadline)
    ensures Falling(docs, [x] + rest)
  {
    var ids := [x] + rest;
    forall i | 0 <= i < |ids| ensures ids[i] in docs && docs[ids[i]].deadline <= docs[x].deadline {
      if i > 0 {
        assert ids[i] == rest[i - 1] && rest[i - 1] in rest;
      }
    }
    forall i, j | 0 <= i < j < |ids| ensures docs[ids[i]].deadline >= docs[ids[j]].deadline {
      if i > 0 {
        assert ids[i] == rest[i - 1] && ids[j] == rest[j - 1];
      }
    }
  }

  lemma {:induction false} FallingWithout(docs: map<string, Doc>, ids: seq<string>, id: string)
    requires Falling(docs, ids)
    ensures Falling(docs, IdsWithout(ids, id))
  {
    if ids != [] {
      FallingTail(docs, ids);
      FallingWithout(docs, ids[1..], id);
      IdsWithoutMembers(ids[1..], id);
      if ids[0] != id {
        FallingCons(docs, ids[0], IdsWithout(ids[1..], id));
      }
    }
  }

  lemma FallingPrepended(docs: map<string, Doc>, rest: seq<string>, id: string, doc: Doc)
    requires Falling(docs, rest) && id !in rest && AllBy(docs, rest, doc.deadline)
    ensures Falling(docs[id := doc], [id] + rest)
  {
    var docs' := docs[id := doc];
    forall k | 0 <= k < |rest| ensures rest[k] in docs' && docs'[rest[k]] == docs[rest[k]] {
      assert rest[k] in rest;
    }
    FallingCons(docs', id, rest);
  }

  lemma FallingKept(docs: map<string, Doc>, kept: seq<string>, evicted: seq<string>)
    requires Falling(docs, kept + evicted) && forall x :: x in evicted ==> x !in kept
    ensures Falling(docs - IdSet(evicted), kept)
  {
    forall k | 0 <= k < |kept| ensures (kept + evicted)[k] == kept[k] && kept[k] !in IdSet(evicted) {
      assert kept[k] in kept;
    }
  }

  /** The new index, as a list of ids. */
  lemma KeptStep(cfg: Config, loaded: seq<string>, all: seq<string>, id: string)
    requires loaded <= all && Distinct(loaded)
    ensures var ids := PrependUnique(loaded, id);
            var kept, evicted := KeptIds(cfg, ids), EvictedIds(cfg, ids);
            && kept + evicted == ids && Distinct(ids)
            && kept != [] && kept[0] == id
            && kept <= PrependUnique(all, id)
            && (cfg.maxEntries > 0 ==> |kept| <= cfg.maxEntries)
  {
    PrependToPrefix(loaded, all, id);
    IdsWithoutMembers(loaded, id);
    var rest := IdsWithout(loaded, id);
    forall k | 0 <= k < |rest| ensures rest[k] != id {
      assert rest[k] in rest;
    }
  }

  lemma SplitDistinct(a: seq<string>, b: seq<string>)
    requires Distinct(a + b)
    ensures Distinct(a) && forall x :: x in b ==> x !in a
  {
    assert forall i :: 0 <= i < |a| ==> (a + b)[i] == a[i];
    assert forall i :: 0 <= i < |b| ==> (a + b)[|a| + i] == b[i];
  }

  lemma DeadlinesStep(cfg: Config, b: Backend, call: StoreAt)
    requires var loaded := LoadIndex(b, call.loadAt); Distinct(loaded) && Falling(b.docs, loaded)
    requires call.setAt <= call.saveAt && forall id :: id in b.docs ==> b.docs[id].deadline <= call.setAt + cfg.ttl
    ensures DeadlinesFall(Store(cfg, b, call))
  {
    var id, loaded := call.metadata.id, LoadIndex(b, call.loadAt);
    var rest := IdsWithout(loaded, id);
    IdsWithoutMembers(loaded, id);
    FallingWithout(b.docs, loaded, id);
    FallingPrepended(b.docs, rest, id, Doc(call.metadata, call.setAt + cfg.ttl));
    KeptStep(cfg, loaded, loaded, id);
    var kept, evicted := KeptIds(cfg, [id] + rest), EvictedIds(cfg, [id] + rest);
    SplitDistinct(kept, evicted);
    FallingKept(b.docs[id := Doc(call.metadata, call.setAt + cfg.ttl)], kept, evicted);
    assert id in kept;
  }

  /** A payload that is left after a store is listed, or has expired. */
  lemma ListedOrExpired(cfg: Config, b: Backend, call: StoreAt, x: string)
    requires x in Store(cfg, b, call).docs
    requires x == call.metadata.id || x in LoadIndex(b, call.loadAt) || b.docs[x].deadline <= call.loadAt
    ensures var b' := Store(cfg, b, call);
            x in Ids(b') || b'.docs[x].deadline <= call.loadAt
  {
    var ids := NewIds(b, call);
    IdsWithoutMembers(LoadIndex(b, call.loadAt), call.metadata.id);
    assert KeptIds(cfg, ids) + EvictedIds(cfg, ids) == ids;
    if x in ids {
      assert x in KeptIds(cfg, ids) || x in EvictedIds(cfg, ids);
    } else {
      assert ids[0] == call.metadata.id;
    }
  }

  lemma DocsStep(cfg: Config, b: Backend, calls: seq<StoreAt>, call: StoreAt, now: int)
    requires DocsCurrent(cfg, b, calls, now) && now <= call.setAt <= call.loadAt <= call.saveAt
    requires LoadIndex(b, call.loadAt) == Ids(b)
          || (LoadIndex(b, call.loadAt) == [] && forall id :: id in b.docs ==> b.docs[id].deadline <= call.loadAt)
    ensures DocsCurrent(cfg, Store(cfg, b, call), calls + [call], call.saveAt)
  {
    var b' := Store(cfg, b, call);
    assert (calls + [call])[..|calls|] == calls;
    forall x | x in b'.docs
      ensures x in Ids(b') || b'.docs[x].deadline <= call.saveAt
    {
      ListedOrExpired(cfg, b, call, x);
    }
  }

  lemma StoreKeepsInv(cfg: Config, b: Backend, calls: seq<StoreAt>, call: StoreAt, now: int)
    requires Inv(cfg, b, calls, now)
    requires now <= call.setAt <= call.loadAt <= call.saveAt
    ensures Inv(cfg, Store(cfg, b, call), calls + [call], call.saveAt)
  {
    var id, loaded := call.metadata.id, LoadIndex(b, call.loadAt);
    assert (calls + [call])[..|calls|] == calls;
    LoadedIds(cfg, b, calls, now, call.loadAt);
    KeptStep(cfg, loaded, RecentIds(IdsOf(calls)), id);
    SplitDistinct(KeptIds(cfg, PrependUnique(loaded, id)), EvictedIds(cfg, PrependUnique(loaded, id)));
    assert IdsOf(calls + [call]) == IdsOf(calls) + [id];
    assert IdsOf(calls + [call])[..|IdsOf(calls)|] == IdsOf(calls);
    DeadlinesStep(cfg, b, call);
    DocsStep(cfg, b, calls, call, now);
  }

  /** Between calls, at any time no earlier than the last call, the invariant holds. */
  lemma {:induction false} RunKeepsInv(cfg: Config, calls: seq<StoreAt>, now: int)
    requires Sequential(calls) && (calls != [] ==> calls[|calls| - 1].saveAt <= now)
    ensures Inv(cfg, Run(cfg, calls), calls, now)
  {
    if calls != [] {
      var before, last := calls[..|calls| - 1], calls[|calls| - 1];
      assert calls == before + [last] && Run(cfg, calls) == Store(cfg, Run(cfg, before), last);
      SequentialPrefix(calls);
      RunKeepsInv(cfg, before, last.setAt);
      StoreKeepsInv(cfg, Run(cfg, before), before, last, last.setAt);
      InvLater(cfg, Run(cfg, calls), calls, last.saveAt, now);
    }
  }

  // ---- What `List` shows -------------------------------------------------------------------

  lemma {:induction false} IndexWithinLimit(cfg: Config, calls: seq<StoreAt>)
    ensures cfg.maxEntries > 0 ==> |Ids(Run(cfg, calls))| <= cfg.maxEntries
  {
    if calls != [] {
      IndexWithinLimit(cfg, calls[..|calls| - 1]);
    }
  }

  /** How many of the first ids, read one after another, are alive when they are read. */
  function AliveCount(b: Backend, ids: seq<string>, i: nat, clock: Clock): nat
    decreases |ids| - i
  {
    if i >= |ids| || Get(b, ids[i], clock(i)).None? then 0 else 1 + AliveCount(b, ids, i + 1, clock)
  }

  /** The clock does not run backwards while documents are read. */
  ghost predicate Forward(clock: Clock) {
    forall i: nat, j: nat :: i <= j ==> clock(i) <= clock(j)
  }

  /** With falling deadlines and a clock that moves forward, what is alive when read comes first. */
  lemma {:induction false} AliveComeFirst(b: Backend, ids: seq<string>, i: nat, clock: Clock)
    requires Falling(b.docs, ids) && Forward(clock) && i <= |ids|
    ensures i + AliveCount(b, ids, i, clock) <= |ids|
    ensures forall k :: i <= k < |ids| ==> (Get(b, ids[k], clock(k)).Some? <==> k < i + AliveCount(b, ids, i, clock))
    decreases |ids| - i
  {
    if i < |ids| {
      AliveComeFirst(b, ids, i + 1, clock);
      if Get(b, ids[i], clock(i)).None? {
        forall k | i <= k < |ids| ensures Get(b, ids[k], clock(k)).None? {
          assert clock(i) <= clock(k);
        }
      }
    }
  }

  lemma WantedAt(limit: int, ids: seq<string>)
    ensures |Wanted(limit, ids)| == (if limit <= 0 || limit > |ids| then |ids| else limit)
    ensures forall k :: 0 <= k < |Wanted(limit, ids)| ==> Wanted(limit, ids)[k] == ids[k]
  {
  }

  /** What is found when exactly the first `live` ids are hits as they are read. */
  lemma FoundAlive(get: Getter, ids: seq<string>, live: nat, limit: int, clock: Clock)
    requires live <= |ids| && forall k :: 0 <= k < |ids| ==> (get(ids[k], clock(k)).Some? <==> k < live)
    ensures var shown := Found(get, Wanted(limit, ids), 0, clock, ALL_ANSWERED);
            && |shown| == (if limit <= 0 || limit > live then live else limit)
            && (forall k :: 0 <= k < |shown| ==> get(ids[k], clock(k)) == Some(shown[k]))
  {
    var wanted := Wanted(limit, ids);
    WantedAt(limit, ids);
    FoundFirst(get, wanted, if live <= |wanted| then live else |wanted|, clock);
    var shown := Found(get, wanted, 0, clock, ALL_ANSWERED);
    forall k | 0 <= k < |shown| ensures get(ids[k], clock(k)) == Some(shown[k]) {
      assert wanted[k] == ids[k];
    }
  }

  /** What is found among the first ids of a list with falling deadlines. */
  lemma ShownPrefix(b: Backend, ids: seq<string>, limit: int, clock: Clock)
    requires Falling(b.docs, ids) && Forward(clock)
    ensures var live := AliveCount(b, ids, 0, clock);
            var shown := Found(GetterOf(b), Wanted(limit, ids), 0, clock, ALL_ANSWERED);
            && live <= |ids|
            && |shown| == (if limit <= 0 || limit > live then live else limit)
            && (forall k :: 0 <= k < |shown| ==> Get(b, ids[k], clock(k)) == Some(shown[k]))
            && (live < |ids| ==> Get(b, ids[live], clock(live)).None?)
  {
    AliveComeFirst(b, ids, 0, clock);
    FoundAlive(GetterOf(b), ids, AliveCount(b, ids, 0, clock), limit, clock);
  }

  /** When nothing listed is alive at the time, nothing is alive. */
  lemma AliveAreListed(cfg: Config, b: Backend, calls: seq<StoreAt>, now: int, at: int, n: nat)
    requires Inv(cfg, b, calls, now) && now <= at && n <= |Ids(b)|
    requires n < |Ids(b)| ==> Get(b, Ids(b)[n], at).None?
    ensures forall id :: Get(b, id, at).Some? ==> id in Ids(b)[..n]
  {
    var ids := Ids(b);
    forall k | n <= k < |ids| ensures Get(b, ids[k], at).None? {
      assert n < k ==> b.docs[ids[n]].deadline >= b.docs[ids[k]].deadline;
    }
    forall id | Get(b, id, at).Some? ensures id in ids[..n] {
      var k :| 0 <= k < |ids| && ids[k] == id;
      assert k < n;
      assert ids[..n][k] == id;
    }
  }

  lemma LatestShown(cfg: Config, b: Backend, calls: seq<StoreAt>, now: int, id: string, at: int)
    requires Inv(cfg, b, calls, now)
    ensures Get(b, id, at).Some? ==> LatestOf(calls, id) == Get(b, id, at)
  {
  }

  lemma PrefixAt(ids: seq<string>, recent: seq<string>, n: nat)
    requires ids <= recent && n <= |ids|
    ensures ids[..n] == recent[..n] && forall k :: 0 <= k < n ==> ids[k] == recent[k]
  {
  }

  /** Once the index has expired, nothing is alive. */
  lemma ExpiredIndex(cfg: Config, b: Backend, calls: seq<StoreAt>, now: int, at: int)
    requires Inv(cfg, b, calls, now) && now <= at && LoadIndex(b, now) != Ids(b)
    ensures LoadIndex(b, now) == [] && forall id :: Get(b, id, at).None?
  {
    LoadedIds(cfg, b, calls, now, now);
  }

  lemma ListingOfIndex(cfg: Config, b: Backend, calls: seq<StoreAt>, limit: int, loadAt: int, clock: Clock)
    requires Inv(cfg, b, calls, loadAt) && Forward(clock) && loadAt <= clock(0)
    ensures var recent, shown := RecentIds(IdsOf(calls)), List(b, limit, loadAt, clock);
            var n := |shown|;
            && n <= |Ids(b)| && n <= |recent| && (limit > 0 ==> n <= limit)
            && (forall k :: 0 <= k < n ==>
                  Get(b, recent[k], clock(k)) == Some(shown[k]) && LatestOf(calls, recent[k]) == Some(shown[k]))
            && (limit <= 0 || n < limit ==> forall id :: Get(b, id, clock(n)).Some? ==> id in recent[..n])
  {
    if LoadIndex(b, loadAt) != Ids(b) {
      ExpiredIndex(cfg, b, calls, loadAt, clock(0));
      assert List(b, limit, loadAt, clock) == [];
    } else {
      var ids, shown := Ids(b), List(b, limit, loadAt, clock);
      var n := |shown|;
      ShownPrefix(b, ids, limit, clock);
      PrefixAt(ids, RecentIds(IdsOf(calls)), n);
      forall k | 0 <= k < n ensures LatestOf(calls, ids[k]) == Some(shown[k]) {
        LatestShown(cfg, b, calls, loadAt, ids[k], clock(k));
      }
      assert clock(0) <= clock(n);
      if limit <= 0 || n < limit {
        AliveAreListed(cfg, b, calls, loadAt, clock(n), n);
      }
    }
  }

  /**
    A listing over time: the index is read at `loadAt` and the documents one after another while
    the clock moves forward. What is shown are the latest documents of the most recently stored
    ids, newest first, each alive when it is read; and unless the limit is reached, nothing else is
    alive any more when the listing ends.
  */
  lemma ListingOverTime(cfg: Config, calls: seq<StoreAt>, limit: int, loadAt: int, clock: Clock)
    requires Sequential(calls) && (calls != [] ==> calls[|calls| - 1].saveAt <= loadAt)
    requires Forward(clock) && loadAt <= clock(0)
    ensures var b, recent := Run(cfg, calls), RecentIds(IdsOf(calls));
            var shown := List(b, limit, loadAt, clock);
            var n := |shown|;
            && n <= |recent| && (limit > 0 ==> n <= limit) && (cfg.maxEntries > 0 ==> n <= cfg.maxEntries)
            && (forall k :: 0 <= k < n ==>
                  Get(b, recent[k], clock(k)) == Some(shown[k]) && LatestOf(calls, recent[k]) == Some(shown[k]))
            && (limit <= 0 || n < limit ==> forall id :: Get(b, id, clock(n)).Some? ==> id in recent[..n])
  {
    IndexWithinLimit(cfg, calls);
    RunKeepsInv(cfg, calls, loadAt);
    ListingOfIndex(cfg, Run(cfg, calls), calls, limit, loadAt, clock);
  }

  /** How many documents a listing shows that takes no time. */
  lemma ListLength(cfg: Config, b: Backend, calls: seq<StoreAt>, limit: int, now: int)
    requires Inv(cfg, b, calls, now)
    ensures var clock := (k: nat) => now;
            var live := |List(b, 0, now, clock)|;
            |List(b, limit, now, clock)| == if limit <= 0 || limit > live then live else limit
  {
    var clock := (k: nat) => now;
    if LoadIndex(b, now) != Ids(b) {
      ExpiredIndex(cfg, b, calls, now, now);
    } else {
      ShownPrefix(b, Ids(b), 0, clock);
      ShownPrefix(b, Ids(b), limit, clock);
    }
  }

  lemma LiveIds(cfg: Config, b: Backend, calls: seq<StoreAt>, now: int)
    requires Inv(cfg, b, calls, now)
    ensures var recent, live := RecentIds(IdsOf(calls)), |List(b, 0, now, (k: nat) => now)|;
            && live <= |recent| && live <= |Ids(b)|
            && (forall id :: Get(b, id, now).Some? <==> id in recent[..live])
  {
    var recent, clock := RecentIds(IdsOf(calls)), (k: nat) => now;
    ListingOfIndex(cfg, b, calls, 0, now, clock);
    var live := |List(b, 0, now, clock)|;
    forall id | id in recent[..live] ensures Get(b, id, now).Some? {
      var k :| 0 <= k < live && recent[k] == id;
      assert clock(k) == now;
    }
    assert clock(live) == now;
  }

  /**
    Exactly the recently stored live documents: when a listing takes no time, the payloads alive
    are those of the `live` most recently stored ids, and `List(limit)` returns their latest
    documents, newest first, `limit` of them if there are that many.
  */
  lemma ListShowsRecentLive(cfg: Config, calls: seq<StoreAt>, limit: int, now: int) returns (live: nat)
    requires Sequential(calls) && (calls != [] ==> calls[|calls| - 1].saveAt <= now)
    ensures var b, recent := Run(cfg, calls), RecentIds(IdsOf(calls));
            var shown := List(b, limit, now, (k: nat) => now);
            && live <= |recent|
            && (forall id :: Get(b, id, now).Some? <==> id in recent[..live])
            && |shown| == (if limit <= 0 || limit > live then live else limit)
            && (forall k :: 0 <= k < |shown| ==> LatestOf(calls, recent[k]) == Some(shown[k]))
            && (cfg.maxEntries > 0 ==> live <= cfg.maxEntries)
  {
    IndexWithinLimit(cfg, calls);
    RunKeepsInv(cfg, calls, now);
    live := |List(Run(cfg, calls), 0, now, (k: nat) => now)|;
    LiveIds(cfg, Run(cfg, calls), calls, now);
    ListLength(cfg, Run(cfg, calls), calls, limit, now);
    ListingOfIndex(cfg, Run(cfg, calls), calls, limit, now, (k: nat) => now);
  }

  // ---- Failing servers -----------------------------------------------------------------------

  const NO_FAILURE := StoreAnswers(Answered, Answered, Answered, ALL_ANSWERED)

  lemma {:induction false} AllDeleted(evicted: seq<string>)
    ensures Deleted(evicted, ALL_ANSWERED) == evicted
  {
    if evicted != [] {
      AllDeleted(evicted[..|evicted| - 1]);
    }
  }

  lemma {:induction false} DeletedAreEvicted(evicted: seq<string>, answers: Answers)
    ensures forall id :: id in Deleted(evicted, answers) ==> id in evicted
  {
    if evicted != [] {
      DeletedAreEvicted(evicted[..|evicted| - 1], answers);
    }
  }

  /** When every command is answered, a store succeeds and does what `Store` says. */
  lemma NoFailure(cfg: Config, b: Backend, call: StoreAt)
    ensures StoreUnder(cfg, b, call, NO_FAILURE) == (Stored, Store(cfg, b, call))
  {
    var written := SetDoc(cfg, b, call.metadata, call.setAt, Answered);
    assert NewIds(written, call) == NewIds(b, call);
    AllDeleted(EvictedIds(cfg, NewIds(b, call)));
    assert UpdateIndex(cfg, written, call, NO_FAILURE) == (Stored, Store(cfg, b, call));
  }

  /**
    Whatever the server answers: a store succeeds exactly if its payload write, index read and
    index write are answered; the index is then the new one, and otherwise the new one or the old;
    and no document of another id is changed, or lost by a store that reports a failure.
  */
  lemma FailuresAreContained(cfg: Config, b: Backend, call: StoreAt, answers: StoreAnswers)
    ensures var (r, b') := StoreUnder(cfg, b, call, answers);
            && (r == Stored <==> answers.onSet.Answered? && answers.onLoad.Answered? && answers.onSave.Answered?)
            && (r != Stored ==> r == Refused(BackendFailed))
            && (b'.index == Store(cfg, b, call).index || (r != Stored && b'.index == b.index))
            && (forall id :: id in b'.docs && id != call.metadata.id ==> id in b.docs && b'.docs[id] == b.docs[id])
            && (forall id :: id in b.docs && id !in b'.docs ==> r == Stored && id in EvictedIds(cfg, NewIds(b, call)))
  {
    var ids := NewIds(b, call);
    DeletedAreEvicted(EvictedIds(cfg, ids), answers.onDelete);
    assert LoadIndex(SetDoc(cfg, b, call.metadata, call.setAt, answers.onSet), call.loadAt) == LoadIndex(b, call.loadAt);
  }

  /** So the index stays free of duplicates and within the limit, whatever fails. */
  lemma IndexSurvives(cfg: Config, b: Backend, call: StoreAt, answers: StoreAnswers)
    requires Distinct(Ids(b)) && (cfg.maxEntries > 0 ==> |Ids(b)| <= cfg.maxEntries)
    ensures var ids := Ids(StoreUnder(cfg, b, call, answers).1);
            Distinct(ids) && (cfg.maxEntries > 0 ==> |ids| <= cfg.maxEntries)
  {
    FailuresAreContained(cfg, b, call, answers);
    var loaded := LoadIndex(b, call.loadAt);
    KeptStep(cfg, loaded, loaded, call.metadata.id);
    SplitDistinct(KeptIds(cfg, NewIds(b, call)), EvictedIds(cfg, NewIds(b, call)));
  }
}
