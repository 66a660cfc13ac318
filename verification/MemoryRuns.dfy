/** What the in-memory store holds after any run of calls, against the history of those calls. */
module MemoryRuns {
  import opened Common
  import opened Recency

  // ---- Runs and what they are compared with --------------------------------------------

  /** The store after the calls `events`, in the order they took the lock. */
  function Run(cap: Capacity, events: seq<Event>): seq<MemoryEntry> {
    if events == [] then []
    else Apply(cap, Run(cap, events[..|events| - 1]), events[|events| - 1])
  }

  /** The call stores an entry. */
  predicate Stores(event: Event) {
    event.StoreCall? && Check(event.metadata) == Stored
  }

  /** Every entry that a `Store` call accepted, in order. */
  function History(events: seq<Event>): seq<MemoryEntry> {
    if events == [] then []
    else
      var last := events[|events| - 1];
      History(events[..|events| - 1]) +
      if Stores(last) then [EntryOf(last.metadata.value, last.now)] else []
  }

  /** The greatest age cutoff that any effective `Cleanup` call used. */
  function GreatestCutoff(events: seq<Event>): Option<int> {
    if events == [] then None
    else
      var before := GreatestCutoff(events[..|events| - 1]);
      var last := events[|events| - 1];
      if last.StoreCall? || last.maxAge <= 0 then before
      else if before.Some? && last.now - last.maxAge <= before.value then before
      else Some(last.now - last.maxAge)
  }

  /**
    The clock never runs backwards as a `Store` sees it. `Store` reads it under the lock,
    `Cleanup` before taking the lock, so a cleanup's reading may be behind an earlier store's.
  */
  ghost predicate ClockOrdered(events: seq<Event>) {
    forall i, j :: 0 <= i < j < |events| && events[j].StoreCall? ==> events[i].now <= events[j].now
  }

  /** No entry is stored again under its id with fewer bytes than before. */
  ghost predicate NonShrinking(h: seq<MemoryEntry>) {
    forall i, j :: 0 <= i < j < |h| && h[i].id == h[j].id ==> h[i].bytes <= h[j].bytes
  }

  // ---- The history ---------------------------------------------------------------------

  lemma ClockOrderedPrefix(events: seq<Event>)
    requires events != [] && ClockOrdered(events)
    ensures ClockOrdered(events[..|events| - 1])
    ensures var before, last := events[..|events| - 1], events[|events| - 1];
            last.StoreCall? ==> forall k :: 0 <= k < |before| ==> before[k].now <= last.now
  {}

  lemma RunSnoc(cap: Capacity, events: seq<Event>, last: Event)
    ensures Run(cap, events + [last]) == Apply(cap, Run(cap, events), last)
    ensures Stores(last) ==> History(events + [last]) == History(events) + [EntryOf(last.metadata.value, last.now)]
    ensures last.StoreCall? ==> GreatestCutoff(events + [last]) == GreatestCutoff(events)
  {
    assert (events + [last])[..|events|] == events;
  }

  lemma LatestSnoc(h: seq<MemoryEntry>, e: MemoryEntry)
    ensures Latest(h + [e]) == Without(Latest(h), e.id) + [e]
  {
    assert (h + [e])[..|h|] == h;
  }

  lemma {:induction false} BoundedByClock(events: seq<Event>, now: int)
    requires forall k :: 0 <= k < |events| ==> events[k].now <= now
    ensures forall k :: 0 <= k < |History(events)| ==> History(events)[k].createdAt <= now
    ensures GreatestCutoff(events).Some? ==> GreatestCutoff(events).value <= now
  {
    if events != [] {
      BoundedByClock(events[..|events| - 1], now);
    }
  }

  lemma {:induction false} HistoryInTimeOrder(events: seq<Event>)
    requires ClockOrdered(events)
    ensures InTimeOrder(History(events))
  {
    if events != [] {
      var before, last := events[..|events| - 1], events[|events| - 1];
      HistoryInTimeOrder(before);
      if last.StoreCall? {
        BoundedByClock(before, last.now);
      }
    }
  }

  /** Appending a newer entry with a new id keeps ids distinct and times in order. */
  lemma LatestSorted(kept: seq<MemoryEntry>, before: seq<MemoryEntry>, last: MemoryEntry)
    requires forall e :: e in kept ==> e in before && e.id != last.id
    ensures DistinctIds(kept) ==> DistinctIds(kept + [last])
    ensures InTimeOrder(kept) && InTimeOrder(before + [last]) ==> InTimeOrder(kept + [last])
  {
    forall k | 0 <= k < |kept|
      ensures kept[k].id != last.id
      ensures InTimeOrder(before + [last]) ==> kept[k].createdAt <= last.createdAt
    {
      assert kept[k] in kept;
      var j :| 0 <= j < |before| && before[j] == kept[k];
      assert (before + [last])[j] == kept[k] && (before + [last])[|before|] == last;
    }
  }

  lemma {:induction false} LatestFromHistory(h: seq<MemoryEntry>)
    ensures DistinctIds(Latest(h))
    ensures forall e :: e in Latest(h) ==> e in h
    ensures InTimeOrder(h) ==> InTimeOrder(Latest(h))
  {
    if h != [] {
      var before, last := h[..|h| - 1], h[|h| - 1];
      LatestFromHistory(before);
      WithoutMembers(Latest(before), last.id);
      WithoutKeepsOrder(Latest(before), last.id);
      assert h == before + [last];
      LatestSorted(Without(Latest(before), last.id), before, last);
    }
  }

  lemma DistinctSnoc(h: seq<MemoryEntry>, e: MemoryEntry)
    requires DistinctIds(h + [e])
    ensures DistinctIds(h) && forall k :: 0 <= k < |h| ==> h[k].id != e.id
  {
    assert forall k :: 0 <= k < |h| ==> (h + [e])[k] == h[k];
    assert (h + [e])[|h|] == e;
  }

  /** With pairwise distinct ids the history is its own latest view. */
  lemma {:induction false} LatestOfDistinct(h: seq<MemoryEntry>)
    requires DistinctIds(h)
    ensures Latest(h) == h
  {
    if h != [] {
      var front, last := h[..|h| - 1], h[|h| - 1];
      assert h == front + [last];
      DistinctSnoc(front, last);
      LatestOfDistinct(front);
      WithoutAbsent(front, last.id);
    }
  }

  lemma NonShrinkingSnoc(h: seq<MemoryEntry>, e: MemoryEntry)
    requires NonShrinking(h + [e])
    ensures NonShrinking(h)
    ensures forall x :: x in h && x.id == e.id ==> x.bytes <= e.bytes
  {
    assert forall i :: 0 <= i < |h| ==> (h + [e])[i] == h[i];
    assert (h + [e])[|h|] == e;
  }

  // ---- One call, against the latest view -----------------------------------------------

  /** Replacing an entry by `e`, or adding `e`, never makes the list shorter or smaller. */
  lemma Displaced(r: seq<MemoryEntry>, e: MemoryEntry)
    requires DistinctIds(r)
    requires forall k :: 0 <= k < |r| && r[k].id == e.id ==> r[k].bytes <= e.bytes
    ensures var t := Without(r, e.id) + [e]; |r| <= |t| && TotalBytes(r) <= TotalBytes(t)
  {
    TotalBytesConcat(Without(r, e.id), [e]);
    if k :| 0 <= k < |r| && r[k].id == e.id {
      WithoutSplit(r, k);
    } else {
      WithoutAbsent(r, e.id);
    }
  }

  /** The last entry that `Without` leaves of `p` is the last of `p`, unless that one carries the id. */
  lemma LastLeft(p: seq<MemoryEntry>, id: string)
    requires Without(p, id) != []
    ensures p != [] && Without(p, id)[|Without(p, id)| - 1] in p
    ensures p[|p| - 1].id != id ==> Without(p, id)[|Without(p, id)| - 1] == p[|p| - 1]
  {
    var y := p[|p| - 1];
    assert p == p[..|p| - 1] + [y];
    WithoutConcat(p[..|p| - 1], [y], id);
    WithoutMembers(p, id);
  }

  lemma LastIsNewest(p: seq<MemoryEntry>, x: MemoryEntry)
    requires InTimeOrder(p) && x in p
    ensures x.createdAt <= p[|p| - 1].createdAt
  {
    var i :| 0 <= i < |p| && p[i] == x;
  }

  lemma Parts(p: seq<MemoryEntry>, r: seq<MemoryEntry>, e: MemoryEntry)
    requires DistinctIds(p + r) && InTimeOrder(p + r)
    requires forall x :: x in p + r && x.id == e.id ==> x.bytes <= e.bytes
    ensures DistinctIds(r) && InTimeOrder(p)
    ensures forall k :: 0 <= k < |r| && r[k].id == e.id ==> r[k].bytes <= e.bytes
    ensures p != [] && p[|p| - 1].id == e.id ==>
              p[|p| - 1].bytes <= e.bytes && forall k :: 0 <= k < |r| ==> r[k].id != e.id
  {
    assert forall k :: 0 <= k < |p| ==> p[k] == (p + r)[k];
    assert forall k :: 0 <= k < |r| ==> r[k] == (p + r)[|p| + k] && r[k] in p + r;
    assert p != [] ==> p[|p| - 1] in p + r;
  }

  /**
    Storing `e` never makes room for an older entry, as long as `e` is no smaller than the
    entry it replaces: if one fits before the kept entries now, one fitted before the call.
  */
  lemma RoomBefore(cap: Capacity, cutoff: Option<int>, p: seq<MemoryEntry>, r: seq<MemoryEntry>, e: MemoryEntry)
    requires DistinctIds(p + r) && InTimeOrder(p + r)
    requires forall x :: x in p + r && x.id == e.id ==> x.bytes <= e.bytes
    requires Admissible(cap, cutoff, r) && Without(p, e.id) != []
    requires var w := Without(p, e.id); Admissible(cap, cutoff, [w[|w| - 1]] + (Without(r, e.id) + [e]))
    ensures p != [] && Admissible(cap, cutoff, [p[|p| - 1]] + r)
  {
    Parts(p, r, e);
    LastLeft(p, e.id);
    var y, w := p[|p| - 1], Without(p, e.id);
    var x, t := w[|w| - 1], Without(r, e.id) + [e];
    LastIsNewest(p, x);
    Displaced(r, e);
    TotalBytesConcat([y], r);
    TotalBytesConcat([x], t);
    if y.id == e.id {
      WithoutAbsent(r, e.id);
      TotalBytesConcat(r, [e]);
    }
    assert ([x] + t)[0] == x;
    assert Fits(cap, [y] + r);
  }

  /** Putting more in front of `t` changes nothing if not even one more entry fits there. */
  lemma LongestOfConcat(cap: Capacity, cutoff: Option<int>, w: seq<MemoryEntry>, t: seq<MemoryEntry>, x: seq<MemoryEntry>)
    requires IsLongestAdmissible(cap, cutoff, x, t)
    requires w != [] ==> !Admissible(cap, cutoff, [w[|w| - 1]] + t)
    ensures IsLongestAdmissible(cap, cutoff, x, w + t)
  {
    var s := w + t;
    assert x == s[|s| - |x|..];
    forall j | 0 <= j < |s| - |x|
      ensures !Admissible(cap, cutoff, s[j..])
    {
      if j < |w| {
        assert s[j..][|w| - 1 - j..] == [w[|w| - 1]] + t;
        if Admissible(cap, cutoff, s[j..]) {
          AdmissibleSuffix(cap, cutoff, s[j..], |w| - 1 - j);
        }
      } else {
        assert s[j..] == t[j - |w|..];
      }
    }
  }

  /** Eviction also keeps the longest admissible suffix when nothing in the list is too old. */
  lemma EvictIsLongestAdmissible(cap: Capacity, cutoff: Option<int>, t: seq<MemoryEntry>)
    requires cutoff.Some? ==> forall k :: 0 <= k < |t| ==> cutoff.value <= t[k].createdAt
    ensures IsLongestAdmissible(cap, cutoff, Evict(cap, t), t)
  {
    EvictIsLongest(cap, t);
    var x := Evict(cap, t);
    forall j | 0 <= j < |t| - |x|
      ensures !Admissible(cap, cutoff, t[j..])
    {
      assert !Admissible(cap, None, t[j..]);
    }
  }

  lemma NoRoomBefore(cap: Capacity, cutoff: Option<int>, p: seq<MemoryEntry>, r: seq<MemoryEntry>, e: MemoryEntry)
    requires IsLongestAdmissible(cap, cutoff, r, p + r)
    requires DistinctIds(p + r) && InTimeOrder(p + r)
    requires forall x :: x in p + r && x.id == e.id ==> x.bytes <= e.bytes
    requires Without(p, e.id) != []
    ensures var w := Without(p, e.id); !Admissible(cap, cutoff, [w[|w| - 1]] + (Without(r, e.id) + [e]))
  {
    var w := Without(p, e.id);
    assert p != [] && (p + r)[|p| - 1..] == [p[|p| - 1]] + r;
    if Admissible(cap, cutoff, [w[|w| - 1]] + (Without(r, e.id) + [e])) {
      RoomBefore(cap, cutoff, p, r, e);
    }
  }

  /** The newest of the lost entries is too old, or does not fit in front of `t`. */
  predicate NothingFits(cap: Capacity, cutoff: Option<int>, lost: seq<MemoryEntry>, t: seq<MemoryEntry>) {
    lost != [] ==>
      || |t| >= cap.maxEntries
      || lost[|lost| - 1].bytes + TotalBytes(t) > cap.maxBytes
      || (cutoff.Some? && lost[|lost| - 1].createdAt < cutoff.value)
  }

  lemma NothingFitsIff(cap: Capacity, cutoff: Option<int>, lost: seq<MemoryEntry>, t: seq<MemoryEntry>)
    requires lost != [] && (cutoff.Some? ==> forall k :: 0 <= k < |t| ==> cutoff.value <= t[k].createdAt)
    ensures Admissible(cap, cutoff, [lost[|lost| - 1]] + t) <==> !NothingFits(cap, cutoff, lost, t)
  {
    var x := lost[|lost| - 1];
    TotalBytesConcat([x], t);
    assert [x][1..] == [] && ([x] + t)[0] == x;
  }

  /**
    Storing `e` is regretted: the newest entry that the store has already lost, and that keeps its
    id, would fit before everything the store keeps and `e`. Then the eviction it fell to is not
    undone. `r` is what the store holds and `s` everything it was given, latest entries only.
  */
  predicate Regrets(cap: Capacity, cutoff: Option<int>, r: seq<MemoryEntry>, s: seq<MemoryEntry>, e: MemoryEntry)
    requires |r| <= |s|
  {
    !NothingFits(cap, cutoff, Without(s[..|s| - |r|], e.id), Without(r, e.id) + [e])
  }

  lemma WithoutKeepsYoung(r: seq<MemoryEntry>, id: string, c: int)
    requires forall k :: 0 <= k < |r| ==> c <= r[k].createdAt
    ensures forall k :: 0 <= k < |Without(r, id)| ==> c <= Without(r, id)[k].createdAt
  {
    WithoutMembers(r, id);
    forall k | 0 <= k < |Without(r, id)| ensures Without(r, id)[k] in r {
      assert Without(r, id)[k] in Without(r, id);
    }
  }

  /** What eviction leaves of `t` is also the longest admissible suffix of `lost + t` exactly if nothing lost fits too. */
  lemma EvictExactIff(cap: Capacity, cutoff: Option<int>, lost: seq<MemoryEntry>, t: seq<MemoryEntry>)
    requires cutoff.Some? ==> forall k :: 0 <= k < |t| ==> cutoff.value <= t[k].createdAt
    ensures IsLongestAdmissible(cap, cutoff, Evict(cap, t), lost + t) <==> NothingFits(cap, cutoff, lost, t)
  {
    EvictIsLongestAdmissible(cap, cutoff, t);
    if lost != [] {
      NothingFitsIff(cap, cutoff, lost, t);
      assert (lost + t)[|lost| - 1..] == [lost[|lost| - 1]] + t;
    }
    if NothingFits(cap, cutoff, lost, t) {
      LongestOfConcat(cap, cutoff, lost, t, Evict(cap, t));
    }
  }

  /**
    One store keeps the longest admissible suffix the longest exactly if it is not regretted,
    whatever the ids, sizes and times of the entries.
  */
  lemma StoreExactIff(cap: Capacity, cutoff: Option<int>, r: seq<MemoryEntry>, s: seq<MemoryEntry>, e: MemoryEntry)
    requires IsLongestAdmissible(cap, cutoff, r, s)
    requires cutoff.Some? ==> cutoff.value <= e.createdAt
    ensures IsLongestAdmissible(cap, cutoff, Evict(cap, Without(r, e.id) + [e]), Without(s, e.id) + [e])
       <==> !Regrets(cap, cutoff, r, s, e)
  {
    var p := s[..|s| - |r|];
    var lost, kept := Without(p, e.id), Without(r, e.id);
    assert s == p + r;
    WithoutConcat(p, r, e.id);
    assert Without(s, e.id) + [e] == lost + (kept + [e]);
    if cutoff.Some? {
      WithoutKeepsYoung(r, e.id, cutoff.value);
    }
    EvictExactIff(cap, cutoff, lost, kept + [e]);
  }

  lemma LargerLeavesNoRoom(cap: Capacity, cutoff: Option<int>, p: seq<MemoryEntry>, r: seq<MemoryEntry>, e: MemoryEntry)
    requires IsLongestAdmissible(cap, cutoff, r, p + r)
    requires DistinctIds(p + r) && InTimeOrder(p + r)
    requires forall x :: x in p + r && x.id == e.id ==> x.bytes <= e.bytes
    requires cutoff.Some? ==> cutoff.value <= e.createdAt
    ensures NothingFits(cap, cutoff, Without(p, e.id), Without(r, e.id) + [e])
  {
    if Without(p, e.id) != [] {
      if cutoff.Some? {
        WithoutKeepsYoung(r, e.id, cutoff.value);
      }
      NoRoomBefore(cap, cutoff, p, r, e);
      NothingFitsIff(cap, cutoff, Without(p, e.id), Without(r, e.id) + [e]);
    }
  }

  /** No regret when the new entry is no smaller than the one it replaces. */
  lemma LargerIsNotRegretted(cap: Capacity, cutoff: Option<int>, r: seq<MemoryEntry>, s: seq<MemoryEntry>, e: MemoryEntry)
    requires IsLongestAdmissible(cap, cutoff, r, s)
    requires DistinctIds(s) && InTimeOrder(s)
    requires forall x :: x in s && x.id == e.id ==> x.bytes <= e.bytes
    requires cutoff.Some? ==> cutoff.value <= e.createdAt
    ensures !Regrets(cap, cutoff, r, s, e)
  {
    var p := s[..|s| - |r|];
    assert s == p + r;
    LargerLeavesNoRoom(cap, cutoff, p, r, e);
  }

  lemma StricterCutoff(cap: Capacity, cutoff: Option<int>, stricter: Option<int>, s: seq<MemoryEntry>)
    requires cutoff.Some? ==> stricter.Some? && cutoff.value <= stricter.value
    ensures Admissible(cap, stricter, s) ==> Admissible(cap, cutoff, s)
  {
  }

  lemma TooOldFirst(cap: Capacity, cutoff: Option<int>, s: seq<MemoryEntry>)
    requires s != [] && cutoff.Some? && s[0].createdAt < cutoff.value
    ensures !Admissible(cap, cutoff, s)
  {
  }

  /** What of a suffix is not older than `c`, and that whatever reaches further back within the suffix is. */
  lemma YoungSuffix(r: seq<MemoryEntry>, s: seq<MemoryEntry>, c: int)
    requires IsSuffix(r, s) && InTimeOrder(s)
    ensures IsSuffix(NotBefore(r, c), r) && IsSuffix(NotBefore(r, c), s)
    ensures forall k :: 0 <= k < |NotBefore(r, c)| ==> c <= NotBefore(r, c)[k].createdAt
    ensures forall j :: |s| - |r| <= j < |s| - |NotBefore(r, c)| ==> s[j].createdAt < c
  {
    var d, kept := |s| - |r|, NotBefore(r, c);
    assert forall k :: 0 <= k < |r| ==> r[k] == s[d + k];
    NotBeforeIsSuffix(r, c);
    assert forall k :: 0 <= k < |kept| ==> kept[k] == r[|r| - |kept| + k];
    assert forall j :: d <= j < |s| ==> s[j] == r[j - d];
  }

  lemma CleanupKeepsLongest(cap: Capacity, cutoff: Option<int>, r: seq<MemoryEntry>, s: seq<MemoryEntry>, c: int)
    requires IsLongestAdmissible(cap, cutoff, r, s) && InTimeOrder(s)
    ensures IsLongestAdmissible(cap, if cutoff.Some? && c <= cutoff.value then cutoff else Some(c), NotBefore(r, c), s)
  {
    var cutoff' := if cutoff.Some? && c <= cutoff.value then cutoff else Some(c);
    var kept := NotBefore(r, c);
    YoungSuffix(r, s, c);
    AdmissibleSuffix(cap, cutoff, r, |r| - |kept|);
    forall j | 0 <= j < |s| - |kept|
      ensures !Admissible(cap, cutoff', s[j..])
    {
      if j < |s| - |r| {
        StricterCutoff(cap, cutoff, cutoff', s[j..]);
      } else {
        TooOldFirst(cap, cutoff', s[j..]);
      }
    }
  }

  // ---- Main results --------------------------------------------------------------------

  /** Age cleanup keeps exactly the entries that are not older than the cutoff. */
  lemma {:induction false} NotBeforeKeeps(s: seq<MemoryEntry>, cutoff: int)
    ensures forall e :: e in NotBefore(s, cutoff) <==> e in s && cutoff <= e.createdAt
    ensures DistinctIds(s) ==> DistinctIds(NotBefore(s, cutoff))
  {
    if s != [] {
      NotBeforeKeeps(s[1..], cutoff);
      assert s == [s[0]] + s[1..];
      var rest := NotBefore(s[1..], cutoff);
      assert forall k :: 0 <= k < |rest| ==> rest[k] in s[1..];
    }
  }

  lemma ApplyKeepsInvariant(cap: Capacity, s: seq<MemoryEntry>, event: Event)
    requires DistinctIds(s) && Fits(cap, s)
    ensures DistinctIds(Apply(cap, s, event)) && Fits(cap, Apply(cap, s, event))
  {
    match event
    case StoreCall(metadata, now) =>
      if Check(metadata) == Stored {
        var e := EntryOf(metadata.value, now);
        WithoutMembers(s, e.id);
        WithoutKeepsOrder(s, e.id);
        LatestSorted(Without(s, e.id), s, e);
        EvictIsLongest(cap, Without(s, e.id) + [e]);
      }
    case CleanupCall(maxAge, now) =>
      NotBeforeKeeps(s, now - maxAge);
      NotBeforeFits(cap, s, now - maxAge);
  }

  /** Ids stay distinct and both limits hold after every run, whatever the clock does. */
  lemma {:induction false} RunInvariant(cap: Capacity, events: seq<Event>)
    ensures DistinctIds(Run(cap, events)) && Fits(cap, Run(cap, events))
  {
    if events != [] {
      RunInvariant(cap, events[..|events| - 1]);
      ApplyKeepsInvariant(cap, Run(cap, events[..|events| - 1]), events[|events| - 1]);
    }
  }

  lemma LatestInTimeOrder(events: seq<Event>)
    requires ClockOrdered(events)
    ensures InTimeOrder(Latest(History(events)))
  {
    HistoryInTimeOrder(events);
    LatestFromHistory(History(events));
  }

  lemma CleanupSnoc(cap: Capacity, before: seq<Event>, last: Event)
    requires last.CleanupCall? && last.maxAge > 0
    ensures var events, cutoff, c := before + [last], GreatestCutoff(before), last.now - last.maxAge;
            && Run(cap, events) == NotBefore(Run(cap, before), c)
            && History(events) == History(before)
            && GreatestCutoff(events) == if cutoff.Some? && c <= cutoff.value then cutoff else Some(c)
  {
    assert (before + [last])[..|before|] == before;
  }

  /** A refused store, and a cleanup without an age, change nothing. */
  lemma IdleSnoc(cap: Capacity, before: seq<Event>, last: Event)
    requires !Stores(last) && (last.CleanupCall? ==> last.maxAge <= 0)
    ensures var events := before + [last];
            && Run(cap, events) == Run(cap, before)
            && History(events) == History(before)
            && GreatestCutoff(events) == GreatestCutoff(before)
  {
    assert (before + [last])[..|before|] == before;
  }

  lemma ExactCleanup(cap: Capacity, before: seq<Event>, last: Event)
    requires IsLongestAdmissible(cap, GreatestCutoff(before), Run(cap, before), Latest(History(before)))
    requires ClockOrdered(before) && last.CleanupCall? && last.maxAge > 0
    ensures IsLongestAdmissible(cap, GreatestCutoff(before + [last]), Run(cap, before + [last]), Latest(History(before + [last])))
  {
    LatestInTimeOrder(before);
    CleanupSnoc(cap, before, last);
    CleanupKeepsLongest(cap, GreatestCutoff(before), Run(cap, before), Latest(History(before)), last.now - last.maxAge);
  }

  /** The store holds the longest admissible suffix of the latest view of its history. */
  ghost predicate Exact(cap: Capacity, events: seq<Event>) {
    IsLongestAdmissible(cap, GreatestCutoff(events), Run(cap, events), Latest(History(events)))
  }

  /** The store is exact now and was after every earlier call. */
  ghost predicate AlwaysExact(cap: Capacity, events: seq<Event>) {
    Exact(cap, events) && (events == [] || AlwaysExact(cap, events[..|events| - 1]))
  }

  /** The call is a store that is regretted after the calls `before`. */
  predicate Regretted(cap: Capacity, before: seq<Event>, event: Event) {
    && Stores(event)
    && |Run(cap, before)| <= |Latest(History(before))|
    && Regrets(cap, GreatestCutoff(before), Run(cap, before), Latest(History(before)),
               EntryOf(event.metadata.value, event.now))
  }

  predicate NoRegret(cap: Capacity, events: seq<Event>) {
    events == [] ||
    (NoRegret(cap, events[..|events| - 1]) && !Regretted(cap, events[..|events| - 1], events[|events| - 1]))
  }

  /** From an exact store, one more call leaves it exact exactly if the call is not a regretted store. */
  lemma StaysExactIff(cap: Capacity, before: seq<Event>, last: Event)
    requires ClockOrdered(before + [last]) && Exact(cap, before)
    ensures Exact(cap, before + [last]) <==> !Regretted(cap, before, last)
  {
    RunSnoc(cap, before, last);
    ClockOrderedPrefix(before + [last]);
    assert (before + [last])[..|before|] == before;
    if Stores(last) {
      var e := EntryOf(last.metadata.value, last.now);
      BoundedByClock(before, last.now);
      LatestSnoc(History(before), e);
      StoreExactIff(cap, GreatestCutoff(before), Run(cap, before), Latest(History(before)), e);
    } else if last.CleanupCall? && last.maxAge > 0 {
      ExactCleanup(cap, before, last);
    } else {
      IdleSnoc(cap, before, last);
    }
  }

  /**
    The exact content of the store, and when: all through a run the store holds the longest suffix
    of the latest view of its history that respects both limits and contains nothing older than
    the greatest cutoff so far, exactly if no store of the run is regretted.
  */
  lemma {:induction false} AlwaysExactIff(cap: Capacity, events: seq<Event>)
    requires ClockOrdered(events)
    ensures AlwaysExact(cap, events) <==> NoRegret(cap, events)
  {
    if events != [] {
      var before, last := events[..|events| - 1], events[|events| - 1];
      assert events == before + [last];
      ClockOrderedPrefix(events);
      AlwaysExactIff(cap, before);
      if AlwaysExact(cap, before) {
        StaysExactIff(cap, before, last);
      }
    }
  }

  lemma LargerStore(cap: Capacity, before: seq<Event>, last: Event)
    requires ClockOrdered(before) && NoRegret(cap, before) && Stores(last)
    requires forall k :: 0 <= k < |before| ==> before[k].now <= last.now
    requires var e := EntryOf(last.metadata.value, last.now);
             forall x :: x in History(before) && x.id == e.id ==> x.bytes <= e.bytes
    ensures !Regretted(cap, before, last)
  {
    var e := EntryOf(last.metadata.value, last.now);
    AlwaysExactIff(cap, before);
    HistoryInTimeOrder(before);
    LatestFromHistory(History(before));
    BoundedByClock(before, last.now);
    LargerIsNotRegretted(cap, GreatestCutoff(before), Run(cap, before), Latest(History(before)), e);
  }

  /** When no entry is stored again with fewer bytes, no store is regretted. */
  lemma {:induction false} NonShrinkingNoRegret(cap: Capacity, events: seq<Event>)
    requires ClockOrdered(events) && NonShrinking(History(events))
    ensures NoRegret(cap, events)
  {
    if events != [] {
      var before, last := events[..|events| - 1], events[|events| - 1];
      ClockOrderedPrefix(events);
      if Stores(last) {
        NonShrinkingSnoc(History(before), EntryOf(last.metadata.value, last.now));
        NonShrinkingNoRegret(cap, before);
        LargerStore(cap, before, last);
      } else {
        assert History(events) == History(before);
        NonShrinkingNoRegret(cap, before);
      }
    }
  }

  /** In particular the store is exact after every run in which no entry is stored again with fewer bytes. */
  lemma ExactHistory(cap: Capacity, events: seq<Event>)
    requires ClockOrdered(events) && NonShrinking(History(events))
    ensures IsLongestAdmissible(cap, GreatestCutoff(events), Run(cap, events), Latest(History(events)))
  {
    NonShrinkingNoRegret(cap, events);
    AlwaysExactIff(cap, events);
  }

  /** With pairwise distinct ids, as fresh request ids are, the reference is the history itself. */
  lemma ExactHistoryFreshIds(cap: Capacity, events: seq<Event>)
    requires ClockOrdered(events) && DistinctIds(History(events))
    ensures IsLongestAdmissible(cap, GreatestCutoff(events), Run(cap, events), History(events))
  {
    ExactHistory(cap, events);
    LatestOfDistinct(History(events));
  }

  lemma SuffixStep(cap: Capacity, r: seq<MemoryEntry>, s: seq<MemoryEntry>, e: MemoryEntry)
    requires IsSuffix(r, s)
    ensures IsSuffix(Evict(cap, Without(r, e.id) + [e]), Without(s, e.id) + [e])
  {
    var p := s[..|s| - |r|];
    assert s == p + r;
    WithoutConcat(p, r, e.id);
    var t, all := Without(r, e.id) + [e], Without(s, e.id) + [e];
    EvictIsLongest(cap, t);
    var x := Evict(cap, t);
    assert all == Without(p, e.id) + t;
    assert all[|all| - |x|..] == t[|t| - |x|..];
  }

  lemma SuffixCleanup(r: seq<MemoryEntry>, s: seq<MemoryEntry>, cutoff: int)
    requires IsSuffix(r, s) && InTimeOrder(s)
    ensures IsSuffix(NotBefore(r, cutoff), s)
  {
    assert forall k :: 0 <= k < |r| ==> r[k] == s[|s| - |r| + k];
    NotBeforeIsSuffix(r, cutoff);
  }

  lemma SuffixAfter(cap: Capacity, before: seq<Event>, last: Event)
    requires ClockOrdered(before) && IsSuffix(Run(cap, before), Latest(History(before)))
    ensures IsSuffix(Run(cap, before + [last]), Latest(History(before + [last])))
  {
    var r, s := Run(cap, before), Latest(History(before));
    RunSnoc(cap, before, last);
    if Stores(last) {
      var e := EntryOf(last.metadata.value, last.now);
      LatestSnoc(History(before), e);
      SuffixStep(cap, r, s, e);
    } else if last.CleanupCall? && last.maxAge > 0 {
      CleanupSnoc(cap, before, last);
      LatestInTimeOrder(before);
      SuffixCleanup(r, s, last.now - last.maxAge);
    } else {
      IdleSnoc(cap, before, last);
    }
  }

  /** Whatever is stored again, the store holds the tail end of the latest view of its history. */
  lemma {:induction false} RunIsSuffixOfLatest(cap: Capacity, events: seq<Event>)
    requires ClockOrdered(events)
    ensures IsSuffix(Run(cap, events), Latest(History(events)))
  {
    if events != [] {
      var before, last := events[..|events| - 1], events[|events| - 1];
      assert events == before + [last];
      ClockOrderedPrefix(events);
      RunIsSuffixOfLatest(cap, before);
      SuffixAfter(cap, before, last);
    }
  }

  lemma StoreIsYoung(cap: Capacity, cutoff: Option<int>, s: seq<MemoryEntry>, e: MemoryEntry)
    requires Admissible(cap, cutoff, s) && (cutoff.Some? ==> cutoff.value <= e.createdAt)
    ensures Admissible(cap, cutoff, Evict(cap, Without(s, e.id) + [e]))
  {
    if cutoff.Some? {
      WithoutKeepsYoung(s, e.id, cutoff.value);
    }
    EvictIsLongestAdmissible(cap, cutoff, Without(s, e.id) + [e]);
  }

  lemma CleanupIsYoung(cutoff: Option<int>, s: seq<MemoryEntry>, c: int)
    requires cutoff.Some? ==> forall k :: 0 <= k < |s| ==> cutoff.value <= s[k].createdAt
    ensures forall k :: 0 <= k < |NotBefore(s, c)| ==>
              c <= NotBefore(s, c)[k].createdAt && (cutoff.Some? ==> cutoff.value <= NotBefore(s, c)[k].createdAt)
  {
    NotBeforeKeeps(s, c);
    forall k | 0 <= k < |NotBefore(s, c)| ensures NotBefore(s, c)[k] in s && c <= NotBefore(s, c)[k].createdAt {
      assert NotBefore(s, c)[k] in NotBefore(s, c);
    }
  }

  /** After any run everything held is admissible. */
  lemma {:induction false} RunIsAdmissible(cap: Capacity, events: seq<Event>)
    requires ClockOrdered(events)
    ensures Admissible(cap, GreatestCutoff(events), Run(cap, events))
  {
    if events != [] {
      var before, last := events[..|events| - 1], events[|events| - 1];
      ClockOrderedPrefix(events);
      RunIsAdmissible(cap, before);
      RunInvariant(cap, events);
      if Stores(last) {
        BoundedByClock(before, last.now);
        StoreIsYoung(cap, GreatestCutoff(before), Run(cap, before), EntryOf(last.metadata.value, last.now));
      } else if last.CleanupCall? && last.maxAge > 0 {
        CleanupIsYoung(GreatestCutoff(before), Run(cap, before), last.now - last.maxAge);
      }
    }
  }

  lemma FitsUncut(cap: Capacity, t: seq<MemoryEntry>)
    requires Fits(cap, t)
    ensures Evict(cap, t) == t
  {
  }

  /**
    When the store is exact at one moment, whatever happened before: exactly if the newest entry
    that it has lost would be too old now, or would not fit in front of what the store holds.
  */
  lemma ExactIff(cap: Capacity, events: seq<Event>)
    requires ClockOrdered(events)
    ensures |Run(cap, events)| <= |Latest(History(events))|
    ensures var held, all := Run(cap, events), Latest(History(events));
            Exact(cap, events) <==> NothingFits(cap, GreatestCutoff(events), all[..|all| - |held|], held)
  {
    var held, all := Run(cap, events), Latest(History(events));
    RunIsSuffixOfLatest(cap, events);
    RunIsAdmissible(cap, events);
    var lost := all[..|all| - |held|];
    assert all == lost + held;
    FitsUncut(cap, held);
    EvictExactIff(cap, GreatestCutoff(events), lost, held);
  }

  lemma TwoStores(cap: Capacity, a: Event, b: Event)
    requires Stores(a) && Stores(b)
    ensures var e1, e2 := EntryOf(a.metadata.value, a.now), EntryOf(b.metadata.value, b.now);
            var events := [a] + [b];
            && Run(cap, events) == Evict(cap, Without(Evict(cap, [e1]), e2.id) + [e2])
            && History(events) == [e1] + [e2]
            && Latest(History(events)) == Without([e1], e2.id) + [e2]
            && GreatestCutoff(events) == None
  {
    var e1, e2 := EntryOf(a.metadata.value, a.now), EntryOf(b.metadata.value, b.now);
    assert [] + [a] == [a] && [] + [e1] == [e1];
    RunSnoc(cap, [], a);
    RunSnoc(cap, [a], b);
    LatestSnoc([], e1);
    LatestSnoc([e1], e2);
  }

  /** Three accepted stores in a row, on the store and on its reference. */
  lemma ThreeStores(cap: Capacity, a: Event, b: Event, c: Event)
    requires Stores(a) && Stores(b) && Stores(c)
    ensures var e1, e2, e3 := EntryOf(a.metadata.value, a.now), EntryOf(b.metadata.value, b.now), EntryOf(c.metadata.value, c.now);
            var events := [a] + [b] + [c];
            var two := Evict(cap, Without(Evict(cap, [e1]), e2.id) + [e2]);
            && Run(cap, events) == Evict(cap, Without(two, e3.id) + [e3])
            && History(events) == [e1] + [e2] + [e3]
            && Latest(History(events)) == Without(Without([e1], e2.id) + [e2], e3.id) + [e3]
            && GreatestCutoff(events) == None
  {
    TwoStores(cap, a, b);
    RunSnoc(cap, [a] + [b], c);
    LatestSnoc(History([a] + [b]), EntryOf(c.metadata.value, c.now));
  }

  /** A store that holds one entry that fits keeps it. */
  lemma OneFits(cap: Capacity, e: MemoryEntry)
    requires cap.maxEntries >= 1 && e.bytes <= cap.maxBytes
    ensures Evict(cap, [e]) == [e]
  {
    assert [e][1..] == [] && TotalBytes([e]) == e.bytes;
  }

  lemma EvictsFirst(cap: Capacity, a: MemoryEntry, b: MemoryEntry)
    requires a.bytes + b.bytes > cap.maxBytes
    ensures Evict(cap, [a] + [b]) == Evict(cap, [b])
  {
    TotalBytesConcat([a], [b]);
    assert ([a] + [b])[1..] == [b];
  }

  /** A document that falls to a second one stays away when the second is stored again. */
  lemma FallenStaysAway(cap: Capacity, a: Event, b: Event, c: Event)
    requires Stores(a) && Stores(b) && Stores(c)
    requires a.metadata.value.id != b.metadata.value.id == c.metadata.value.id
    requires var e1, e2, e3 := EntryOf(a.metadata.value, a.now), EntryOf(b.metadata.value, b.now), EntryOf(c.metadata.value, c.now);
             && cap.maxEntries >= 1 && e1.bytes <= cap.maxBytes && e2.bytes <= cap.maxBytes && e3.bytes <= cap.maxBytes
             && e1.bytes + e2.bytes > cap.maxBytes
    ensures var e1, e3, events := EntryOf(a.metadata.value, a.now), EntryOf(c.metadata.value, c.now), [a] + [b] + [c];
            && Run(cap, events) == [e3]
            && Latest(History(events)) == [e1] + [e3]
            && GreatestCutoff(events) == None
  {
    var e1, e2, e3 := EntryOf(a.metadata.value, a.now), EntryOf(b.metadata.value, b.now), EntryOf(c.metadata.value, c.now);
    ThreeStores(cap, a, b, c);
    OneFits(cap, e1);
    OneFits(cap, e2);
    OneFits(cap, e3);
    WithoutAbsent([e1], e2.id);
    WithoutConcat([e1], [e2], e2.id);
    assert Without([e2], e2.id) == [];
    EvictsFirst(cap, e1, e2);
    assert [e1] + [] == [e1] && [] + [e3] == [e3];
  }

  /** A store that holds one of two entries that both fit is not exact. */
  lemma TwoFit(cap: Capacity, events: seq<Event>, a: MemoryEntry, b: MemoryEntry)
    requires Run(cap, events) == [b] && Latest(History(events)) == [a] + [b] && GreatestCutoff(events) == None
    requires cap.maxEntries >= 2 && a.bytes + b.bytes <= cap.maxBytes
    ensures !Exact(cap, events)
  {
    TotalBytesConcat([a], [b]);
    assert ([a] + [b])[0..] == [a] + [b];
    assert !IsLongestAdmissible(cap, None, [b], [a] + [b]);
  }

  /**
    A re-store with fewer bytes can break exactness: storing "b" evicted "a", and storing "b"
    again with an empty document does not bring "a" back although it would fit now.
  */
  lemma ShrinkingRestoreIsInexact()
    ensures var small, full, empty := StoreCall(Some(Metadata("a", Some("1"))), 0),
                                      StoreCall(Some(Metadata("b", Some("333"))), 1),
                                      StoreCall(Some(Metadata("b", Some(""))), 2);
            && ClockOrdered([small] + [full] + [empty])
            && !Exact(Capacity(2, 3), [small] + [full] + [empty])
  {
    var small, full, empty := StoreCall(Some(Metadata("a", Some("1"))), 0),
                              StoreCall(Some(Metadata("b", Some("333"))), 1),
                              StoreCall(Some(Metadata("b", Some(""))), 2);
    assert "a"[0] != "b"[0];
    FallenStaysAway(Capacity(2, 3), small, full, empty);
    TwoFit(Capacity(2, 3), [small] + [full] + [empty], EntryOf(small.metadata.value, 0), EntryOf(empty.metadata.value, 2));
  }

  lemma InclusionStep(small: Capacity, large: Capacity, r: seq<MemoryEntry>, s: seq<MemoryEntry>, event: Event)
    requires small.maxEntries <= large.maxEntries && small.maxBytes <= large.maxBytes
    requires IsSuffix(r, s)
    ensures IsSuffix(Apply(small, r, event), Apply(large, s, event))
  {
    var p := s[..|s| - |r|];
    assert s == p + r;
    match event
    case StoreCall(metadata, now) =>
      if Check(metadata) == Stored {
        var e := EntryOf(metadata.value, now);
        WithoutConcat(p, r, e.id);
        var t, t' := Without(r, e.id) + [e], Without(s, e.id) + [e];
        assert t' == Without(p, e.id) + t;
        EvictIsLongest(small, t);
        EvictIsLongest(large, t');
        var x := Evict(small, t);
        assert x == t'[|t'| - |x|..];
        LongestContains(large, None, Evict(large, t'), t', x);
      }
    case CleanupCall(maxAge, now) =>
      NotBeforeConcat(p, r, now - maxAge);
  }

  /** Inclusion: the same run on a larger store holds everything the smaller store holds, at the end of its list. */
  lemma {:induction false} Inclusion(small: Capacity, large: Capacity, events: seq<Event>)
    requires small.maxEntries <= large.maxEntries && small.maxBytes <= large.maxBytes
    ensures IsSuffix(Run(small, events), Run(large, events))
  {
    if events != [] {
      var before, last := events[..|events| - 1], events[|events| - 1];
      Inclusion(small, large, before);
      InclusionStep(small, large, Run(small, before), Run(large, before), last);
    }
  }

  /**
    One `Store` call: the new entry is at the end exactly if it fits by itself, and then the
    survivors before it are the longest run of the newest other entries that fits beside it.
    An entry that is too large empties the store.
  */
  lemma StoreOutcome(cap: Capacity, s: seq<MemoryEntry>, metadata: Metadata, now: int)
    requires cap.maxEntries >= 1 && Check(Some(metadata)) == Stored
    ensures var e := EntryOf(metadata, now);
            var after := Apply(cap, s, StoreCall(Some(metadata), now));
            && IsLongestAdmissible(cap, None, after, Without(s, metadata.id) + [e])
            && (e.bytes <= cap.maxBytes <==> after != [])
            && (after != [] ==> after[|after| - 1] == e)
            && (e in after <==> e.bytes <= cap.maxBytes)
  {
    var e := EntryOf(metadata, now);
    var t := Without(s, metadata.id) + [e];
    var after := Evict(cap, t);
    EvictIsLongest(cap, t);
    assert t[|t| - 1..] == [e];
    if after == [] {
      assert !Admissible(cap, None, t[|t| - 1..]);
    } else {
      assert after[|after| - 1] == e;
      AdmissibleSuffix(cap, None, after, |after| - 1);
      assert after[|after| - 1..] == [e];
    }
  }

  // ---- Reading -------------------------------------------------------------------------

  lemma {:induction false} NewestIsReversedSuffix(s: seq<MemoryEntry>, limit: nat)
    ensures |Newest(s, limit)| == if limit < |s| then limit else |s|
    ensures forall k :: 0 <= k < |Newest(s, limit)| ==> Newest(s, limit)[k] == s[|s| - 1 - k].metadata
  {
    if s != [] && limit > 0 {
      NewestIsReversedSuffix(s[..|s| - 1], limit - 1);
    }
  }

  lemma {:induction false} LookupFinds(s: seq<MemoryEntry>, id: string)
    ensures Lookup(s, id).None? <==> forall k :: 0 <= k < |s| ==> s[k].id != id
    ensures DistinctIds(s) ==> forall k :: 0 <= k < |s| && s[k].id == id ==> Lookup(s, id) == Some(s[k].metadata)
  {
    if s != [] {
      LookupFinds(s[1..], id);
      assert s == [s[0]] + s[1..];
    }
  }

  /** Right after a store, `Get` returns the stored document exactly if it fits by itself. */
  lemma StoreThenGet(cap: Capacity, s: seq<MemoryEntry>, metadata: Metadata, now: int)
    requires cap.maxEntries >= 1 && Check(Some(metadata)) == Stored && DistinctIds(s) && Fits(cap, s)
    ensures var after := Apply(cap, s, StoreCall(Some(metadata), now));
            Lookup(after, metadata.id) == if |metadata.json.value| <= cap.maxBytes then Some(metadata) else None
  {
    var after := Apply(cap, s, StoreCall(Some(metadata), now));
    StoreOutcome(cap, s, metadata, now);
    ApplyKeepsInvariant(cap, s, StoreCall(Some(metadata), now));
    LookupFinds(after, metadata.id);
    if after != [] {
      assert after[|after| - 1].id == metadata.id;
    }
  }

  lemma {:induction false} EntriesCarryTheirId(cap: Capacity, events: seq<Event>)
    ensures forall e :: e in Run(cap, events) ==> e.metadata.id == e.id
  {
    if events != [] {
      var before, last := events[..|events| - 1], events[|events| - 1];
      var s := Run(cap, before);
      EntriesCarryTheirId(cap, before);
      match last
      case StoreCall(metadata, now) =>
        if Check(metadata) == Stored {
          var t := Without(s, metadata.value.id) + [EntryOf(metadata.value, now)];
          WithoutMembers(s, metadata.value.id);
          EvictIsLongest(cap, t);
          assert forall e :: e in Evict(cap, t) ==> e in t;
        }
      case CleanupCall(maxAge, now) =>
        NotBeforeKeeps(s, now - maxAge);
    }
  }

  /** After any run, `Get` finds an id exactly if the full `List` shows it, and returns that document. */
  lemma GetAgreesWithList(cap: Capacity, events: seq<Event>, id: string)
    ensures var s := Run(cap, events);
            forall md :: Lookup(s, id) == Some(md) <==> md.id == id && md in Newest(s, cap.maxEntries)
  {
    var s := Run(cap, events);
    RunInvariant(cap, events);
    EntriesCarryTheirId(cap, events);
    NewestIsReversedSuffix(s, cap.maxEntries);
    LookupFinds(s, id);
    var all := Newest(s, cap.maxEntries);
    forall md
      ensures Lookup(s, id) == Some(md) <==> md.id == id && md in all
    {
      if md in all {
        var k :| 0 <= k < |all| && all[k] == md;
        assert s[|s| - 1 - k].metadata == md;
      }
      if Lookup(s, id) == Some(md) {
        var k :| 0 <= k < |s| && s[k].id == id;
        assert all[|s| - 1 - k] == s[k].metadata;
      }
    }
  }
}
