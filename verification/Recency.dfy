/**
  The in-memory store as a plain sequence, oldest entry first: what one call does to the
  sequence, and the reference notions its promises are stated with.
*/
module Recency {
  import opened Common

  datatype MemoryEntry = MemoryEntry(id: string, metadata: Metadata, createdAt: int, bytes: nat)

  /** The two capacities, as they are after the constructor put its defaults in. */
  datatype Capacity = Capacity(maxEntries: nat, maxBytes: nat)

  // ---- Reference notions ---------------------------------------------------------------

  function TotalBytes(s: seq<MemoryEntry>): nat {
    if s == [] then 0 else s[0].bytes + TotalBytes(s[1..])
  }

  predicate Fits(cap: Capacity, s: seq<MemoryEntry>) {
    |s| <= cap.maxEntries && TotalBytes(s) <= cap.maxBytes
  }

  /** Fits, and no entry is older than the cutoff, if there is one. */
  ghost predicate Admissible(cap: Capacity, cutoff: Option<int>, s: seq<MemoryEntry>) {
    && Fits(cap, s)
    && (cutoff.Some? ==> forall k :: 0 <= k < |s| ==> cutoff.value <= s[k].createdAt)
  }

  /** `r` is the longest suffix of `s` that is admissible. */
  ghost predicate IsLongestAdmissible(cap: Capacity, cutoff: Option<int>, r: seq<MemoryEntry>, s: seq<MemoryEntry>) {
    && IsSuffix(r, s)
    && Admissible(cap, cutoff, r)
    && forall j :: 0 <= j < |s| - |r| ==> !Admissible(cap, cutoff, s[j..])
  }

  ghost predicate DistinctIds(s: seq<MemoryEntry>) {
    forall i, j :: 0 <= i < j < |s| ==> s[i].id != s[j].id
  }

  ghost predicate InTimeOrder(s: seq<MemoryEntry>) {
    forall i, j :: 0 <= i < j < |s| ==> s[i].createdAt <= s[j].createdAt
  }

  function Without(s: seq<MemoryEntry>, id: string): seq<MemoryEntry> {
    if s == [] then []
    else if s[0].id == id then Without(s[1..], id)
    else [s[0]] + Without(s[1..], id)
  }

  /** The latest entry of every id in the history `h`, in the order of those latest stores. */
  function Latest(h: seq<MemoryEntry>): seq<MemoryEntry> {
    if h == [] then []
    else
      var last := h[|h| - 1];
      Without(Latest(h[..|h| - 1]), last.id) + [last]
  }

  // ---- What one call does --------------------------------------------------------------

  function Evict(cap: Capacity, s: seq<MemoryEntry>): seq<MemoryEntry> {
    if s != [] && (|s| > cap.maxEntries || TotalBytes(s) > cap.maxBytes) then Evict(cap, s[1..]) else s
  }

  function NotBefore(s: seq<MemoryEntry>, cutoff: int): seq<MemoryEntry> {
    if s == [] then []
    else if s[0].createdAt < cutoff then NotBefore(s[1..], cutoff)
    else [s[0]] + NotBefore(s[1..], cutoff)
  }

  /** A call that changes the store; `now` is what the clock says during the call. */
  datatype Event =
    | StoreCall(metadata: Option<Metadata>, now: int)
    | CleanupCall(maxAge: int, now: int)

  function EntryOf(metadata: Metadata, now: int): MemoryEntry
    requires metadata.json.Some?
  {
    MemoryEntry(metadata.id, metadata, now, |metadata.json.value|)
  }

  function Apply(cap: Capacity, s: seq<MemoryEntry>, event: Event): seq<MemoryEntry> {
    match event
    case StoreCall(metadata, now) =>
      if Check(metadata) == Stored
      then Evict(cap, Without(s, metadata.value.id) + [EntryOf(metadata.value, now)])
      else s
    case CleanupCall(maxAge, now) =>
      if maxAge <= 0 then s else NotBefore(s, now - maxAge)
  }

  /** What `List` returns: at most `limit` entries, the newest first, all the list holds for `limit <= 0`. */
  function Newest(s: seq<MemoryEntry>, limit: nat): seq<Metadata> {
    if s == [] || limit == 0 then []
    else [s[|s| - 1].metadata] + Newest(s[..|s| - 1], limit - 1)
  }

  /** What `Get` returns. */
  function Lookup(s: seq<MemoryEntry>, id: string): Option<Metadata> {
    if s == [] then None
    else if s[0].id == id then Some(s[0].metadata)
    else Lookup(s[1..], id)
  }

  // ---- Byte totals ---------------------------------------------------------------------

  lemma {:induction false} TotalBytesConcat(s: seq<MemoryEntry>, t: seq<MemoryEntry>)
    ensures TotalBytes(s + t) == TotalBytes(s) + TotalBytes(t)
  {
    if s == [] {
      assert s + t == t;
    } else {
      assert (s + t)[1..] == s[1..] + t;
      TotalBytesConcat(s[1..], t);
    }
  }

  lemma AdmissibleSuffix(cap: Capacity, cutoff: Option<int>, s: seq<MemoryEntry>, j: nat)
    requires Admissible(cap, cutoff, s) && j <= |s|
    ensures Admissible(cap, cutoff, s[j..])
  {
    assert s == s[..j] + s[j..];
    TotalBytesConcat(s[..j], s[j..]);
  }

  // ---- Without and NotBefore are filters -----------------------------------------------

  lemma {:induction false} WithoutConcat(s: seq<MemoryEntry>, t: seq<MemoryEntry>, id: string)
    ensures Without(s + t, id) == Without(s, id) + Without(t, id)
  {
    if s == [] {
      assert s + t == t;
    } else {
      assert (s + t)[1..] == s[1..] + t;
      WithoutConcat(s[1..], t, id);
    }
  }

  lemma {:induction false} NotBeforeConcat(s: seq<MemoryEntry>, t: seq<MemoryEntry>, cutoff: int)
    ensures NotBefore(s + t, cutoff) == NotBefore(s, cutoff) + NotBefore(t, cutoff)
  {
    if s == [] {
      assert s + t == t;
    } else {
      assert (s + t)[1..] == s[1..] + t;
      NotBeforeConcat(s[1..], t, cutoff);
    }
  }

  /** `Without` removes every entry of the id and nothing else. */
  lemma {:induction false} WithoutMembers(s: seq<MemoryEntry>, id: string)
    ensures forall e :: e in Without(s, id) <==> e in s && e.id != id
  {
    if s != [] {
      WithoutMembers(s[1..], id);
      assert s == [s[0]] + s[1..];
    }
  }

  lemma {:induction false} WithoutAbsent(s: seq<MemoryEntry>, id: string)
    requires forall k :: 0 <= k < |s| ==> s[k].id != id
    ensures Without(s, id) == s
  {
    if s != [] {
      WithoutAbsent(s[1..], id);
    }
  }

  /** `Without` keeps ids distinct and keeps the time order. */
  lemma {:induction false} WithoutKeepsOrder(s: seq<MemoryEntry>, id: string)
    ensures DistinctIds(s) ==> DistinctIds(Without(s, id))
    ensures InTimeOrder(s) ==> InTimeOrder(Without(s, id))
  {
    if s != [] {
      WithoutKeepsOrder(s[1..], id);
      var rest := Without(s[1..], id);
      forall k | 0 <= k < |rest|
        ensures exists j :: 1 <= j < |s| && rest[k] == s[j]
      {
        WithoutMembers(s[1..], id);
        assert rest[k] in s[1..];
        var j :| 0 <= j < |s[1..]| && s[1..][j] == rest[k];
        assert s[j + 1] == rest[k];
      }
    }
  }

  /** Of a list with distinct ids, `Without` takes out exactly one position. */
  lemma {:induction false} WithoutSplit(s: seq<MemoryEntry>, k: nat)
    requires DistinctIds(s) && k < |s|
    ensures Without(s, s[k].id) == s[..k] + s[k + 1..]
    ensures TotalBytes(Without(s, s[k].id)) == TotalBytes(s) - s[k].bytes
  {
    var id := s[k].id;
    assert s == s[..k] + ([s[k]] + s[k + 1..]);
    WithoutConcat(s[..k], [s[k]] + s[k + 1..], id);
    WithoutConcat([s[k]], s[k + 1..], id);
    WithoutAbsent(s[..k], id);
    WithoutAbsent(s[k + 1..], id);
    TotalBytesConcat(s[..k], [s[k]] + s[k + 1..]);
    TotalBytesConcat([s[k]], s[k + 1..]);
    TotalBytesConcat(s[..k], s[k + 1..]);
  }

  lemma {:induction false} NotBeforeAll(s: seq<MemoryEntry>, cutoff: int)
    requires forall k :: 0 <= k < |s| ==> cutoff <= s[k].createdAt
    ensures NotBefore(s, cutoff) == s
  {
    if s != [] {
      NotBeforeAll(s[1..], cutoff);
    }
  }

  lemma SuffixOfTail(r: seq<MemoryEntry>, s: seq<MemoryEntry>)
    requires s != [] && IsSuffix(r, s[1..])
    ensures IsSuffix(r, s)
  {
    assert s[|s| - |r|..] == s[1..][|s| - 1 - |r|..];
  }

  /** Oldest first, age cleanup is a cut: the entries it keeps are a suffix. */
  lemma {:induction false} NotBeforeIsSuffix(s: seq<MemoryEntry>, cutoff: int)
    requires InTimeOrder(s)
    ensures IsSuffix(NotBefore(s, cutoff), s)
    ensures forall k :: 0 <= k < |s| ==> (cutoff <= s[k].createdAt <==> |s| - |NotBefore(s, cutoff)| <= k)
  {
    if s != [] {
      if s[0].createdAt < cutoff {
        NotBeforeIsSuffix(s[1..], cutoff);
        SuffixOfTail(NotBefore(s, cutoff), s);
        forall k | 0 <= k < |s| ensures cutoff <= s[k].createdAt <==> |s| - |NotBefore(s, cutoff)| <= k {
          assert k > 0 ==> s[k] == s[1..][k - 1];
        }
      } else {
        NotBeforeAll(s, cutoff);
        assert s[0..] == s;
      }
    }
  }

  lemma {:induction false} NotBeforeFits(cap: Capacity, s: seq<MemoryEntry>, cutoff: int)
    ensures |NotBefore(s, cutoff)| <= |s| && TotalBytes(NotBefore(s, cutoff)) <= TotalBytes(s)
    ensures Fits(cap, s) ==> Fits(cap, NotBefore(s, cutoff))
  {
    if s != [] {
      NotBeforeFits(cap, s[1..], cutoff);
      assert s[0].createdAt >= cutoff ==> NotBefore(s, cutoff)[1..] == NotBefore(s[1..], cutoff);
    }
  }

  // ---- Eviction ------------------------------------------------------------------------

  /** The eviction loop keeps the longest suffix that fits both limits. */
  lemma {:induction false} EvictIsLongest(cap: Capacity, s: seq<MemoryEntry>)
    ensures IsLongestAdmissible(cap, None, Evict(cap, s), s)
  {
    if s == [] || Fits(cap, s) {
      assert s[0..] == s;
    } else {
      EvictIsLongest(cap, s[1..]);
      var r := Evict(cap, s[1..]);
      assert s[|s| - |r|..] == s[1..][|s[1..]| - |r|..];
      forall j | 0 <= j < |s| - |r|
        ensures !Admissible(cap, None, s[j..])
      {
        if j == 0 {
          assert s[0..] == s;
        } else {
          assert s[j..] == s[1..][j - 1..];
        }
      }
    }
  }

  /** Any admissible suffix is a suffix of the longest one. */
  lemma LongestContains(cap: Capacity, cutoff: Option<int>, r: seq<MemoryEntry>, s: seq<MemoryEntry>, q: seq<MemoryEntry>)
    requires IsLongestAdmissible(cap, cutoff, r, s)
    requires IsSuffix(q, s) && Admissible(cap, cutoff, q)
    ensures IsSuffix(q, r)
  {
    var j := |s| - |q|;
    assert q == s[j..];
    assert |q| <= |r|;
    assert r[|r| - |q|..] == s[|s| - |r|..][|r| - |q|..] == s[j..];
  }

  /** There is only one longest admissible suffix. */
  lemma LongestIsUnique(cap: Capacity, cutoff: Option<int>, r: seq<MemoryEntry>, r': seq<MemoryEntry>, s: seq<MemoryEntry>)
    requires IsLongestAdmissible(cap, cutoff, r, s) && IsLongestAdmissible(cap, cutoff, r', s)
    ensures r == r'
  {
    LongestContains(cap, cutoff, r, s, r');
    LongestContains(cap, cutoff, r', s, r);
  }
}
