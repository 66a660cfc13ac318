/** The recency index as a list of ids, newest first, and the keys the remote backends use. */
module Keys {
  import opened Common
  import opened GoText

  // ---- Server keys -------------------------------------------------------------------------

  const DEFAULT_PREFIX := "clockwork"

  /** The prefix that is configured, or the default for a blank one. */
  function PrefixOf(prefix: string): string {
    if TrimSpace(prefix) == "" then DEFAULT_PREFIX else TrimSpace(prefix)
  }

  /** A prefix of white space is replaced, any other loses the white space at its ends and nothing else. */
  lemma PrefixIsTrimmed(prefix: string) returns (before: string, after: string)
    ensures AllSpace(before) && AllSpace(after)
    ensures AllSpace(prefix) ==> PrefixOf(prefix) == "clockwork"
    ensures !AllSpace(prefix) ==>
              && prefix == before + PrefixOf(prefix) + after
              && PrefixOf(prefix) != "" && !IsSpace(PrefixOf(prefix)[0]) && !IsSpace(PrefixOf(prefix)[|PrefixOf(prefix)| - 1])
  {
    before, after := TrimTakesSpace(prefix);
    BlankIff(prefix);
  }

  function ReqKey(prefix: string, id: string): string {
    prefix + ":req:" + id
  }

  function IndexKey(prefix: string): string {
    prefix + ":index"
  }

  lemma ReqKeyInjective(prefix: string, a: string, b: string)
    ensures ReqKey(prefix, a) == ReqKey(prefix, b) <==> a == b
  {
    assert ReqKey(prefix, a)[|prefix + ":req:"|..] == a;
    assert ReqKey(prefix, b)[|prefix + ":req:"|..] == b;
  }

  lemma ReqKeyIsNotIndexKey(prefix: string, id: string)
    ensures ReqKey(prefix, id) != IndexKey(prefix)
  {
    assert ReqKey(prefix, id)[|prefix| + 1] == 'r';
    assert IndexKey(prefix)[|prefix| + 1] == 'i';
  }

  // ---- Recency -----------------------------------------------------------------------------

  function IdsWithout(ids: seq<string>, id: string): seq<string> {
    if ids == [] then []
    else if ids[0] == id then IdsWithout(ids[1..], id)
    else [ids[0]] + IdsWithout(ids[1..], id)
  }

  function PrependUnique(ids: seq<string>, id: string): seq<string> {
    [id] + IdsWithout(ids, id)
  }

  function IdSet(ids: seq<string>): set<string> {
    set id | id in ids
  }

  /** The ids of the history `h`, each once, the most recently stored first. */
  function RecentIds(h: seq<string>): seq<string> {
    if h == [] then [] else PrependUnique(RecentIds(h[..|h| - 1]), h[|h| - 1])
  }

  /** Where the last store of `id` is. */
  function LastAt(h: seq<string>, id: string): nat
    requires id in h
    ensures LastAt(h, id) < |h| && h[LastAt(h, id)] == id
    ensures forall k :: LastAt(h, id) < k < |h| ==> h[k] != id
  {
    if h[|h| - 1] == id then |h| - 1
    else
      assert h == h[..|h| - 1] + [h[|h| - 1]];
      LastAt(h[..|h| - 1], id)
  }

  lemma {:induction false} IdsWithoutConcat(a: seq<string>, b: seq<string>, id: string)
    ensures IdsWithout(a + b, id) == IdsWithout(a, id) + IdsWithout(b, id)
  {
    if a == [] {
      assert a + b == b;
    } else {
      assert (a + b)[1..] == a[1..] + b;
      IdsWithoutConcat(a[1..], b, id);
    }
  }

  lemma {:induction false} IdsWithoutMembers(ids: seq<string>, id: string)
    ensures forall x :: x in IdsWithout(ids, id) <==> x in ids && x != id
    ensures |IdsWithout(ids, id)| <= |ids|
    ensures Distinct(ids) ==> Distinct(IdsWithout(ids, id))
  {
    if ids != [] {
      IdsWithoutMembers(ids[1..], id);
      assert ids == [ids[0]] + ids[1..];
      var rest := IdsWithout(ids[1..], id);
      assert forall k :: 0 <= k < |rest| ==> rest[k] in ids[1..];
    }
  }

  lemma {:induction false} IdsWithoutAbsent(ids: seq<string>, id: string)
    requires id !in ids
    ensures IdsWithout(ids, id) == ids
  {
    if ids != [] {
      IdsWithoutAbsent(ids[1..], id);
    }
  }

  /** Distinct ids lose exactly one element, if any. */
  lemma {:induction false} IdsWithoutLength(ids: seq<string>, id: string)
    requires Distinct(ids)
    ensures |IdsWithout(ids, id)| == |ids| - if id in ids then 1 else 0
  {
    if ids != [] {
      assert ids == [ids[0]] + ids[1..];
      if ids[0] == id {
        assert id !in ids[1..];
        IdsWithoutAbsent(ids[1..], id);
      } else {
        IdsWithoutLength(ids[1..], id);
      }
    }
  }

  /** Prepending to a prefix of the recency order gives a prefix of the new recency order. */
  lemma PrependToPrefix(ids: seq<string>, all: seq<string>, id: string)
    requires ids <= all
    ensures PrependUnique(ids, id) <= PrependUnique(all, id)
  {
    assert all == ids + all[|ids|..];
    IdsWithoutConcat(ids, all[|ids|..], id);
  }

  /** Cutting to the `m` newest before prepending makes no difference after cutting again. */
  lemma TakePrepend(all: seq<string>, id: string, m: nat)
    requires Distinct(all) && m >= 1
    ensures Take(PrependUnique(Take(all, m), id), m) == Take(PrependUnique(all, id), m)
  {
    if |all| > m {
      var cut, p, q := all[..m], PrependUnique(all[..m], id), PrependUnique(all, id);
      assert Take(all, m) == cut && cut <= all;
      PrependToPrefix(cut, all, id);
      IdsWithoutLength(cut, id);
      assert p == q[..|p|];
      assert p[..m] == q[..|p|][..m] == q[..m];
    } else {
      assert Take(all, m) == all;
    }
  }

  lemma PrependIsOrdered(before: seq<string>, rest: seq<string>, last: string)
    requires Distinct(rest) && forall x :: x in rest ==> x in before && x != last
    requires forall i, j :: 0 <= i < j < |rest| ==> LastAt(before, rest[i]) > LastAt(before, rest[j])
    ensures var h, ids := before + [last], [last] + rest;
            && Distinct(ids)
            && (forall id :: id in ids ==> id in h)
            && (forall i, j :: 0 <= i < j < |ids| ==> LastAt(h, ids[i]) > LastAt(h, ids[j]))
  {
    var h, ids := before + [last], [last] + rest;
    forall k | 0 <= k < |rest|
      ensures rest[k] in before && rest[k] != last && LastAt(h, rest[k]) == LastAt(before, rest[k]) < LastAt(h, last)
    {
      assert rest[k] in rest;
      assert h[..|h| - 1] == before;
    }
    assert forall k :: 1 <= k < |ids| ==> ids[k] == rest[k - 1];
  }

  lemma {:induction false} WithoutIsOrdered(h: seq<string>, ids: seq<string>, id: string)
    requires forall x :: x in ids ==> x in h
    requires forall i, j :: 0 <= i < j < |ids| ==> LastAt(h, ids[i]) > LastAt(h, ids[j])
    ensures forall x :: x in IdsWithout(ids, id) ==> x in ids
    ensures forall i, j :: 0 <= i < j < |IdsWithout(ids, id)| ==>
              LastAt(h, IdsWithout(ids, id)[i]) > LastAt(h, IdsWithout(ids, id)[j])
  {
    IdsWithoutMembers(ids, id);
    if ids != [] {
      WithoutIsOrdered(h, ids[1..], id);
      var rest := IdsWithout(ids[1..], id);
      forall k | 0 <= k < |rest|
        ensures LastAt(h, ids[0]) > LastAt(h, rest[k])
      {
        assert rest[k] in ids[1..];
        var j :| 0 <= j < |ids[1..]| && ids[1..][j] == rest[k];
        assert ids[j + 1] == rest[k];
      }
    }
  }

  /** The recency order is what its name says: every id once, ordered by its last store. */
  lemma {:induction false} RecentIdsOrder(h: seq<string>)
    ensures Distinct(RecentIds(h))
    ensures forall id :: id in RecentIds(h) <==> id in h
    ensures forall i, j :: 0 <= i < j < |RecentIds(h)| ==> LastAt(h, RecentIds(h)[i]) > LastAt(h, RecentIds(h)[j])
  {
    if h != [] {
      var before, last := h[..|h| - 1], h[|h| - 1];
      RecentIdsOrder(before);
      assert h == before + [last];
      IdsWithoutMembers(RecentIds(before), last);
      WithoutIsOrdered(before, RecentIds(before), last);
      PrependIsOrdered(before, IdsWithout(RecentIds(before), last), last);
    }
  }
}
