/** The bounded in-memory store, over a doubly linked list, an index by id and a byte total. */
module MemoryStorage {
  import opened Common
  import opened Recency
  import MemoryRuns

  const DEFAULT_MAX_ENTRIES := 200
  const DEFAULT_MAX_BYTES := 64 * 1024 * 1024

  /** An element of the list; its value never changes. */
  class Element {
    const value: MemoryEntry
    var prev: Element?
    var next: Element?

    constructor (value: MemoryEntry)
      ensures this.value == value && prev == null && next == null
    {
      this.value := value;
      prev := null;
      next := null;
    }
  }

  function ValuesOf(nodes: seq<Element>): seq<MemoryEntry> {
    if nodes == [] then [] else [nodes[0].value] + ValuesOf(nodes[1..])
  }

  ghost predicate DistinctElements(nodes: seq<Element>) {
    forall i, j :: 0 <= i < j < |nodes| ==> nodes[i] != nodes[j]
  }

  /** The index `byID` leads from every id to the element that carries it. */
  ghost predicate Indexed(nodes: seq<Element>, byID: map<string, Element>) {
    && (forall n :: n in nodes ==> n.value.id in byID && byID[n.value.id] == n)
    && (forall id :: id in byID ==> byID[id] in nodes && byID[id].value.id == id)
  }

  lemma {:induction false} ValuesAt(nodes: seq<Element>)
    ensures |ValuesOf(nodes)| == |nodes|
    ensures forall k :: 0 <= k < |nodes| ==> ValuesOf(nodes)[k] == nodes[k].value
  {
    if nodes != [] {
      ValuesAt(nodes[1..]);
    }
  }

  lemma {:induction false} ValuesConcat(a: seq<Element>, b: seq<Element>)
    ensures ValuesOf(a + b) == ValuesOf(a) + ValuesOf(b)
  {
    if a == [] {
      assert a + b == b;
    } else {
      assert (a + b)[1..] == a[1..] + b;
      ValuesConcat(a[1..], b);
    }
  }

  lemma IndexedIsDistinct(nodes: seq<Element>, byID: map<string, Element>)
    requires Indexed(nodes, byID) && DistinctElements(nodes)
    ensures DistinctIds(ValuesOf(nodes))
  {
    ValuesAt(nodes);
  }

  lemma IndexedPush(nodes: seq<Element>, byID: map<string, Element>, elem: Element)
    requires Indexed(nodes, byID) && elem.value.id !in byID
    ensures Indexed(nodes + [elem], byID[elem.value.id := elem])
    ensures ValuesOf(nodes + [elem]) == ValuesOf(nodes) + [elem.value]
    ensures TotalBytes(ValuesOf(nodes + [elem])) == TotalBytes(ValuesOf(nodes)) + elem.value.bytes
  {
    ValuesConcat(nodes, [elem]);
    TotalBytesConcat(ValuesOf(nodes), [elem.value]);
  }

  lemma NotIndexed(nodes: seq<Element>, byID: map<string, Element>, id: string)
    requires Indexed(nodes, byID) && id !in byID
    ensures Without(ValuesOf(nodes), id) == ValuesOf(nodes) && Lookup(ValuesOf(nodes), id) == None
  {
    ValuesAt(nodes);
    WithoutAbsent(ValuesOf(nodes), id);
    MemoryRuns.LookupFinds(ValuesOf(nodes), id);
  }

  lemma IndexedLookup(nodes: seq<Element>, byID: map<string, Element>, id: string)
    requires Indexed(nodes, byID) && DistinctElements(nodes) && id in byID
    ensures Lookup(ValuesOf(nodes), id) == Some(byID[id].value.metadata)
  {
    IndexedIsDistinct(nodes, byID);
    ValuesAt(nodes);
    MemoryRuns.LookupFinds(ValuesOf(nodes), id);
    var k :| 0 <= k < |nodes| && nodes[k] == byID[id];
    assert ValuesOf(nodes)[k].id == id;
  }

  lemma OneRemoved(nodes: seq<Element>, k: nat)
    requires k < |nodes| && DistinctElements(nodes)
    ensures forall n :: n in nodes[..k] + nodes[k + 1..] <==> n in nodes && n != nodes[k]
  {
    var left := nodes[..k] + nodes[k + 1..];
    forall n | n in nodes && n != nodes[k]
      ensures n in left
    {
      var i :| 0 <= i < |nodes| && nodes[i] == n;
      assert left[if i < k then i else i - 1] == n;
    }
  }

  /** Without its element `k` the list is still free of repetitions; where each other element is then. */
  lemma CutOut(nodes: seq<Element>, k: nat)
    requires k < |nodes| && DistinctElements(nodes)
    ensures var left := nodes[..k] + nodes[k + 1..];
            && |left| == |nodes| - 1 && DistinctElements(left)
            && (forall i :: 0 <= i < |left| ==> left[i] == if i < k then nodes[i] else nodes[i + 1])
            && (forall i :: 0 <= i < |left| ==> left[i] != nodes[k])
  {
  }

  lemma IndexedRemove(nodes: seq<Element>, byID: map<string, Element>, k: nat)
    requires Indexed(nodes, byID) && DistinctElements(nodes) && k < |nodes|
    ensures Indexed(nodes[..k] + nodes[k + 1..], byID - {nodes[k].value.id})
  {
    OneRemoved(nodes, k);
  }

  lemma {:induction false} WithoutOfOthers(nodes: seq<Element>, id: string)
    requires forall n :: n in nodes ==> n.value.id != id
    ensures Without(ValuesOf(nodes), id) == ValuesOf(nodes)
  {
    if nodes != [] {
      WithoutOfOthers(nodes[1..], id);
    }
  }

  /** Taking out element `k` is taking out its id. */
  lemma ValuesRemoved(nodes: seq<Element>, byID: map<string, Element>, k: nat)
    requires Indexed(nodes, byID) && DistinctElements(nodes) && k < |nodes|
    ensures ValuesOf(nodes[..k] + nodes[k + 1..]) == Without(ValuesOf(nodes), nodes[k].value.id)
  {
    var front, elem, rest := nodes[..k], nodes[k], nodes[k + 1..];
    var id := elem.value.id;
    SplitAt(nodes, k);
    ValuesConcat(front, [elem] + rest);
    ValuesConcat(front, rest);
    OneRemoved(nodes, k);
    forall n | n in front || n in rest ensures n.value.id != id {
      assert n in front + rest;
    }
    WithoutOfOthers(front, id);
    WithoutOfOthers(rest, id);
    WithoutConcat(ValuesOf(front), ValuesOf([elem] + rest), id);
  }

  lemma BytesRemoved(nodes: seq<Element>, k: nat)
    requires k < |nodes|
    ensures TotalBytes(ValuesOf(nodes[..k] + nodes[k + 1..])) == TotalBytes(ValuesOf(nodes)) - nodes[k].value.bytes
  {
    var front, elem, rest := nodes[..k], nodes[k], nodes[k + 1..];
    SplitAt(nodes, k);
    ValuesConcat(front, [elem] + rest);
    ValuesConcat(front, rest);
    TotalBytesConcat(ValuesOf(front), ValuesOf([elem] + rest));
    TotalBytesConcat(ValuesOf(front), ValuesOf(rest));
  }

  // ---- What the two walks along the list have done so far --------------------------------

  /** The walk from the back has collected `out`, and has the first `k` elements before it. */
  ghost predicate Listed(nodes: seq<Element>, k: nat, n: nat, out: seq<Metadata>) {
    k <= |nodes| && |out| <= n && Newest(ValuesOf(nodes), n) == out + Newest(ValuesOf(nodes[..k]), n - |out|)
  }

  lemma ListedStart(nodes: seq<Element>, n: nat)
    ensures Listed(nodes, |nodes|, n, [])
  {
    assert nodes[..|nodes|] == nodes;
  }

  lemma ListedStep(nodes: seq<Element>, k: nat, n: nat, out: seq<Metadata>)
    requires Listed(nodes, k, n, out) && 0 < k && |out| < n
    ensures Listed(nodes, k - 1, n, out + [nodes[k - 1].value.metadata])
  {
    assert nodes[..k] == nodes[..k - 1] + [nodes[k - 1]];
    ValuesConcat(nodes[..k - 1], [nodes[k - 1]]);
    var values := ValuesOf(nodes[..k]);
    assert values[..|values| - 1] == ValuesOf(nodes[..k - 1]);
  }

  /** The walk from the front has kept the first `k` elements; the rest is still to be looked at. */
  ghost predicate Swept(before: seq<MemoryEntry>, nodes: seq<Element>, k: nat, cutoff: int) {
    k <= |nodes| && NotBefore(before, cutoff) == ValuesOf(nodes[..k]) + NotBefore(ValuesOf(nodes[k..]), cutoff)
  }

  lemma SweptStart(nodes: seq<Element>, cutoff: int)
    ensures Swept(ValuesOf(nodes), nodes, 0, cutoff)
  {
    assert nodes[0..] == nodes;
  }

  lemma SweptKeep(before: seq<MemoryEntry>, nodes: seq<Element>, k: nat, cutoff: int)
    requires Swept(before, nodes, k, cutoff) && k < |nodes| && nodes[k].value.createdAt >= cutoff
    ensures Swept(before, nodes, k + 1, cutoff)
  {
    assert nodes[..k + 1] == nodes[..k] + [nodes[k]];
    ValuesConcat(nodes[..k], [nodes[k]]);
    assert nodes[k..][1..] == nodes[k + 1..];
  }

  lemma SweptDrop(before: seq<MemoryEntry>, nodes: seq<Element>, k: nat, cutoff: int)
    requires Swept(before, nodes, k, cutoff) && k < |nodes| && nodes[k].value.createdAt < cutoff
    ensures Swept(before, nodes[..k] + nodes[k + 1..], k, cutoff)
  {
    assert nodes[k..][1..] == nodes[k + 1..];
    var left := nodes[..k] + nodes[k + 1..];
    assert left[..k] == nodes[..k] && left[k..] == nodes[k + 1..];
  }

  lemma SweptEnd(cap: Capacity, before: seq<MemoryEntry>, nodes: seq<Element>, cutoff: int)
    requires Swept(before, nodes, |nodes|, cutoff) && Fits(cap, before)
    ensures ValuesOf(nodes) == NotBefore(before, cutoff) && Fits(cap, ValuesOf(nodes))
  {
    assert nodes[..|nodes|] == nodes;
    NotBeforeFits(cap, before, cutoff);
  }

  lemma CleanupIs(cap: Capacity, s: seq<MemoryEntry>, maxAge: int, now: int)
    requires maxAge > 0
    ensures Apply(cap, s, CleanupCall(maxAge, now)) == NotBefore(s, now - maxAge)
  {
  }

  lemma StoreIs(cap: Capacity, s: seq<MemoryEntry>, md: Metadata, now: int)
    requires Check(Some(md)) == Stored
    ensures Apply(cap, s, StoreCall(Some(md), now)) == Evict(cap, Without(s, md.id) + [EntryOf(md, now)])
  {
  }

  /** The doubly linked list that holds the entries, the oldest in front. */
  class LinkedList {
    var front: Element?
    var back: Element?
    var len: nat
    ghost var nodes: seq<Element>
    ghost var elements: set<Element>  // every element that was ever in the list

    ghost predicate Valid()
      reads this, elements
    {
      && (forall n :: n in nodes ==> n in elements)
      && len == |nodes|
      && DistinctElements(nodes)
      && (nodes == [] ==> front == null && back == null)
      && (nodes != [] ==>
            && front == nodes[0] && nodes[0].prev == null
            && back == nodes[|nodes| - 1] && nodes[|nodes| - 1].next == null)
      && (forall i, j :: 0 <= i && j == i + 1 && j < |nodes| ==> nodes[i].next == nodes[j] && nodes[j].prev == nodes[i])
    }

    constructor ()
      ensures Valid() && nodes == [] && elements == {}
    {
      front, back, len, nodes, elements := null, null, 0, [], {};
    }

    method PushBack(value: MemoryEntry) returns (elem: Element)
      requires Valid()
      modifies this, elements
      ensures Valid() && fresh(elem) && elem.value == value
      ensures elements == old(elements) + {elem}
      ensures nodes == old(nodes) + [elem]
    {
      assert nodes != [] ==> back == nodes[|nodes| - 1] && back in nodes;
      elem := new Element(value);
      elem.prev := back;
      if back == null {
        front := elem;
      } else {
        back.next := elem;
      }
      back := elem;
      len := len + 1;
      nodes := nodes + [elem];
      elements := elements + {elem};
    }

    method Remove(elem: Element, ghost k: nat)
      requires Valid() && k < |nodes| && nodes[k] == elem
      modifies this, elements
      ensures Valid() && elements == old(elements)
      ensures nodes == old(nodes)[..k] + old(nodes)[k + 1..]
    {
      ghost var was := nodes;
      assert elem.prev == if k == 0 then null else nodes[k - 1];
      assert elem.next == if k == |nodes| - 1 then null else nodes[k + 1];
      assert k > 0 ==> nodes[k - 1] in nodes;
      assert k < |nodes| - 1 ==> nodes[k + 1] in nodes;
      if elem.prev == null {
        front := elem.next;
      } else {
        elem.prev.next := elem.next;
      }
      if elem.next == null {
        back := elem.prev;
      } else {
        elem.next.prev := elem.prev;
      }
      elem.prev := null;
      elem.next := null;
      len := len - 1;
      CutOut(nodes, k);
      nodes := nodes[..k] + nodes[k + 1..];
      forall i, j | 0 <= i && j == i + 1 && j < |nodes|
        ensures nodes[i].next == nodes[j] && nodes[j].prev == nodes[i]
      {
        if j < k {
          assert was[i].next == was[j] && was[j].prev == was[i];
        } else if i >= k {
          assert was[i + 1].next == was[j + 1] && was[j + 1].prev == was[i + 1];
        }
      }
    }
  }

  class InMemoryStorage {
    const entries: LinkedList
    var byID: map<string, Element>
    const maxEntries: int
    const maxBytes: int
    var totalBytes: int

    ghost function Capacities(): Capacity
      requires maxEntries > 0 && maxBytes > 0
    {
      Capacity(maxEntries, maxBytes)
    }

    /** What the store holds, the oldest entry first. */
    ghost function Entries(): seq<MemoryEntry>
      reads this, entries
    {
      ValuesOf(entries.nodes)
    }

    /** The list, the index and the byte total tell the same story. */
    ghost predicate Consistent()
      reads this, entries, entries.elements
    {
      && maxEntries > 0 && maxBytes > 0
      && entries.Valid()
      && Indexed(entries.nodes, byID)
      && totalBytes == TotalBytes(Entries())
    }

    /** What holds between calls: consistent, within both limits, every entry under its own id. */
    ghost predicate Valid()
      reads this, entries, entries.elements
    {
      && Consistent()
      && Fits(Capacities(), Entries())
    }

    constructor (maxEntries: int, maxBytes: int)
      ensures Valid() && Entries() == [] && fresh(entries)
      ensures this.maxEntries == if maxEntries <= 0 then 200 else maxEntries
      ensures this.maxBytes == if maxBytes <= 0 then 67108864 else maxBytes
    {
      this.maxEntries := if maxEntries <= 0 then DEFAULT_MAX_ENTRIES else maxEntries;
      this.maxBytes := if maxBytes <= 0 then DEFAULT_MAX_BYTES else maxBytes;
      entries := new LinkedList();
      byID := map[];
      totalBytes := 0;
    }

    method Store(metadata: Option<Metadata>, now: int) returns (r: StoreResult)
      requires Valid()
      modifies this, entries, entries.elements
      ensures Valid()
      ensures fresh(entries.elements - old(entries.elements))
      ensures metadata.None? ==> r == Refused(NilMetadata)
      ensures metadata.Some? && metadata.value.id == "" ==> r == Refused(EmptyId)
      ensures metadata.Some? && metadata.value.id != "" && metadata.value.json.None? ==> r == Refused(MarshalFailed)
      ensures r != Stored ==> Entries() == old(Entries()) && byID == old(byID)
      ensures metadata.Some? && metadata.value.id != "" && metadata.value.json.Some? ==>
                var md := metadata.value;
                && r == Stored
                && Entries() == Evict(Capacities(), Without(old(Entries()), md.id) + [MemoryEntry(md.id, md, now, |md.json.value|)])
      ensures Entries() == Apply(Capacities(), old(Entries()), StoreCall(metadata, now))
    {
      if metadata.None? {
        return Refused(NilMetadata);
      }
      if metadata.value.id == "" {
        return Refused(EmptyId);
      }
      if metadata.value.json.None? {
        return Refused(MarshalFailed);
      }
      var md := metadata.value;
      StoreIs(Capacities(), Entries(), md, now);
      if md.id in byID {
        ghost var k :| 0 <= k < |entries.nodes| && entries.nodes[k] == byID[md.id];
        RemoveElementLocked(byID[md.id], k);
      } else {
        NotIndexed(entries.nodes, byID, md.id);
      }
      var entry := MemoryEntry(md.id, md, now, |md.json.value|);
      AppendLocked(entry);
      EvictLocked();
      r := Stored;
    }

    method Get(id: string) returns (r: Option<Metadata>)
      requires Valid()
      ensures r == Lookup(Entries(), id)
    {
      if id !in byID {
        NotIndexed(entries.nodes, byID, id);
        return None;
      }
      IndexedLookup(entries.nodes, byID, id);
      r := Some(byID[id].value.metadata);
    }

    method List(limit: int) returns (out: seq<Metadata>)
      requires Valid()
      ensures out == Newest(Entries(), if limit <= 0 then maxEntries else limit)
    {
      var n := if limit <= 0 then maxEntries else limit;
      out := [];
      var elem := entries.back;
      ghost var nodes := entries.nodes;
      ghost var k: nat := |nodes|;
      ListedStart(nodes, n);
      while elem != null && |out| < n
        invariant Listed(nodes, k, n, out)
        invariant elem == if k == 0 then null else nodes[k - 1]
        decreases k
      {
        ListedStep(nodes, k, n, out);
        out := out + [elem.value.metadata];
        elem := elem.prev;
        k := k - 1;
      }
      assert nodes[..0] == [];
    }

    method Cleanup(maxAge: int, now: int)
      requires Valid()
      modifies this, entries, entries.elements
      ensures Valid() && entries.elements == old(entries.elements)
      ensures Entries() == Apply(Capacities(), old(Entries()), CleanupCall(maxAge, now))
    {
      if maxAge <= 0 {
        return;
      }
      var cutoff := now - maxAge;
      ghost var before := Entries();
      ghost var k: nat := 0;
      var elem := entries.front;
      SweptStart(entries.nodes, cutoff);
      while elem != null
        invariant Consistent() && entries.elements == old(entries.elements)
        invariant Swept(before, entries.nodes, k, cutoff)
        invariant elem == if k == |entries.nodes| then null else entries.nodes[k]
        decreases |entries.nodes| - k
      {
        var next := elem.next;
        assert next == if k + 1 == |entries.nodes| then null else entries.nodes[k + 1];
        if elem.value.createdAt < cutoff {
          SweptDrop(before, entries.nodes, k, cutoff);
          RemoveElementLocked(elem, k);
        } else {
          SweptKeep(before, entries.nodes, k, cutoff);
          k := k + 1;
        }
        elem := next;
      }
      SweptEnd(Capacities(), before, entries.nodes, cutoff);
      CleanupIs(Capacities(), before, maxAge, now);
    }

    method AppendLocked(entry: MemoryEntry)
      requires Consistent() && entry.id !in byID
      modifies this, entries, entries.elements
      ensures Consistent() && entry.id in byID && fresh(byID[entry.id])
      ensures entries.elements == old(entries.elements) + {byID[entry.id]}
      ensures Entries() == old(Entries()) + [entry]
    {
      ghost var nodes, index := entries.nodes, byID;
      var elem := entries.PushBack(entry);
      byID := byID[entry.id := elem];
      totalBytes := totalBytes + entry.bytes;
      IndexedPush(nodes, index, elem);
    }

    method EvictLocked()
      requires Consistent()
      modifies this, entries, entries.elements
      ensures Valid()
      ensures entries.elements == old(entries.elements)
      ensures Entries() == Evict(Capacities(), old(Entries()))
    {
      ValuesAt(entries.nodes);
      while entries.len > maxEntries || (maxBytes > 0 && totalBytes > maxBytes)
        invariant Consistent() && |Entries()| == entries.len
        invariant entries.elements == old(entries.elements)
        invariant Evict(Capacities(), Entries()) == Evict(Capacities(), old(Entries()))
        decreases entries.len
      {
        var elem := entries.front;
        // An empty list has no bytes, so neither limit can be exceeded.
        assert elem != null;
        ghost var nodes := entries.nodes;
        RemoveElementLocked(elem, 0);
        assert entries.nodes == nodes[1..];
        ValuesAt(entries.nodes);
      }
    }

    /** `k` is where the element is. */
    method RemoveElementLocked(elem: Element, ghost k: nat)
      requires Consistent() && k < |entries.nodes| && elem == entries.nodes[k]
      modifies this, entries, entries.elements
      ensures Consistent() && elem.value.id !in byID && entries.elements == old(entries.elements)
      ensures entries.nodes == old(entries.nodes)[..k] + old(entries.nodes)[k + 1..]
      ensures Entries() == Without(old(Entries()), elem.value.id)
    {
      ghost var nodes, index := entries.nodes, byID;
      assert elem == nodes[k];
      IndexedRemove(nodes, index, k);
      ValuesRemoved(nodes, index, k);
      BytesRemoved(nodes, k);
      byID := byID - {elem.value.id};
      assert byID == index - {nodes[k].value.id};
      totalBytes := totalBytes - elem.value.bytes;
      // The total is the exact sum of what is left, so it never needs clamping to zero.
      assert totalBytes >= 0;
      entries.Remove(elem, k);
    }
  }
}
