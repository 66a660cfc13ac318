/** The runtime service: trace registration, log routing, and what completing a request does to everything. */
module Clockwork {
  import opened Common
  import opened LogTrace
  import CollectorSpec
  import Collector
  import Recency
  import MemoryRuns
  import MemoryStorage

  /** The collector after these calls, made one after another. */
  function ApplyAll(req: CollectorSpec.Request, lim: CollectorSpec.Limits, st: CollectorSpec.State, calls: seq<CollectorSpec.Call>)
    : CollectorSpec.State
    decreases calls
  {
    if calls == [] then st else ApplyAll(req, lim, CollectorSpec.Apply(req, lim, st, calls[0]), calls[1..])
  }

  lemma {:induction false} ApplyAllConcat(req: CollectorSpec.Request, lim: CollectorSpec.Limits, st: CollectorSpec.State,
                                          a: seq<CollectorSpec.Call>, b: seq<CollectorSpec.Call>)
    ensures ApplyAll(req, lim, st, a + b) == ApplyAll(req, lim, ApplyAll(req, lim, st, a), b)
    decreases a
  {
    if a == [] {
      assert a + b == b;
    } else {
      assert (a + b)[1..] == a[1..] + b;
      ApplyAllConcat(req, lim, CollectorSpec.Apply(req, lim, st, a[0]), a[1..], b);
    }
  }

  /** Applying calls to what a run left is running all of them. */
  lemma {:induction false} ApplyAllIsRun(req: CollectorSpec.Request, lim: CollectorSpec.Limits,
                                         before: seq<CollectorSpec.Call>, calls: seq<CollectorSpec.Call>)
    ensures ApplyAll(req, lim, CollectorSpec.Run(req, lim, before), calls) == CollectorSpec.Run(req, lim, before + calls)
    decreases calls
  {
    if calls == [] {
      assert before + calls == before;
    } else {
      assert before + calls == (before + [calls[0]]) + calls[1..];
      assert (before + [calls[0]])[..|before|] == before;
      ApplyAllIsRun(req, lim, before + [calls[0]], calls[1..]);
    }
  }

  /** What the storage is given for a snapshot; `encode` is the JSON encoder. */
  function Document(encode: CollectorSpec.RequestRecord -> Option<string>, snapshot: CollectorSpec.RequestRecord): Metadata {
    Metadata(snapshot.request.id, encode(snapshot))
  }

  function Unregistered<T>(active: map<string, T>, traceID: string): map<string, T> {
    active - {traceID}
  }

  class Clockwork {
    const enabled: bool
    const storage: MemoryStorage.InMemoryStorage
    const encode: CollectorSpec.RequestRecord -> Option<string>
    var dataSources: seq<seq<CollectorSpec.Call>>  // a data source is the collector calls it makes
    var activeByTrace: map<string, Collector.Collector>
    var activeCount: int

    constructor (enabled: bool, storage: MemoryStorage.InMemoryStorage, encode: CollectorSpec.RequestRecord -> Option<string>)
      ensures this.enabled == enabled && this.storage == storage && this.encode == encode
      ensures dataSources == [] && activeByTrace == map[] && activeCount == 0
    {
      this.enabled, this.storage, this.encode := enabled, storage, encode;
      dataSources, activeByTrace, activeCount := [], map[], 0;
    }

    method RegisterDataSource(source: seq<CollectorSpec.Call>)
      modifies this`dataSources
      ensures dataSources == old(dataSources) + [source]
    {
      dataSources := dataSources + [source];
    }

    /** The first registration of a trace id wins, and is the only one counted. */
    method RegisterTrace(traceID: string, collector: Collector.Collector)
      modifies this`activeByTrace, this`activeCount
      ensures activeByTrace == if traceID == "" || traceID in old(activeByTrace) then old(activeByTrace)
                               else old(activeByTrace)[traceID := collector]
      ensures activeCount - |activeByTrace| == old(activeCount - |activeByTrace|)
    {
      if traceID == "" {
        return;
      }
      if traceID !in activeByTrace {
        activeByTrace := activeByTrace[traceID := collector];
        activeCount := activeCount + 1;
      }
    }

    method UnregisterTrace(traceID: string)
      modifies this`activeByTrace, this`activeCount
      ensures activeByTrace == if traceID == "" then old(activeByTrace) else Unregistered(old(activeByTrace), traceID)
      ensures forall k :: k in activeByTrace <==> k in old(activeByTrace) && (k != traceID || traceID == "")
      ensures forall k :: k in activeByTrace ==> activeByTrace[k] == old(activeByTrace)[k]
      ensures activeCount - |activeByTrace| == old(activeCount - |activeByTrace|)
    {
      if traceID == "" {
        return;
      }
      if traceID in activeByTrace {
        assert activeByTrace == (activeByTrace - {traceID})[traceID := activeByTrace[traceID]];
        activeByTrace := activeByTrace - {traceID};
        activeCount := activeCount - 1;
      } else {
        assert activeByTrace - {traceID} == activeByTrace;
      }
    }

    method HasActiveTraces() returns (r: bool)
      ensures r <==> activeCount > 0
      ensures activeCount == |activeByTrace| ==> (r <==> activeByTrace != map[])
    {
      r := activeCount > 0;
    }

    /** A line with a registered trace id is recorded by that trace's collector, any other is dropped. */
    method RecordLogForTraceWithTrace(traceID: string, level: string, message: string,
                                      fields: seq<(string, CollectorSpec.FieldValue)>, trace: seq<Frame>,
                                      stack: seq<Frame>, now: real)
      modifies if traceID != "" && traceID in activeByTrace then {activeByTrace[traceID]} else {}
      ensures traceID != "" && traceID in activeByTrace ==>
                var c := activeByTrace[traceID];
                c.Model() == CollectorSpec.Apply(c.request, c.limits, old(c.Model()),
                                                 CollectorSpec.LogCall(level, message, fields, trace, stack, now))
    {
      if traceID == "" {
        return;
      }
      if traceID !in activeByTrace {
        return;
      }
      activeByTrace[traceID].AddLogEntryWithTrace(level, message, fields, trace, stack, now);
    }

    /** With a counter of one, some active collector records the line, and no other collector changes. */
    method RecordLogForSingleActiveWithTrace(level: string, message: string,
                                             fields: seq<(string, CollectorSpec.FieldValue)>, trace: seq<Frame>,
                                             stack: seq<Frame>, now: real) returns (r: bool)
      modifies activeByTrace.Values
      ensures r <==> activeCount == 1 && activeByTrace != map[]
      ensures !r ==> forall c :: c in activeByTrace.Values ==> c.Model() == old(c.Model())
      ensures r ==>
                (exists c :: c in activeByTrace.Values &&
                  c.Model() == CollectorSpec.Apply(c.request, c.limits, old(c.Model()),
                                                   CollectorSpec.LogCall(level, message, fields, trace, stack, now)) &&
                  (forall other :: other in activeByTrace.Values && other != c ==> other.Model() == old(other.Model())))
    {
      if activeCount != 1 || activeByTrace == map[] {
        return false;
      }
      var picked :| picked in activeByTrace;
      var c := activeByTrace[picked];
      assert c in activeByTrace.Values;
      c.AddLogEntryWithTrace(level, message, fields, trace, stack, now);
      return true;
    }

    /** One call of a data source on the collector it is given. */
    static method Perform(collector: Collector.Collector, call: CollectorSpec.Call)
      modifies collector
      ensures collector.Model() == CollectorSpec.Apply(collector.request, collector.limits, old(collector.Model()), call)
    {
      match call
      case DatabaseCall(query, elapsed, connection, slow, model, file, line, tableName, callerFile, callerLine, now) =>
        collector.AddDatabaseQueryDetailed(query, elapsed, connection, slow, model, file, line,
                                           tableName, callerFile, callerLine, now);
      case CacheCall(kind, key, elapsed, now) => collector.AddCacheQuery(kind, key, elapsed, now);
      case LogCall(level, message, fields, trace, stack, now) =>
        collector.AddLogEntryWithTrace(level, message, fields, trace, stack, now);
      case TimelineCall(name, description, start, end, color) => collector.AddTimelineEvent(name, description, start, end, color);
      case ResponseCall(status, elapsed, now, memory) => collector.SetResponseData(status, elapsed, now, memory);
      case UrlCall(url) => collector.SetURL(url);
      case ControllerCall(controller) => collector.SetController(controller);
      case TraceCall(traceID, spanID) => collector.SetTrace(traceID, spanID);
      case HeadersCall(headers) => collector.SetHeaders(headers);
      case UserDataCall(key, data) => collector.SetUserData(key, data);
    }

    static method Resolve(collector: Collector.Collector, calls: seq<CollectorSpec.Call>)
      modifies collector
      ensures collector.Model() == ApplyAll(collector.request, collector.limits, old(collector.Model()), calls)
    {
      var i := 0;
      while i < |calls|
        invariant 0 <= i <= |calls|
        invariant ApplyAll(collector.request, collector.limits, collector.Model(), calls[i..])
               == ApplyAll(collector.request, collector.limits, old(collector.Model()), calls)
      {
        assert calls[i..][1..] == calls[i + 1..];
        Perform(collector, calls[i]);
        i := i + 1;
      }
    }

    /** The calls that all data sources make, in the order they were registered. */
    static function AllCalls(sources: seq<seq<CollectorSpec.Call>>): seq<CollectorSpec.Call> {
      if sources == [] then [] else sources[0] + AllCalls(sources[1..])
    }

    /** One more data source makes its calls after all the others. */
    static lemma {:induction false} AllCallsSnoc(sources: seq<seq<CollectorSpec.Call>>, source: seq<CollectorSpec.Call>)
      ensures AllCalls(sources + [source]) == AllCalls(sources) + source
    {
      if sources == [] {
        assert [] + [source] == [source];
      } else {
        assert (sources + [source])[1..] == sources[1..] + [source];
        AllCallsSnoc(sources[1..], source);
      }
    }

    /** Every data source resolves, in the order of registration. */
    method ResolveAll(collector: Collector.Collector)
      modifies collector
      ensures collector.Model()
           == ApplyAll(collector.request, collector.limits, old(collector.Model()), AllCalls(dataSources))
    {
      ghost var before := collector.Model();
      var i := 0;
      assert dataSources[0..] == dataSources;
      while i < |dataSources|
        invariant 0 <= i <= |dataSources|
        invariant ApplyAll(collector.request, collector.limits, collector.Model(), AllCalls(dataSources[i..]))
               == ApplyAll(collector.request, collector.limits, before, AllCalls(dataSources))
      {
        assert dataSources[i..][1..] == dataSources[i + 1..];
        ApplyAllConcat(collector.request, collector.limits, collector.Model(), dataSources[i], AllCalls(dataSources[i + 1..]));
        Resolve(collector, dataSources[i]);
        i := i + 1;
      }
    }

    /** The collector's part of completing a request, up to the snapshot. */
    method Finish(collector: Collector.Collector, status: int, elapsed: int, now: real, memory: nat)
      returns (metadata: CollectorSpec.RequestRecord)
      modifies collector
      ensures collector.Model()
           == ApplyAll(collector.request, collector.limits, old(collector.Model()),
                       [CollectorSpec.ResponseCall(status, elapsed, now, memory)] + AllCalls(dataSources))
      ensures metadata == CollectorSpec.Snapshot(collector.request, collector.Model())
    {
      ghost var response := CollectorSpec.ResponseCall(status, elapsed, now, memory);
      assert ([response] + AllCalls(dataSources))[1..] == AllCalls(dataSources);
      collector.SetResponseData(status, elapsed, now, memory);
      ResolveAll(collector);
      metadata := collector.GetMetadata();
    }

    /** What saving a snapshot returns: nothing is wrong when nothing is stored. */
    function SaveResult(metadata: CollectorSpec.RequestRecord): StoreResult {
      if enabled then Check(Some(Document(encode, metadata))) else Stored
    }

    /** What saving a snapshot makes of the stored entries. */
    ghost function Saved(entries: seq<Recency.MemoryEntry>, metadata: CollectorSpec.RequestRecord, storedAt: int): seq<Recency.MemoryEntry>
      requires storage.maxEntries > 0 && storage.maxBytes > 0
    {
      if enabled
      then Recency.Apply(storage.Capacities(), entries, Recency.StoreCall(Some(Document(encode, metadata)), storedAt))
      else entries
    }

    /**
      What a snapshot with the id and the encoded text leaves of the entries `before`: nothing new when
      the service is disabled, or the id is empty, or there is no text; otherwise the call succeeds,
      and the id then leads to a document with this id and text, provided it fits by itself.
    */
    ghost predicate SavedAs(before: seq<Recency.MemoryEntry>, after: seq<Recency.MemoryEntry>, r: StoreResult,
                            id: string, text: Option<string>)
    {
      if !enabled then r == Stored && after == before
      else if id == "" then r == Refused(EmptyId) && after == before
      else if text.None? then r == Refused(MarshalFailed) && after == before
      else
        && r == Stored
        && (|text.value| <= storage.maxBytes ==> Recency.Lookup(after, id) == Some(Metadata(id, text)))
        && (|text.value| > storage.maxBytes ==> Recency.Lookup(after, id) == None)
    }

    lemma SavedIsFound(entries: seq<Recency.MemoryEntry>, metadata: CollectorSpec.RequestRecord, storedAt: int)
      requires storage.maxEntries > 0 && storage.maxBytes > 0
      requires Recency.DistinctIds(entries) && Recency.Fits(storage.Capacities(), entries)
      ensures SavedAs(entries, Saved(entries, metadata, storedAt), SaveResult(metadata), metadata.request.id, encode(metadata))
    {
      var document := Document(encode, metadata);
      CheckAccepts(Some(document));
      if enabled && Check(Some(document)) == Stored {
        MemoryRuns.StoreThenGet(storage.Capacities(), entries, document, storedAt);
      }
    }

    method SaveMetadata(metadata: CollectorSpec.RequestRecord, storedAt: int) returns (r: StoreResult)
      requires storage.Valid()
      modifies storage, storage.entries, storage.entries.elements
      ensures storage.Valid()
      ensures storage.Entries() == Saved(old(storage.Entries()), metadata, storedAt)
      ensures r == SaveResult(metadata)
      ensures SavedAs(old(storage.Entries()), storage.Entries(), r, metadata.request.id, encode(metadata))
    {
      MemoryStorage.IndexedIsDistinct(storage.entries.nodes, storage.byID);
      SavedIsFound(storage.Entries(), metadata, storedAt);
      if !enabled {
        return Stored;
      }
      r := storage.Store(Some(Document(encode, metadata)), storedAt);
    }

    /** The registry's and the storage's part of completing a request. */
    method Publish(metadata: CollectorSpec.RequestRecord, storedAt: int) returns (r: StoreResult)
      requires storage.Valid()
      modifies this`activeByTrace, this`activeCount, storage, storage.entries, storage.entries.elements
      ensures storage.Valid()
      ensures activeByTrace == if metadata.names.traceID == "" then old(activeByTrace)
                               else Unregistered(old(activeByTrace), metadata.names.traceID)
      ensures activeCount - |activeByTrace| == old(activeCount - |activeByTrace|)
      ensures storage.Entries() == Saved(old(storage.Entries()), metadata, storedAt)
      ensures r == SaveResult(metadata)
      ensures SavedAs(old(storage.Entries()), storage.Entries(), r, metadata.request.id, encode(metadata))
    {
      if metadata.names.traceID != "" {
        UnregisterTrace(metadata.names.traceID);
      }
      r := SaveMetadata(metadata, storedAt);
    }

    /**
      The collector gets the response and then every data source's calls; its trace id, as the
      snapshot shows it, leaves the registry; and the storage stores the encoded snapshot.
    */
    method CompleteRequest(collector: Collector.Collector, status: int, elapsed: int, now: real, memory: nat, storedAt: int)
      returns (r: StoreResult)
      requires storage.Valid()
      modifies collector, this`activeByTrace, this`activeCount, storage, storage.entries, storage.entries.elements
      ensures storage.Valid()
      ensures collector.Model()
           == ApplyAll(collector.request, collector.limits, old(collector.Model()),
                       [CollectorSpec.ResponseCall(status, elapsed, now, memory)] + AllCalls(dataSources))
      ensures activeByTrace == if collector.traceID == "" then old(activeByTrace)
                               else Unregistered(old(activeByTrace), collector.traceID)
      ensures activeCount - |activeByTrace| == old(activeCount - |activeByTrace|)
      ensures storage.Entries()
           == Saved(old(storage.Entries()), CollectorSpec.Snapshot(collector.request, collector.Model()), storedAt)
      ensures r == SaveResult(CollectorSpec.Snapshot(collector.request, collector.Model()))
      ensures SavedAs(old(storage.Entries()), storage.Entries(), r, collector.request.id,
                      encode(CollectorSpec.Snapshot(collector.request, collector.Model())))
      ensures forall k :: k in activeByTrace <==> k in old(activeByTrace) && (k != collector.traceID || k == "")
    {
      var metadata := Finish(collector, status, elapsed, now, memory);
      r := Publish(metadata, storedAt);
    }
  }
}
