/** The memcache backend in its own form: commands on a shared server, issued under one mutex. */
module MemcacheStorage {
  import opened Common
  import opened GoText
  import opened Keys
  import opened Listing
  import opened MemcacheSpec

  const DEFAULT_TTL_SECONDS := 3600

  datatype Value = DocValue(metadata: Metadata) | IdsValue(ids: seq<string>)
  datatype Item = Item(value: Value, deadline: int)

  /** The server: every command is atomic, happens at one instant of its clock, and is answered as `answer` says. */
  class Server {
    var items: map<string, Item>

    constructor ()
      ensures items == map[]
    {
      items := map[];
    }

    method Set(key: string, value: Value, expiration: nat, now: int, answer: Answer) returns (ok: bool)
      modifies this
      ensures ok == answer.Answered?
      ensures items == if answer.Failed? then old(items) else old(items)[key := Item(value, now + expiration)]
    {
      if !answer.Failed? {
        items := items[key := Item(value, now + expiration)];
      }
      return answer.Answered?;
    }

    method Get(key: string, now: int, answer: Answer) returns (r: Reading<Value>)
      ensures r == if !answer.Answered? then Unavailable
                   else if key in items && Alive(items[key].deadline, now) then Hit(items[key].value) else Miss
    {
      if !answer.Answered? {
        return Unavailable;
      }
      if key in items && Alive(items[key].deadline, now) {
        return Hit(items[key].value);
      }
      return Miss;
    }

    method Delete(key: string, answer: Answer) returns (ok: bool)
      modifies this
      ensures ok == answer.Answered?
      ensures items == if answer.Failed? then old(items) else old(items) - {key}
    {
      if !answer.Failed? {
        items := items - {key};
      }
      return answer.Answered?;
    }
  }

  /** The items under the keys of `prefix` are the payloads and the index of `b`, and nothing else. */
  ghost predicate Represents(items: map<string, Item>, prefix: string, b: Backend) {
    && (forall id: string :: ReqKey(prefix, id) in items <==> id in b.docs)
    && (forall id :: id in b.docs ==> items[ReqKey(prefix, id)] == Item(DocValue(b.docs[id].metadata), b.docs[id].deadline))
    && (IndexKey(prefix) in items <==> b.index.Some?)
    && (b.index.Some? ==> items[IndexKey(prefix)] == Item(IdsValue(b.index.value.ids), b.index.value.deadline))
  }

  lemma DocSet(items: map<string, Item>, prefix: string, b: Backend, id: string, doc: Doc)
    requires Represents(items, prefix, b)
    ensures Represents(items[ReqKey(prefix, id) := Item(DocValue(doc.metadata), doc.deadline)], prefix,
                       b.(docs := b.docs[id := doc]))
  {
    var key, item := ReqKey(prefix, id), Item(DocValue(doc.metadata), doc.deadline);
    forall other: string
      ensures ReqKey(prefix, other) in items[key := item] <==> other in b.docs[id := doc]
      ensures other in b.docs && other != id ==> items[key := item][ReqKey(prefix, other)] == items[ReqKey(prefix, other)]
    {
      ReqKeyInjective(prefix, other, id);
    }
    ReqKeyIsNotIndexKey(prefix, id);
  }

  lemma IndexSet(items: map<string, Item>, prefix: string, b: Backend, index: Index)
    requires Represents(items, prefix, b)
    ensures Represents(items[IndexKey(prefix) := Item(IdsValue(index.ids), index.deadline)], prefix,
                       b.(index := Some(index)))
  {
    forall other: string
      ensures ReqKey(prefix, other) != IndexKey(prefix)
    {
      ReqKeyIsNotIndexKey(prefix, other);
    }
  }

  lemma DocDeleted(items: map<string, Item>, prefix: string, b: Backend, id: string)
    requires Represents(items, prefix, b)
    ensures Represents(items - {ReqKey(prefix, id)}, prefix, b.(docs := b.docs - {id}))
  {
    var left := items - {ReqKey(prefix, id)};
    forall other: string
      ensures ReqKey(prefix, other) in left <==> other in b.docs - {id}
    {
      ReqKeyInjective(prefix, other, id);
    }
    ReqKeyIsNotIndexKey(prefix, id);
  }

  lemma DeletedOneMore(docs: map<string, Doc>, evicted: seq<string>, i: nat, answers: Answers)
    requires i < |evicted|
    ensures docs - IdSet(Deleted(evicted[..i + 1], answers))
         == if answers(i).Failed? then docs - IdSet(Deleted(evicted[..i], answers))
            else docs - IdSet(Deleted(evicted[..i], answers)) - {evicted[i]}
  {
    assert evicted[..i + 1][..i] == evicted[..i];
    var gone := Deleted(evicted[..i], answers);
    assert gone + [] == gone;
    assert IdSet(gone + [evicted[i]]) == IdSet(gone) + {evicted[i]};
  }

  /** The endpoints that are left after trimming. */
  function Usable(endpoints: seq<string>): seq<string> {
    if endpoints == [] then []
    else
      var k := |endpoints| - 1;
      Usable(endpoints[..k]) + if TrimSpace(endpoints[k]) == "" then [] else [TrimSpace(endpoints[k])]
  }

  lemma UsableSnoc(endpoints: seq<string>, last: string)
    ensures Usable(endpoints + [last]) == Usable(endpoints) + if TrimSpace(last) == "" then [] else [TrimSpace(last)]
  {
    assert (endpoints + [last])[..|endpoints|] == endpoints;
  }

  /** An endpoint is used as it is when trimmed, and not at all if that leaves nothing. */
  lemma {:induction false} UsableAre(endpoints: seq<string>, used: string)
    ensures used in Usable(endpoints) <==> used != "" && exists k :: 0 <= k < |endpoints| && used == TrimSpace(endpoints[k])
  {
    if endpoints != [] {
      var front, last := endpoints[..|endpoints| - 1], endpoints[|endpoints| - 1];
      assert endpoints == front + [last];
      UsableAre(front, used);
      UsableSnoc(front, last);
    }
  }

  lemma UsedIsNotBlank(endpoints: seq<string>, k: nat)
    requires k < |endpoints|
    ensures TrimSpace(endpoints[k]) in Usable(endpoints) <==> !AllSpace(endpoints[k])
  {
    UsableAre(endpoints, TrimSpace(endpoints[k]));
    BlankIff(endpoints[k]);
  }

  /** No endpoint is left exactly if all are blank. */
  lemma NoneUsable(endpoints: seq<string>)
    ensures Usable(endpoints) == [] <==> forall k :: 0 <= k < |endpoints| ==> AllSpace(endpoints[k])
  {
    var used := Usable(endpoints);
    forall k | 0 <= k < |endpoints| ensures TrimSpace(endpoints[k]) in used <==> !AllSpace(endpoints[k]) {
      UsedIsNotBlank(endpoints, k);
    }
    if used != [] {
      UsableAre(endpoints, used[0]);
    }
  }

  class Storage {
    const client: Server
    const prefix: string
    const indexKey: string
    const maxEntries: int
    const ttlSeconds: nat
    ghost var state: Backend

    ghost function Cfg(): Config {
      Config(maxEntries, ttlSeconds)
    }

    ghost predicate Valid()
      reads this, client
    {
      indexKey == IndexKey(prefix) && ttlSeconds > 0 && Represents(client.items, prefix, state)
    }

    constructor (client: Server, prefix: string, ttlSeconds: int, maxEntries: int, ghost b: Backend)
      requires Represents(client.items, prefix, b) && ttlSeconds > 0
      ensures Valid() && state == b && this.client == client && this.maxEntries == maxEntries
      ensures this.ttlSeconds == ttlSeconds && this.prefix == prefix
    {
      this.client := client;
      this.prefix := prefix;
      this.indexKey := prefix + ":index";
      this.ttlSeconds := ttlSeconds;
      this.maxEntries := maxEntries;
      this.state := b;
    }

    /**
      The backend over the endpoints that are not blank, or none when all are. `client` stands for
      those servers, and `b` is what they already hold under the prefix.
    */
    static method New(client: Server, endpoints: seq<string>, prefix: string, ttlSeconds: int, maxEntries: int, ghost b: Backend)
      returns (s: Storage?, used: seq<string>)
      requires Represents(client.items, PrefixOf(prefix), b)
      ensures used == Usable(endpoints) && (s == null <==> used == [])
      ensures s != null ==>
                && s.Valid() && fresh(s) && s.state == b && s.client == client && s.maxEntries == maxEntries
                && s.prefix == PrefixOf(prefix) && s.ttlSeconds == if ttlSeconds <= 0 then 3600 else ttlSeconds
    {
      used := [];
      for i := 0 to |endpoints|
        invariant used == Usable(endpoints[..i])
      {
        assert endpoints[..i + 1][..i] == endpoints[..i];
        var trimmed := TrimSpace(endpoints[i]);
        if trimmed != "" {
          used := used + [trimmed];
        }
      }
      assert endpoints[..|endpoints|] == endpoints;
      if |used| == 0 {
        return null, used;
      }
      var ttl := if ttlSeconds <= 0 then DEFAULT_TTL_SECONDS else ttlSeconds;
      s := new Storage(client, PrefixOf(prefix), ttl, maxEntries, b);
    }

    method Store(metadata: Option<Metadata>, setAt: int, loadAt: int, saveAt: int, answers: StoreAnswers) returns (r: StoreResult)
      requires Valid()
      modifies this, client
      ensures Valid()
      ensures metadata.None? ==> r == Refused(NilMetadata)
      ensures metadata.Some? && metadata.value.id == "" ==> r == Refused(EmptyId)
      ensures metadata.Some? && metadata.value.id != "" && metadata.value.json.None? ==> r == Refused(MarshalFailed)
      ensures metadata.None? || metadata.value.id == "" || metadata.value.json.None? ==>
                state == old(state) && client.items == old(client.items)
      ensures metadata.Some? && metadata.value.id != "" && metadata.value.json.Some? ==>
                (r, state) == StoreUnder(Cfg(), old(state), StoreAt(metadata.value, setAt, loadAt, saveAt), answers)
    {
      if metadata.None? {
        return Refused(NilMetadata);
      }
      if metadata.value.id == "" {
        return Refused(EmptyId);
      }
      if metadata.value.json.None? {
        return Refused(MarshalFailed);
      }
      var md := metadata.value;
      var ok := SetPayload(md, setAt, answers.onSet);
      if !ok {
        return Refused(BackendFailed);
      }
      r := UpdateIndexLocked(StoreAt(md, setAt, loadAt, saveAt), answers);
    }

    /** The part of `Store` under the mutex. */
    method UpdateIndexLocked(call: StoreAt, answers: StoreAnswers) returns (r: StoreResult)
      requires Valid()
      modifies this, client
      ensures Valid()
      ensures (r, state) == UpdateIndex(Cfg(), old(state), call, answers)
    {
      var loaded := LoadIndexLocked(call.loadAt, answers.onLoad);
      if loaded.None? {
        return Refused(BackendFailed);
      }
      var ids := PrependUnique(loaded.value, call.metadata.id);
      ghost var all := ids;
      var evicted := [];
      if maxEntries > 0 && |ids| > maxEntries {
        evicted := ids[maxEntries..];
        ids := ids[..maxEntries];
      }
      assert ids == KeptIds(Cfg(), all) && evicted == EvictedIds(Cfg(), all);
      var ok := SaveIndexLocked(ids, call.saveAt, answers.onSave);
      if !ok {
        return Refused(BackendFailed);
      }
      DeleteAllLocked(evicted, answers.onDelete);
      r := Stored;
    }

    /** An expired or missing document is a miss, any other failure an error. */
    method Get(id: string, now: int, answer: Answer) returns (r: Reading<Metadata>)
      requires Valid()
      ensures r == ReadingOf(GetterOf(state), id, now, answer)
      ensures r == if !answer.Answered? then Unavailable
                   else if id in state.docs && now < state.docs[id].deadline then Hit(state.docs[id].metadata) else Miss
    {
      var item := client.Get(ReqKey(prefix, id), now, answer);
      match item
      case Hit(value) => return Hit(value.metadata);
      case Miss => return Miss;
      case Unavailable => return Unavailable;
    }

    /** The index is read at `loadAt`, and the document at position `k` of it at `clock(k)`. */
    method List(limit: int, loadAt: int, load: Answer, clock: Clock, answers: Answers) returns (out: Option<seq<Metadata>>)
      requires Valid()
      ensures out == if load.Answered?
                     then Some(Found(GetterOf(state), Wanted(limit, LoadIndex(state, loadAt)), 0, clock, answers)) else None
    {
      var loaded := LoadIndexLocked(loadAt, load);
      if loaded.None? {
        return None;
      }
      var ids := loaded.value;
      var n := limit;
      if n <= 0 || n > |ids| {
        n := |ids|;
      }
      assert ids[..n] == Wanted(limit, ids);
      var docs := ReadAll(ids, n, clock, answers);
      out := Some(docs);
    }

    method ReadAll(ids: seq<string>, n: nat, clock: Clock, answers: Answers) returns (docs: seq<Metadata>)
      requires Valid() && n <= |ids|
      ensures docs == Found(GetterOf(state), ids[..n], 0, clock, answers)
    {
      docs := [];
      ghost var wanted, all := ids[..n], Found(GetterOf(state), ids[..n], 0, clock, answers);
      var i := 0;
      while i < n
        invariant 0 <= i <= n && all == docs + Found(GetterOf(state), wanted, i, clock, answers)
      {
        FoundNext(GetterOf(state), wanted, i, clock, answers, docs);
        var doc := Get(ids[i], clock(i), answers(i));
        if doc.Hit? {
          docs := docs + [doc.value];
        }
        i := i + 1;
      }
    }

    method SetPayload(md: Metadata, now: int, answer: Answer) returns (ok: bool)
      requires Valid()
      modifies this, client
      ensures Valid() && ok == answer.Answered? && state == SetDoc(Cfg(), old(state), md, now, answer)
    {
      DocSet(client.items, prefix, state, md.id, Doc(md, now + ttlSeconds));
      ok := client.Set(ReqKey(prefix, md.id), DocValue(md), ttlSeconds, now, answer);
      state := SetDoc(Cfg(), state, md, now, answer);
    }

    method DeleteAllLocked(evicted: seq<string>, answers: Answers)
      requires Valid()
      modifies this, client
      ensures Valid() && state == old(state).(docs := old(state).docs - IdSet(Deleted(evicted, answers)))
    {
      ghost var saved := state;
      assert saved.docs - IdSet(Deleted(evicted[..0], answers)) == saved.docs;
      var i := 0;
      while i < |evicted|
        invariant 0 <= i <= |evicted| && Valid()
        invariant state == saved.(docs := saved.docs - IdSet(Deleted(evicted[..i], answers)))
      {
        DeletedOneMore(saved.docs, evicted, i, answers);
        DocDeleted(client.items, prefix, state, evicted[i]);
        var ok := client.Delete(ReqKey(prefix, evicted[i]), answers(i));
        if !answers(i).Failed? {
          state := state.(docs := state.docs - {evicted[i]});
        }
        i := i + 1;
      }
      assert evicted[..i] == evicted;
    }

    /** A missing index reads as an empty one. */
    method LoadIndexLocked(now: int, answer: Answer) returns (ids: Option<seq<string>>)
      requires Valid()
      ensures ids == if answer.Answered? then Some(LoadIndex(state, now)) else None
    {
      var item := client.Get(indexKey, now, answer);
      match item
      case Hit(value) => return Some(value.ids);
      case Miss => return Some([]);
      case Unavailable => return None;
    }

    method SaveIndexLocked(ids: seq<string>, now: int, answer: Answer) returns (ok: bool)
      requires Valid()
      modifies this, client
      ensures Valid() && ok == answer.Answered? && state == SaveIndex(Cfg(), old(state), ids, now, answer)
    {
      IndexSet(client.items, prefix, state, Index(ids, now + ttlSeconds));
      ok := client.Set(indexKey, IdsValue(ids), ttlSeconds, now, answer);
      state := SaveIndex(Cfg(), state, ids, now, answer);
    }

    static method PrependUnique(ids: seq<string>, id: string) returns (out: seq<string>)
      ensures out == Keys.PrependUnique(ids, id)
    {
      out := [id];
      for i := 0 to |ids|
        invariant out == Keys.PrependUnique(ids[..i], id)
      {
        assert ids[..i + 1] == ids[..i] + [ids[i]];
        IdsWithoutConcat(ids[..i], [ids[i]], id);
        if ids[i] != id {
          out := out + [ids[i]];
        }
      }
      assert ids[..|ids|] == ids;
    }
  }
}
