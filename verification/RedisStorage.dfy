/** The redis backend in its own form: a pipeline of commands on a shared server. */
module RedisStorage {
  import opened Common
  import opened GoText
  import opened Keys
  import opened Listing
  import opened RedisSpec

  const DEFAULT_TTL := 3600

  datatype Value = DocValue(metadata: Metadata) | ListValue(ids: seq<string>)
  datatype Item = Item(value: Value, deadline: Option<int>)

  predicate Alive(item: Item, now: int) {
    item.deadline.Some? ==> now < item.deadline.value
  }

  /** The commands used of the server; a list key that is missing or has expired reads as the empty list. */
  class Server {
    var items: map<string, Item>

    constructor ()
      ensures items == map[]
    {
      items := map[];
    }

    /** No document is stored under the key. */
    ghost predicate NoDocAt(key: string)
      reads this
    {
      key in items ==> items[key].value.ListValue?
    }

    ghost predicate ListedAt(key: string, now: int)
      reads this
    {
      key in items && Alive(items[key], now)
    }

    method Set(key: string, md: Metadata, ttl: nat, now: int)
      modifies this
      ensures items == old(items)[key := Item(DocValue(md), Some(now + ttl))]
    {
      items := items[key := Item(DocValue(md), Some(now + ttl))];
    }

    method LPush(key: string, id: string, now: int)
      requires NoDocAt(key)
      modifies this
      ensures items == if old(ListedAt(key, now))
                       then old(items)[key := Item(ListValue([id] + old(items)[key].value.ids), old(items)[key].deadline)]
                       else old(items)[key := Item(ListValue([id]), None)]
    {
      if key in items && Alive(items[key], now) {
        items := items[key := Item(ListValue([id] + items[key].value.ids), items[key].deadline)];
      } else {
        items := items[key := Item(ListValue([id]), None)];
      }
    }

    /** `LTRIM key 0 stop`. */
    method LTrim(key: string, stop: nat, now: int)
      requires NoDocAt(key)
      modifies this
      ensures items == if old(ListedAt(key, now))
                       then old(items)[key := Item(ListValue(Take(old(items)[key].value.ids, stop + 1)), old(items)[key].deadline)]
                       else old(items)
    {
      if key in items && Alive(items[key], now) {
        items := items[key := Item(ListValue(Take(items[key].value.ids, stop + 1)), items[key].deadline)];
      }
    }

    method Expire(key: string, ttl: nat, now: int)
      modifies this
      ensures items == if old(ListedAt(key, now)) then old(items)[key := Item(old(items)[key].value, Some(now + ttl))]
                       else old(items)
    {
      if key in items && Alive(items[key], now) {
        items := items[key := Item(items[key].value, Some(now + ttl))];
      }
    }

    /** `LRANGE key 0 stop`. */
    method LRange(key: string, stop: nat, now: int, answer: Answer) returns (ids: Option<seq<string>>)
      requires NoDocAt(key)
      ensures ids == if !answer.Answered? then None
                     else if ListedAt(key, now) then Some(Take(items[key].value.ids, stop + 1)) else Some([])
    {
      if !answer.Answered? {
        return None;
      }
      if key in items && Alive(items[key], now) {
        return Some(Take(items[key].value.ids, stop + 1));
      }
      return Some([]);
    }

    method Get(key: string, now: int, answer: Answer) returns (r: Reading<Metadata>)
      ensures r == if !answer.Answered? then Unavailable
                   else if key in items && Alive(items[key], now) && items[key].value.DocValue?
                   then Hit(items[key].value.metadata) else Miss
    {
      if !answer.Answered? {
        return Unavailable;
      }
      if key in items && Alive(items[key], now) && items[key].value.DocValue? {
        return Hit(items[key].value.metadata);
      }
      return Miss;
    }
  }

  /** The items under the keys of `prefix` are the payloads and the index of `b`. */
  ghost predicate Represents(items: map<string, Item>, prefix: string, b: Backend) {
    && (forall id: string :: ReqKey(prefix, id) in items <==> id in b.docs)
    && (forall id :: id in b.docs ==>
          items[ReqKey(prefix, id)] == Item(DocValue(b.docs[id].metadata), Some(b.docs[id].deadline)))
    && (IndexKey(prefix) in items <==> b.index.Some?)
    && (b.index.Some? ==> items[IndexKey(prefix)] == Item(ListValue(b.index.value.ids), b.index.value.deadline))
  }

  lemma DocSet(items: map<string, Item>, prefix: string, b: Backend, id: string, doc: Doc)
    requires Represents(items, prefix, b)
    ensures Represents(items[ReqKey(prefix, id) := Item(DocValue(doc.metadata), Some(doc.deadline))], prefix,
                       b.(docs := b.docs[id := doc]))
  {
    var key, item := ReqKey(prefix, id), Item(DocValue(doc.metadata), Some(doc.deadline));
    forall other: string
      ensures ReqKey(prefix, other) in items[key := item] <==> other in b.docs[id := doc]
      ensures other in b.docs && other != id ==> items[key := item][ReqKey(prefix, other)] == items[ReqKey(prefix, other)]
    {
      ReqKeyInjective(prefix, other, id);
    }
    ReqKeyIsNotIndexKey(prefix, id);
  }

  lemma IndexSet(items: map<string, Item>, prefix: string, b: Backend, index: Index)
    requires Represents(items, prefix, b)
    ensures Represents(items[IndexKey(prefix) := Item(ListValue(index.ids), index.deadline)], prefix, b.(index := Some(index)))
  {
    forall other: string
      ensures ReqKey(prefix, other) != IndexKey(prefix)
    {
      ReqKeyIsNotIndexKey(prefix, other);
    }
  }

  lemma DocWritten(cfg: Config, items: map<string, Item>, prefix: string, b: Backend, md: Metadata, now: int)
    requires Represents(items, prefix, b)
    ensures Represents(items[ReqKey(prefix, md.id) := Item(DocValue(md), Some(now + cfg.ttl))], prefix,
                       Execute(cfg, b, SetDoc(md), now))
  {
    DocSet(items, prefix, b, md.id, Doc(md, now + cfg.ttl));
  }

  lemma ListPushed(cfg: Config, items: map<string, Item>, prefix: string, b: Backend, id: string, now: int)
    requires Represents(items, prefix, b)
    ensures var key := IndexKey(prefix);
            Represents(if key in items && Alive(items[key], now)
                       then items[key := Item(ListValue([id] + items[key].value.ids), items[key].deadline)]
                       else items[key := Item(ListValue([id]), None)],
                       prefix, Execute(cfg, b, Push(id), now))
  {
    IndexSet(items, prefix, b, Execute(cfg, b, Push(id), now).index.value);
  }

  lemma ListTrimmed(cfg: Config, items: map<string, Item>, prefix: string, b: Backend, now: int)
    requires Represents(items, prefix, b) && cfg.maxEntries > 0
    ensures var key := IndexKey(prefix);
            Represents(if key in items && Alive(items[key], now)
                       then items[key := Item(ListValue(Take(items[key].value.ids, cfg.maxEntries)), items[key].deadline)]
                       else items,
                       prefix, Execute(cfg, b, Trim, now))
  {
    if IndexAlive(b, now) {
      IndexSet(items, prefix, b, Execute(cfg, b, Trim, now).index.value);
    }
  }

  lemma ListExpiring(cfg: Config, items: map<string, Item>, prefix: string, b: Backend, now: int)
    requires Represents(items, prefix, b)
    ensures var key := IndexKey(prefix);
            Represents(if key in items && Alive(items[key], now)
                       then items[key := Item(items[key].value, Some(now + cfg.ttl))] else items,
                       prefix, Execute(cfg, b, Expire, now))
  {
    if IndexAlive(b, now) {
      IndexSet(items, prefix, b, Execute(cfg, b, Expire, now).index.value);
    }
  }

  lemma ExecutedOneMore(cfg: Config, b: Backend, pipe: seq<Command>, i: nat, clock: Clock, answers: Answers)
    requires i < |pipe|
    ensures var before := ExecuteAll(cfg, b, pipe[..i], clock, answers);
            ExecuteAll(cfg, b, pipe[..i + 1], clock, answers) ==
              if answers(i).Failed? then before else Execute(cfg, before, pipe[i], clock(i))
  {
    assert pipe[..i + 1][..i] == pipe[..i];
  }

  class Storage {
    const client: Server
    const prefix: string
    const indexKey: string
    const maxEntries: int
    const ttl: nat
    ghost var state: Backend

    ghost function Cfg(): Config {
      Config(maxEntries, ttl)
    }

    ghost predicate Valid()
      reads this, client
    {
      indexKey == IndexKey(prefix) && Represents(client.items, prefix, state)
    }

    constructor (client: Server, prefix: string, ttl: nat, maxEntries: int, ghost b: Backend)
      requires Represents(client.items, prefix, b)
      ensures Valid() && state == b && this.client == client && this.maxEntries == maxEntries
      ensures this.prefix == prefix && this.ttl == ttl
    {
      this.client := client;
      this.prefix := prefix;
      this.indexKey := prefix + ":index";
      this.ttl := ttl;
      this.maxEntries := maxEntries;
      this.state := b;
    }

    /** The backend, or none for a blank endpoint. `b` is what the server already holds under the prefix. */
    static method New(client: Server, endpoint: string, prefix: string, ttl: int, maxEntries: int, ghost b: Backend)
      returns (s: Storage?)
      requires Represents(client.items, PrefixOf(prefix), b)
      ensures s == null <==> TrimSpace(endpoint) == ""
      ensures s != null ==>
                && s.Valid() && fresh(s) && s.state == b && s.client == client && s.maxEntries == maxEntries
                && s.prefix == PrefixOf(prefix) && s.ttl == if ttl <= 0 then 3600 else ttl
    {
      if TrimSpace(endpoint) == "" {
        return null;
      }
      s := new Storage(client, PrefixOf(prefix), if ttl <= 0 then DEFAULT_TTL else ttl, maxEntries, b);
    }

    /** `clock` says when the server executes each command of the pipeline, and `answers` what becomes of it. */
    method Store(metadata: Option<Metadata>, clock: Clock, answers: Answers) returns (r: StoreResult)
      requires Valid()
      modifies this, client
      ensures Valid()
      ensures metadata.None? ==> r == Refused(NilMetadata)
      ensures metadata.Some? && metadata.value.id == "" ==> r == Refused(EmptyId)
      ensures metadata.Some? && metadata.value.id != "" && metadata.value.json.None? ==> r == Refused(MarshalFailed)
      ensures metadata.None? || metadata.value.id == "" || metadata.value.json.None? ==>
                state == old(state) && client.items == old(client.items)
      ensures metadata.Some? && metadata.value.id != "" && metadata.value.json.Some? ==>
                (r, state) == StoreUnder(Cfg(), old(state), metadata.value, clock, answers)
    {
      if metadata.None? {
        return Refused(NilMetadata);
      }
      if metadata.value.id == "" {
        return Refused(EmptyId);
      }
      if metadata.value.json.None? {
        return Refused(MarshalFailed);
      }
      var md := metadata.value;
      var pipe := [SetDoc(md)];
      pipe := pipe + [Push(md.id)];
      if maxEntries > 0 {
        pipe := pipe + [Trim];
      }
      pipe := pipe + [Expire];
      assert pipe == Pipeline(Cfg(), md);
      var ok := Exec(pipe, clock, answers);
      if !ok {
        return Refused(BackendFailed);
      }
      r := Stored;
    }

    /** Runs what a pipeline has queued; `ok` if no command ends in an error. */
    method Exec(pipe: seq<Command>, clock: Clock, answers: Answers) returns (ok: bool)
      requires Valid() && (Trim in pipe ==> maxEntries > 0)
      modifies this, client
      ensures Valid() && ok == AllAnswered(answers, |pipe|)
      ensures state == ExecuteAll(Cfg(), old(state), pipe, clock, answers)
    {
      ghost var b := state;
      ok := true;
      var i := 0;
      while i < |pipe|
        invariant 0 <= i <= |pipe| && Valid() && ok == AllAnswered(answers, i)
        invariant state == ExecuteAll(Cfg(), b, pipe[..i], clock, answers)
      {
        ExecutedOneMore(Cfg(), b, pipe, i, clock, answers);
        if !answers(i).Failed? {
          ExecOne(pipe[i], clock(i));
        }
        if !answers(i).Answered? {
          ok := false;
        }
        i := i + 1;
      }
      assert pipe[..|pipe|] == pipe;
    }

    method ExecOne(command: Command, now: int)
      requires Valid() && (command.Trim? ==> maxEntries > 0)
      modifies this, client
      ensures Valid() && state == Execute(Cfg(), old(state), command, now)
    {
      match command
      case SetDoc(md) => ExecSet(md, now);
      case Push(id) => ExecPush(id, now);
      case Trim => ExecTrim(now);
      case Expire => ExecExpire(now);
    }

    method ExecSet(md: Metadata, now: int)
      requires Valid()
      modifies this, client
      ensures Valid() && state == Execute(Cfg(), old(state), SetDoc(md), now)
    {
      ghost var next := Execute(Cfg(), state, SetDoc(md), now);
      DocWritten(Cfg(), client.items, prefix, state, md, now);
      client.Set(ReqKey(prefix, md.id), md, ttl, now);
      assert Represents(client.items, prefix, next);
      state := next;
    }

    method ExecPush(id: string, now: int)
      requires Valid()
      modifies this, client
      ensures Valid() && state == Execute(Cfg(), old(state), Push(id), now)
    {
      ListPushed(Cfg(), client.items, prefix, state, id, now);
      client.LPush(indexKey, id, now);
      state := Execute(Cfg(), state, Push(id), now);
    }

    method ExecTrim(now: int)
      requires Valid() && maxEntries > 0
      modifies this, client
      ensures Valid() && state == Execute(Cfg(), old(state), Trim, now)
    {
      ListTrimmed(Cfg(), client.items, prefix, state, now);
      client.LTrim(indexKey, maxEntries - 1, now);
      state := Execute(Cfg(), state, Trim, now);
    }

    method ExecExpire(now: int)
      requires Valid()
      modifies this, client
      ensures Valid() && state == Execute(Cfg(), old(state), Expire, now)
    {
      ListExpiring(Cfg(), client.items, prefix, state, now);
      client.Expire(indexKey, ttl, now);
      state := Execute(Cfg(), state, Expire, now);
    }

    /** An expired or missing document is a miss, any other failure an error. */
    method Get(id: string, now: int, answer: Answer) returns (r: Reading<Metadata>)
      requires Valid()
      ensures r == ReadingOf(GetterOf(state), id, now, answer)
      ensures r == if !answer.Answered? then Unavailable
                   else if id in state.docs && now < state.docs[id].deadline then Hit(state.docs[id].metadata) else Miss
    {
      r := client.Get(ReqKey(prefix, id), now, answer);
    }

    /** The index is read at `rangeAt`, and the document at position `k` of it at `clock(k)`. */
    method List(limit: int, rangeAt: int, range: Answer, clock: Clock, answers: Answers) returns (out: Option<seq<Metadata>>)
      requires Valid()
      ensures out == if range.Answered?
                     then Some(Found(GetterOf(state), Take(LiveIds(state, rangeAt), EffectiveLimit(limit, maxEntries)), 0, clock, answers))
                     else None
      ensures out.Some? ==>
                var n, ids := if limit > 0 then limit else if maxEntries > 0 then maxEntries else 50, LiveIds(state, rangeAt);
                out.value == Found(GetterOf(state), if n <= |ids| then ids[..n] else ids, 0, clock, answers)
    {
      var n := limit;
      if n <= 0 {
        n := maxEntries;
      }
      if n <= 0 {
        n := DEFAULT_LIST_LIMIT;
      }
      var ids := client.LRange(indexKey, n - 1, rangeAt, range);
      if ids.None? {
        return None;
      }
      var docs := ReadAll(ids.value, clock, answers);
      out := Some(docs);
    }

    method ReadAll(ids: seq<string>, clock: Clock, answers: Answers) returns (docs: seq<Metadata>)
      requires Valid()
      ensures docs == Found(GetterOf(state), ids, 0, clock, answers)
    {
      docs := [];
      ghost var all := Found(GetterOf(state), ids, 0, clock, answers);
      var i := 0;
      while i < |ids|
        invariant 0 <= i <= |ids| && all == docs + Found(GetterOf(state), ids, i, clock, answers)
      {
        FoundNext(GetterOf(state), ids, i, clock, answers, docs);
        var doc := Get(ids[i], clock(i), answers(i));
        if doc.Hit? {
          docs := docs + [doc.value];
        }
        i := i + 1;
      }
    }
  }
}
