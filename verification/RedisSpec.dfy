/** The redis backend as a value: one pipeline of commands per store, one range read and many gets per list. */
module RedisSpec {
  import opened Common
  import opened Keys
  import opened Listing

  const DEFAULT_LIST_LIMIT := 50

  datatype Doc = Doc(metadata: Metadata, deadline: int)

  /** A list key; without a deadline it does not expire. */
  datatype Index = Index(ids: seq<string>, deadline: Option<int>)

  /** Payloads by id and the recency index, newest push first. What has expired is as good as gone. */
  datatype Backend = Backend(docs: map<string, Doc>, index: Option<Index>)

  datatype Config = Config(maxEntries: int, ttl: nat)

  const EMPTY := Backend(map[], None)

  predicate IndexAlive(b: Backend, now: int) {
    b.index.Some? && (b.index.value.deadline.Some? ==> now < b.index.value.deadline.value)
  }

  function LiveIds(b: Backend, now: int): seq<string> {
    if IndexAlive(b, now) then b.index.value.ids else []
  }

  // ---- Store -------------------------------------------------------------------------------

  datatype Command = SetDoc(metadata: Metadata) | Push(id: string) | Trim | Expire

  function Trimmed(ids: seq<string>, maxEntries: int): seq<string> {
    if maxEntries > 0 then Take(ids, maxEntries) else ids
  }

  /** A push on a list that has expired starts a new list, which does not expire; the other list commands then do nothing. */
  function Execute(cfg: Config, b: Backend, command: Command, now: int): Backend {
    match command
    case SetDoc(md) => b.(docs := b.docs[md.id := Doc(md, now + cfg.ttl)])
    case Push(id) =>
      b.(index := Some(if IndexAlive(b, now) then b.index.value.(ids := [id] + b.index.value.ids) else Index([id], None)))
    case Trim =>
      if IndexAlive(b, now) then b.(index := Some(b.index.value.(ids := Trimmed(b.index.value.ids, cfg.maxEntries)))) else b
    case Expire =>
      if IndexAlive(b, now) then b.(index := Some(b.index.value.(deadline := Some(now + cfg.ttl)))) else b
  }

  /**
    The commands of a pipeline in order, command `k` at `clock(k)`. A pipeline is no transaction:
    each command has its own answer, and those after a failed one are executed all the same. When
    the connection breaks, the commands that did not get through are the ones that fail.
  */
  function ExecuteAll(cfg: Config, b: Backend, pipe: seq<Command>, clock: Clock, answers: Answers): Backend {
    if pipe == [] then b
    else
      var k := |pipe| - 1;
      var before := ExecuteAll(cfg, b, pipe[..k], clock, answers);
      if answers(k).Failed? then before else Execute(cfg, before, pipe[k], clock(k))
  }

  /** What `Store` queues. */
  function Pipeline(cfg: Config, md: Metadata): seq<Command> {
    [SetDoc(md)] + [Push(md.id)] + (if cfg.maxEntries > 0 then [Trim] else []) + [Expire]
  }

  /** Every one of the first `n` commands is answered. */
  predicate AllAnswered(answers: Answers, n: nat) {
    forall k :: 0 <= k < n ==> answers(k).Answered?
  }

  /** `Store` of an acceptable document: an error of any command makes it fail, once all are executed. */
  function StoreUnder(cfg: Config, b: Backend, md: Metadata, clock: Clock, answers: Answers): (StoreResult, Backend) {
    (if AllAnswered(answers, |Pipeline(cfg, md)|) then Stored else Refused(BackendFailed),
     ExecuteAll(cfg, b, Pipeline(cfg, md), clock, answers))
  }

  /** `Store` when every command is answered. */
  function Store(cfg: Config, b: Backend, md: Metadata, clock: Clock): Backend {
    ExecuteAll(cfg, b, Pipeline(cfg, md), clock, ALL_ANSWERED)
  }

  // ---- Reading -----------------------------------------------------------------------------

  function Get(b: Backend, id: string, now: int): Option<Metadata> {
    if id in b.docs && now < b.docs[id].deadline then Some(b.docs[id].metadata) else None
  }

  function GetterOf(b: Backend): Getter {
    (id, now) => Get(b, id, now)
  }

  function EffectiveLimit(limit: int, maxEntries: int): nat {
    if limit > 0 then limit else if maxEntries > 0 then maxEntries else DEFAULT_LIST_LIMIT
  }

  /** `List` when every read is answered: the index is read at `rangeAt`, then the documents one after another. */
  function List(b: Backend, limit: int, maxEntries: int, rangeAt: int, clock: Clock): seq<Metadata> {
    Found(GetterOf(b), Take(LiveIds(b, rangeAt), EffectiveLimit(limit, maxEntries)), 0, clock, ALL_ANSWERED)
  }
}
