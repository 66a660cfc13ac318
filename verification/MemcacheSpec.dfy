/** The memcache backend as a value: payloads and recency index, each with its time to live. */
module MemcacheSpec {
  import opened Common
  import opened Keys
  import opened Listing

  datatype Doc = Doc(metadata: Metadata, deadline: int)
  datatype Index = Index(ids: seq<string>, deadline: int)
  datatype Backend = Backend(docs: map<string, Doc>, index: Option<Index>)

  datatype Config = Config(maxEntries: int, ttl: nat)

  const EMPTY := Backend(map[], None)

  predicate Alive(deadline: int, now: int) {
    now < deadline
  }

  // ---- Store -------------------------------------------------------------------------------

  /** The ids in the index, none when there is no index or it has expired. */
  function LoadIndex(b: Backend, now: int): seq<string> {
    if b.index.Some? && Alive(b.index.value.deadline, now) then b.index.value.ids else []
  }

  function KeptIds(cfg: Config, ids: seq<string>): seq<string> {
    if cfg.maxEntries > 0 && |ids| > cfg.maxEntries then ids[..cfg.maxEntries] else ids
  }

  function EvictedIds(cfg: Config, ids: seq<string>): seq<string> {
    if cfg.maxEntries > 0 && |ids| > cfg.maxEntries then ids[cfg.maxEntries..] else []
  }

  /**
    One undisturbed `Store` call: the payload is set at `setAt`, the index is read at `loadAt`
    and written at `saveAt`, and then the payloads of the evicted ids are deleted.
  */
  datatype StoreAt = StoreAt(metadata: Metadata, setAt: int, loadAt: int, saveAt: int)

  /** The new index of a `Store` call, before it is cut. */
  function NewIds(b: Backend, call: StoreAt): seq<string> {
    PrependUnique(LoadIndex(b, call.loadAt), call.metadata.id)
  }

  function Store(cfg: Config, b: Backend, call: StoreAt): Backend {
    var docs := b.docs[call.metadata.id := Doc(call.metadata, call.setAt + cfg.ttl)];
    var ids := NewIds(b, call);
    Backend(docs - IdSet(EvictedIds(cfg, ids)), Some(Index(KeptIds(cfg, ids), call.saveAt + cfg.ttl)))
  }

  function Run(cfg: Config, calls: seq<StoreAt>): Backend {
    if calls == [] then EMPTY else Store(cfg, Run(cfg, calls[..|calls| - 1]), calls[|calls| - 1])
  }

  // ---- Store when commands fail ------------------------------------------------------------

  datatype StoreAnswers = StoreAnswers(onSet: Answer, onLoad: Answer, onSave: Answer, onDelete: Answers)

  function SetDoc(cfg: Config, b: Backend, md: Metadata, now: int, answer: Answer): Backend {
    if answer.Failed? then b else b.(docs := b.docs[md.id := Doc(md, now + cfg.ttl)])
  }

  function SaveIndex(cfg: Config, b: Backend, ids: seq<string>, now: int, answer: Answer): Backend {
    if answer.Failed? then b else b.(index := Some(Index(ids, now + cfg.ttl)))
  }

  /** The ids whose deletion takes effect; nobody looks at the answers. */
  function Deleted(evicted: seq<string>, answers: Answers): seq<string> {
    if evicted == [] then []
    else
      var k := |evicted| - 1;
      Deleted(evicted[..k], answers) + if answers(k).Failed? then [] else [evicted[k]]
  }

  /** The part of a `Store` call under the mutex, once the payload is set. */
  function UpdateIndex(cfg: Config, b: Backend, call: StoreAt, answers: StoreAnswers): (StoreResult, Backend) {
    if !answers.onLoad.Answered? then (Refused(BackendFailed), b)
    else
      var ids := NewIds(b, call);
      var saved := SaveIndex(cfg, b, KeptIds(cfg, ids), call.saveAt, answers.onSave);
      if !answers.onSave.Answered? then (Refused(BackendFailed), saved)
      else (Stored, saved.(docs := saved.docs - IdSet(Deleted(EvictedIds(cfg, ids), answers.onDelete))))
  }

  /** A `Store` call of an acceptable document, whatever the server answers: an error ends it at once. */
  function StoreUnder(cfg: Config, b: Backend, call: StoreAt, answers: StoreAnswers): (StoreResult, Backend) {
    var written := SetDoc(cfg, b, call.metadata, call.setAt, answers.onSet);
    if answers.onSet.Answered? then UpdateIndex(cfg, written, call, answers) else (Refused(BackendFailed), written)
  }

  // ---- Reading -----------------------------------------------------------------------------

  function Get(b: Backend, id: string, now: int): Option<Metadata> {
    if id in b.docs && Alive(b.docs[id].deadline, now) then Some(b.docs[id].metadata) else None
  }

  function GetterOf(b: Backend): Getter {
    (id, now) => Get(b, id, now)
  }

  function Wanted(limit: int, ids: seq<string>): seq<string> {
    if limit <= 0 || limit > |ids| then ids else ids[..limit]
  }

  /** `List` when every read is answered: the index is read at `loadAt`, then the documents one after another. */
  function List(b: Backend, limit: int, loadAt: int, clock: Clock): seq<Metadata> {
    Found(GetterOf(b), Wanted(limit, LoadIndex(b, loadAt)), 0, clock, ALL_ANSWERED)
  }
}
