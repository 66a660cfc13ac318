/** What one redis pipeline does when its commands take time, when the index expires meanwhile, and when it breaks. */
module RedisLaws {
  import opened Common
  import opened Keys
  import opened Listing
  import opened RedisSpec

  lemma ExecuteSnoc(cfg: Config, b: Backend, pipe: seq<Command>, command: Command, clock: Clock, answers: Answers)
    ensures var before := ExecuteAll(cfg, b, pipe, clock, answers);
            ExecuteAll(cfg, b, pipe + [command], clock, answers) ==
              if answers(|pipe|).Failed? then before else Execute(cfg, before, command, clock(|pipe|))
  {
    assert (pipe + [command])[..|pipe|] == pipe;
  }

  /** The number of the last command, which sets the expiry of the index. */
  function LastCommand(cfg: Config): nat {
    if cfg.maxEntries > 0 then 3 else 2
  }

  /** A command that takes effect unless it fails. */
  function Attempt(cfg: Config, b: Backend, command: Command, now: int, answer: Answer): Backend {
    if answer.Failed? then b else Execute(cfg, b, command, now)
  }

  /** A pipeline command by command. */
  lemma PipelineUnfolds(cfg: Config, b: Backend, md: Metadata, clock: Clock, answers: Answers)
    ensures var withDoc := Attempt(cfg, b, SetDoc(md), clock(0), answers(0));
            var pushed := Attempt(cfg, withDoc, Push(md.id), clock(1), answers(1));
            ExecuteAll(cfg, b, Pipeline(cfg, md), clock, answers) == if cfg.maxEntries > 0
              then Attempt(cfg, Attempt(cfg, pushed, Trim, clock(2), answers(2)), Expire, clock(3), answers(3))
              else Attempt(cfg, pushed, Expire, clock(2), answers(2))
  {
    ExecuteSnoc(cfg, b, [], SetDoc(md), clock, answers);
    assert [] + [SetDoc(md)] == [SetDoc(md)];
    ExecuteSnoc(cfg, b, [SetDoc(md)], Push(md.id), clock, answers);
    var pipe := [SetDoc(md)] + [Push(md.id)];
    if cfg.maxEntries > 0 {
      ExecuteSnoc(cfg, b, pipe, Trim, clock, answers);
      ExecuteSnoc(cfg, b, pipe + [Trim], Expire, clock, answers);
    } else {
      assert pipe + [] == pipe;
      ExecuteSnoc(cfg, b, pipe, Expire, clock, answers);
    }
  }

  lemma StoreUnfolds(cfg: Config, b: Backend, md: Metadata, clock: Clock)
    ensures var pushed := Execute(cfg, Execute(cfg, b, SetDoc(md), clock(0)), Push(md.id), clock(1));
            Store(cfg, b, md, clock) == if cfg.maxEntries > 0
              then Execute(cfg, Execute(cfg, pushed, Trim, clock(2)), Expire, clock(3))
              else Execute(cfg, pushed, Expire, clock(2))
  {
    PipelineUnfolds(cfg, b, md, clock, ALL_ANSWERED);
  }

  /** The index does not expire between the push and the last command. */
  predicate Lasts(cfg: Config, b: Backend, clock: Clock) {
    b.index.Some? && b.index.value.deadline.Some? && clock(1) < b.index.value.deadline.value ==>
      clock(2) < b.index.value.deadline.value && clock(LastCommand(cfg)) < b.index.value.deadline.value
  }

  /**
    What one store leaves: the new document, every other one as it was, and an index that starts
    with the new id, is cut to the limit, and lives for one time to live from the last command.
  */
  lemma StoreEffect(cfg: Config, b: Backend, md: Metadata, clock: Clock)
    requires Lasts(cfg, b, clock)
    ensures Store(cfg, b, md, clock)
         == Backend(b.docs[md.id := Doc(md, clock(0) + cfg.ttl)],
                    Some(Index(Trimmed([md.id] + LiveIds(b, clock(1)), cfg.maxEntries), Some(clock(LastCommand(cfg)) + cfg.ttl))))
  {
    StoreUnfolds(cfg, b, md, clock);
    assert [md.id] + [] == [md.id];
  }

  /**
    What such a store makes readable, and until when: the document for one time to live from its own
    command on, and the list with the new id first for one from the last command on.
  */
  lemma StoredLives(cfg: Config, b: Backend, md: Metadata, clock: Clock, now: int)
    requires Lasts(cfg, b, clock)
    ensures Get(Store(cfg, b, md, clock), md.id, now) == if now < clock(0) + cfg.ttl then Some(md) else None
    ensures var ids := [md.id] + LiveIds(b, clock(1));
            var kept := if 0 < cfg.maxEntries < |ids| then ids[..cfg.maxEntries] else ids;
            LiveIds(Store(cfg, b, md, clock), now) == if now < clock(LastCommand(cfg)) + cfg.ttl then kept else []
  {
    StoreEffect(cfg, b, md, clock);
  }

  /**
    The one way to lose a stored id: after a completed pipeline the new id is listed exactly if the
    index did not expire between the push and the last command.
  */
  lemma ListedIff(cfg: Config, b: Backend, md: Metadata, clock: Clock)
    requires cfg.ttl > 0 && clock(1) <= clock(2) <= clock(3)
    ensures md.id in LiveIds(Store(cfg, b, md, clock), clock(LastCommand(cfg))) <==> Lasts(cfg, b, clock)
  {
    StoreUnfolds(cfg, b, md, clock);
    if Lasts(cfg, b, clock) {
      StoreEffect(cfg, b, md, clock);
      assert Trimmed([md.id] + LiveIds(b, clock(1)), cfg.maxEntries)[0] == md.id;
    }
  }

  /** An index that expires right after the push takes the new id with it, though the pipeline completes. */
  lemma TornPipeline(md: Metadata)
    ensures var cfg, b := Config(2, 100), Backend(map[], Some(Index(["old"], Some(10))));
            md.id !in LiveIds(Store(cfg, b, md, (k: nat) => if k <= 1 then 9 else 10), 10)
  {
    ListedIff(Config(2, 100), Backend(map[], Some(Index(["old"], Some(10)))), md, (k: nat) => if k <= 1 then 9 else 10);
  }

  // ---- Failing commands --------------------------------------------------------------------

  /** When every command is answered, a store succeeds and does what `Store` says. */
  lemma NoFailure(cfg: Config, b: Backend, md: Metadata, clock: Clock)
    ensures StoreUnder(cfg, b, md, clock, ALL_ANSWERED) == (Stored, Store(cfg, b, md, clock))
  {
  }

  /** The ids written in the index, expired or not. */
  function Written(b: Backend): seq<string> {
    if b.index.Some? then b.index.value.ids else []
  }

  lemma ListCommandKeepsDocs(cfg: Config, b: Backend, command: Command, now: int, answer: Answer)
    requires !command.SetDoc?
    ensures Attempt(cfg, b, command, now, answer).docs == b.docs
  {
  }

  lemma TailKeepsDocs(cfg: Config, pushed: Backend, clock: Clock, answers: Answers)
    ensures Attempt(cfg, Attempt(cfg, pushed, Trim, clock(2), answers(2)), Expire, clock(3), answers(3)).docs == pushed.docs
    ensures Attempt(cfg, pushed, Expire, clock(2), answers(2)).docs == pushed.docs
  {
    ListCommandKeepsDocs(cfg, pushed, Trim, clock(2), answers(2));
    ListCommandKeepsDocs(cfg, Attempt(cfg, pushed, Trim, clock(2), answers(2)), Expire, clock(3), answers(3));
  }

  /**
    What commands that fail leave: a store succeeds exactly if all its commands are answered, and
    whichever fail, the documents are the old ones, with the new one unless its own command failed.
  */
  lemma FailuresAreContained(cfg: Config, b: Backend, md: Metadata, clock: Clock, answers: Answers)
    ensures var (r, b') := StoreUnder(cfg, b, md, clock, answers);
            && (r == Stored <==> AllAnswered(answers, LastCommand(cfg) + 1))
            && (r != Stored ==> r == Refused(BackendFailed))
            && b'.docs == if answers(0).Failed? then b.docs else b.docs[md.id := Doc(md, clock(0) + cfg.ttl)]
  {
    PipelineUnfolds(cfg, b, md, clock, answers);
    var withDoc := Attempt(cfg, b, SetDoc(md), clock(0), answers(0));
    var pushed := Attempt(cfg, withDoc, Push(md.id), clock(1), answers(1));
    ListCommandKeepsDocs(cfg, withDoc, Push(md.id), clock(1), answers(1));
    TailKeepsDocs(cfg, pushed, clock, answers);
  }

  /** Trimming and expiry keep the first id of the index first, and bring none in. */
  lemma TailKeepsFirst(cfg: Config, pushed: Backend, clock: Clock, answers: Answers)
    ensures var b' := if cfg.maxEntries > 0
                      then Attempt(cfg, Attempt(cfg, pushed, Trim, clock(2), answers(2)), Expire, clock(3), answers(3))
                      else Attempt(cfg, pushed, Expire, clock(2), answers(2));
            && Written(b') <= Written(pushed)
            && (Written(pushed) != [] ==> Written(b') != [])
  {
  }

  /** What of the index is new: the id is written in it exactly if its push did not fail, when it was not in it before. */
  lemma WrittenIff(cfg: Config, b: Backend, md: Metadata, clock: Clock, answers: Answers)
    requires md.id !in Written(b)
    ensures md.id in Written(StoreUnder(cfg, b, md, clock, answers).1) <==> !answers(1).Failed?
  {
    PipelineUnfolds(cfg, b, md, clock, answers);
    var withDoc := Attempt(cfg, b, SetDoc(md), clock(0), answers(0));
    var pushed := Attempt(cfg, withDoc, Push(md.id), clock(1), answers(1));
    TailKeepsFirst(cfg, pushed, clock, answers);
    var ids := Written(StoreUnder(cfg, b, md, clock, answers).1);
    if answers(1).Failed? {
      assert forall k :: 0 <= k < |ids| ==> ids[k] == Written(b)[k];
    } else {
      assert ids[0] == Written(pushed)[0] == md.id;
    }
  }

  /**
    When a new id is listed without its document: exactly if the command that sets the document
    failed and the push did not. The other way round the document is there and not listed.
  */
  lemma DanglingIff(cfg: Config, b: Backend, md: Metadata, clock: Clock, answers: Answers)
    requires md.id !in b.docs && md.id !in Written(b)
    ensures var b' := StoreUnder(cfg, b, md, clock, answers).1;
            && (md.id in Written(b') && md.id !in b'.docs <==> answers(0).Failed? && !answers(1).Failed?)
            && (md.id !in Written(b') && md.id in b'.docs <==> !answers(0).Failed? && answers(1).Failed?)
  {
    FailuresAreContained(cfg, b, md, clock, answers);
    WrittenIff(cfg, b, md, clock, answers);
  }

  /** A server that refuses to set the document, out of memory say, and takes the rest: the store fails and the id is listed. */
  lemma RefusedSet(md: Metadata)
    ensures var answers := (k: nat) => if k == 0 then Failed else Answered;
            var (r, b') := StoreUnder(Config(2, 100), EMPTY, md, (k: nat) => 0, answers);
            r == Refused(BackendFailed) && LiveIds(b', 0) == [md.id] && Get(b', md.id, 0).None?
  {
    var answers := (k: nat) => if k == 0 then Failed else Answered;
    PipelineUnfolds(Config(2, 100), EMPTY, md, (k: nat) => 0, answers);
    assert !answers(0).Answered?;
    assert [md.id] + [] == [md.id];
  }
}
