/**
  Any number of threads inside the memcache backend's `Store` at once. Each thread sets its
  payload without the mutex; index read, index write and deletions happen under it.
*/
module MemcacheThreads {
  import opened Common
  import opened Keys
  import MemcacheSpec

  /** Where a thread is inside `Store`; a thread that is not in it has no phase. */
  datatype Phase =
    | Waiting(id: string)                    // payload set, mutex not yet taken
    | Holding(id: string)                    // mutex taken
    | Loaded(id: string, ids: seq<string>)   // index read
    | Deleting(evicted: seq<string>)         // index written, these payloads still to be deleted

  /** `docs` are the ids that have a payload; `saves` is the order in which the index was written. */
  datatype State = State(
    docs: set<string>, index: seq<string>, lock: Option<nat>, threads: map<nat, Phase>, saves: seq<string>)

  datatype Step =
    | SetPayload(t: nat, id: string)
    | Lock(t: nat)
    | LoadIndex(t: nat)
    | SaveIndex(t: nat)
    | DeleteNext(t: nat)
    | Unlock(t: nat)

  const INITIAL := State({}, [], None, map[], [])

  predicate Enabled(s: State, step: Step) {
    match step
    case SetPayload(t, id) => t !in s.threads && id != ""
    case Lock(t) => t in s.threads && s.threads[t].Waiting? && s.lock.None?
    case LoadIndex(t) => t in s.threads && s.threads[t].Holding?
    case SaveIndex(t) => t in s.threads && s.threads[t].Loaded?
    case DeleteNext(t) => t in s.threads && s.threads[t].Deleting? && s.threads[t].evicted != []
    case Unlock(t) => t in s.threads && s.threads[t] == Deleting([])
  }

  function Do(cfg: MemcacheSpec.Config, s: State, step: Step): State
    requires Enabled(s, step)
  {
    match step
    case SetPayload(t, id) => s.(docs := s.docs + {id}, threads := s.threads[t := Waiting(id)])
    case Lock(t) => s.(lock := Some(t), threads := s.threads[t := Holding(s.threads[t].id)])
    case LoadIndex(t) => s.(threads := s.threads[t := Loaded(s.threads[t].id, s.index)])
    case SaveIndex(t) =>
      var ids := PrependUnique(s.threads[t].ids, s.threads[t].id);
      s.(index := MemcacheSpec.KeptIds(cfg, ids),
         threads := s.threads[t := Deleting(MemcacheSpec.EvictedIds(cfg, ids))],
         saves := s.saves + [s.threads[t].id])
    case DeleteNext(t) =>
      var evicted := s.threads[t].evicted;
      s.(docs := s.docs - {evicted[0]}, threads := s.threads[t := Deleting(evicted[1..])])
    case Unlock(t) => s.(lock := None, threads := s.threads - {t})
  }

  /** The state after these steps, if each was possible when it was taken. */
  function Exec(cfg: MemcacheSpec.Config, steps: seq<Step>): Option<State> {
    if steps == [] then Some(INITIAL)
    else
      var before := Exec(cfg, steps[..|steps| - 1]);
      var step := steps[|steps| - 1];
      if before.Some? && Enabled(before.value, step) then Some(Do(cfg, before.value, step)) else None
  }

  // ---- The invariant -----------------------------------------------------------------------

  /** The thread still answers for the payload of `id`: it will list it, or delete it. */
  predicate AnswersFor(p: Phase, id: string) {
    match p
    case Waiting(x) => x == id
    case Holding(x) => x == id
    case Loaded(x, _) => x == id
    case Deleting(evicted) => id in evicted
  }

  predicate InMutex(p: Phase) {
    !p.Waiting?
  }

  ghost predicate Accounted(s: State, id: string) {
    id in s.index || exists t :: t in s.threads && AnswersFor(s.threads[t], id)
  }

  /** Whoever is inside the mutex holds the lock, and sees the index as it is. */
  ghost predicate Exclusive(s: State) {
    && (forall t :: t in s.threads && InMutex(s.threads[t]) ==> s.lock == Some(t))
    && (s.lock.Some? ==> s.lock.value in s.threads && InMutex(s.threads[s.lock.value]))
    && (forall t :: t in s.threads && s.threads[t].Loaded? ==> s.threads[t].ids == s.index)
  }

  ghost predicate NoOrphan(s: State) {
    forall id :: id in s.docs ==> Accounted(s, id)
  }

  lemma ExclusiveStep(cfg: MemcacheSpec.Config, s: State, step: Step)
    requires Exclusive(s) && Enabled(s, step)
    ensures Exclusive(Do(cfg, s, step))
  {}

  /** A step of thread `t` keeps `id` accounted for unless `t` answered for it and stops doing so. */
  lemma StillAccounted(s: State, s': State, t: nat, id: string)
    requires Accounted(s, id)
    requires forall u :: u in s.threads && u != t ==> u in s'.threads && s'.threads[u] == s.threads[u]
    requires id in s.index ==> Accounted(s', id)
    requires t in s.threads && AnswersFor(s.threads[t], id) ==> Accounted(s', id)
    ensures Accounted(s', id)
  {
    if id !in s.index {
      var u :| u in s.threads && AnswersFor(s.threads[u], id);
      if u != t {
        assert u in s'.threads && AnswersFor(s'.threads[u], id);
      }
    }
  }

  /** Writing the index: what drops out of it is what the writer will delete. */
  lemma SaveAccounts(cfg: MemcacheSpec.Config, s: State, t: nat, id: string)
    requires Exclusive(s) && Enabled(s, SaveIndex(t)) && Accounted(s, id)
    ensures Accounted(Do(cfg, s, SaveIndex(t)), id)
  {
    var s' := Do(cfg, s, SaveIndex(t));
    var p := s.threads[t];
    var ids := PrependUnique(p.ids, p.id);
    IdsWithoutMembers(p.ids, p.id);
    assert ids == MemcacheSpec.KeptIds(cfg, ids) + MemcacheSpec.EvictedIds(cfg, ids);
    if id in s.index || id == p.id {
      assert id in ids;
      assert id in s'.index || AnswersFor(s'.threads[t], id);
    }
    StillAccounted(s, s', t, id);
  }

  lemma NoOrphanStep(cfg: MemcacheSpec.Config, s: State, step: Step)
    requires Exclusive(s) && NoOrphan(s) && Enabled(s, step)
    ensures NoOrphan(Do(cfg, s, step))
  {
    var s', t := Do(cfg, s, step), step.t;
    forall id | id in s'.docs
      ensures Accounted(s', id)
    {
      if step.SaveIndex? {
        SaveAccounts(cfg, s, t, id);
      } else if id in s.docs {
        assert step.Unlock? || t in s'.threads;
        assert !step.Unlock? && t in s.threads && AnswersFor(s.threads[t], id) ==> AnswersFor(s'.threads[t], id);
        StillAccounted(s, s', t, id);
      } else {
        assert AnswersFor(s'.threads[t], id);
      }
    }
  }

  // ---- Main results ------------------------------------------------------------------------

  /** The index holds the most recently saved ids, at most `maxEntries` of them. */
  ghost predicate IndexIsRecent(cfg: MemcacheSpec.Config, s: State) {
    s.index == if cfg.maxEntries > 0 then Take(RecentIds(s.saves), cfg.maxEntries) else RecentIds(s.saves)
  }

  lemma IndexStep(cfg: MemcacheSpec.Config, s: State, step: Step)
    requires Exclusive(s) && IndexIsRecent(cfg, s) && Enabled(s, step)
    ensures IndexIsRecent(cfg, Do(cfg, s, step))
  {
    if step.SaveIndex? {
      var id := s.threads[step.t].id;
      assert (s.saves + [id])[..|s.saves|] == s.saves;
      RecentIdsOrder(s.saves);
      var ids := PrependUnique(s.index, id);
      if cfg.maxEntries > 0 {
        TakePrepend(RecentIds(s.saves), id, cfg.maxEntries);
        assert |ids| <= cfg.maxEntries ==> Take(ids, cfg.maxEntries) == ids;
      }
    }
  }

  /**
    Safety under every interleaving: after any steps of any threads, the mutex is exclusive, no
    payload is orphaned, and the index is exactly the `maxEntries` most recently saved ids, so it
    never repeats an id and never outgrows the limit.
  */
  lemma {:induction false} EveryInterleaving(cfg: MemcacheSpec.Config, steps: seq<Step>)
    requires Exec(cfg, steps).Some?
    ensures var s := Exec(cfg, steps).value;
            && Exclusive(s) && NoOrphan(s) && IndexIsRecent(cfg, s)
            && Distinct(s.index)
            && (cfg.maxEntries > 0 ==> |s.index| <= cfg.maxEntries)
  {
    var s := Exec(cfg, steps).value;
    if steps != [] {
      var before, step := steps[..|steps| - 1], steps[|steps| - 1];
      EveryInterleaving(cfg, before);
      ExclusiveStep(cfg, Exec(cfg, before).value, step);
      NoOrphanStep(cfg, Exec(cfg, before).value, step);
      IndexStep(cfg, Exec(cfg, before).value, step);
    }
    RecentIdsOrder(s.saves);
  }

  lemma {:induction false} IdSetSize(ids: seq<string>)
    ensures |IdSet(ids)| <= |ids|
  {
    if ids == [] {
      assert IdSet(ids) == {};
    } else {
      IdSetSize(ids[1..]);
      assert IdSet(ids) == {ids[0]} + IdSet(ids[1..]);
    }
  }

  lemma SubsetSize(a: set<string>, b: set<string>)
    requires a <= b
    ensures |a| <= |b|
  {
    assert b == a + (b - a);
  }

  /** When no thread is inside `Store`, every payload is listed, so no more than `maxEntries` payloads are kept. */
  lemma QuietStore(cfg: MemcacheSpec.Config, steps: seq<Step>)
    requires Exec(cfg, steps).Some? && Exec(cfg, steps).value.threads == map[]
    ensures var s := Exec(cfg, steps).value;
            && s.docs <= IdSet(s.index)
            && (cfg.maxEntries > 0 ==> |s.docs| <= cfg.maxEntries)
  {
    var s := Exec(cfg, steps).value;
    EveryInterleaving(cfg, steps);
    assert forall id :: id in s.docs ==> Accounted(s, id);
    IdSetSize(s.index);
    SubsetSize(s.docs, IdSet(s.index));
  }

  // ---- Payloads of listed ids --------------------------------------------------------------

  /** The id a thread will list once it saves. */
  predicate WillList(p: Phase, id: string) {
    !p.Deleting? && p.id == id
  }

  /** What is listed or is going to be has its payload. */
  ghost predicate Backed(s: State) {
    && (forall id :: id in s.index ==> id in s.docs)
    && (forall t, id :: t in s.threads && WillList(s.threads[t], id) ==> id in s.docs)
  }

  /** The step deletes the payload of an id that another thread has set again and is going to list. */
  ghost predicate DeletesAwaited(s: State, step: Step) {
    && step.DeleteNext? && Enabled(s, step)
    && exists u :: u in s.threads && WillList(s.threads[u], s.threads[step.t].evicted[0])
  }

  /** What is to be deleted is not listed. */
  ghost predicate EvictedUnlisted(s: State) {
    forall t, id :: t in s.threads && s.threads[t].Deleting? && id in s.threads[t].evicted ==> id !in s.index
  }

  lemma SplitApart(a: seq<string>, b: seq<string>)
    requires Distinct(a + b)
    ensures forall x :: x in a ==> x !in b
  {
    forall i, j | 0 <= i < |a| && 0 <= j < |b| ensures a[i] != b[j] {
      assert (a + b)[i] == a[i] && (a + b)[|a| + j] == b[j];
    }
  }

  lemma PrependedDistinct(ids: seq<string>, id: string)
    requires Distinct(ids)
    ensures Distinct(PrependUnique(ids, id))
  {
    IdsWithoutMembers(ids, id);
    var rest := IdsWithout(ids, id);
    forall k | 0 <= k < |rest| ensures rest[k] != id {
      assert rest[k] in rest;
    }
  }

  /** Writing the index distributes the listed ids and the new one over the index and the ids to be deleted. */
  lemma SaveDistributes(cfg: MemcacheSpec.Config, s: State, t: nat)
    requires Exclusive(s) && Distinct(s.index) && Enabled(s, SaveIndex(t))
    ensures var s' := Do(cfg, s, SaveIndex(t));
            && s'.threads[t].Deleting?
            && (forall id :: id in s'.index || id in s'.threads[t].evicted <==> id in s.index || id == s.threads[t].id)
            && (forall id :: id in s'.index ==> id !in s'.threads[t].evicted)
  {
    var id := s.threads[t].id;
    var ids := PrependUnique(s.index, id);
    var kept, evicted := MemcacheSpec.KeptIds(cfg, ids), MemcacheSpec.EvictedIds(cfg, ids);
    IdsWithoutMembers(s.index, id);
    PrependedDistinct(s.index, id);
    assert ids == kept + evicted;
    SplitApart(kept, evicted);
    assert forall x :: x in kept || x in evicted <==> x in kept + evicted;
  }

  lemma EvictedStep(cfg: MemcacheSpec.Config, s: State, step: Step)
    requires Exclusive(s) && EvictedUnlisted(s) && Distinct(s.index) && Enabled(s, step)
    ensures EvictedUnlisted(Do(cfg, s, step))
  {
    if step.SaveIndex? {
      SaveDistributes(cfg, s, step.t);
    }
  }

  lemma {:induction false} AlwaysUnlisted(cfg: MemcacheSpec.Config, steps: seq<Step>)
    requires Exec(cfg, steps).Some?
    ensures EvictedUnlisted(Exec(cfg, steps).value)
  {
    if steps != [] {
      AlwaysUnlisted(cfg, steps[..|steps| - 1]);
      EveryInterleaving(cfg, steps[..|steps| - 1]);
      EvictedStep(cfg, Exec(cfg, steps[..|steps| - 1]).value, steps[|steps| - 1]);
    }
  }

  /** One step keeps the payloads exactly if it deletes none that is awaited. */
  lemma BackedStepIff(cfg: MemcacheSpec.Config, s: State, step: Step)
    requires Exclusive(s) && EvictedUnlisted(s) && Distinct(s.index) && Backed(s) && Enabled(s, step)
    ensures Backed(Do(cfg, s, step)) <==> !DeletesAwaited(s, step)
  {
    var s' := Do(cfg, s, step);
    if step.SaveIndex? {
      SaveDistributes(cfg, s, step.t);
      assert WillList(s.threads[step.t], s.threads[step.t].id);
    } else if step.DeleteNext? {
      var gone := s.threads[step.t].evicted[0];
      assert gone !in s'.docs && gone !in s.index;
      if u :| u in s.threads && WillList(s.threads[u], gone) {
        assert u in s'.threads && WillList(s'.threads[u], gone);
      }
    }
  }

  ghost predicate AlwaysBacked(cfg: MemcacheSpec.Config, steps: seq<Step>)
    requires Exec(cfg, steps).Some?
  {
    Backed(Exec(cfg, steps).value) && (steps == [] || AlwaysBacked(cfg, steps[..|steps| - 1]))
  }

  ghost predicate NeverDeletesAwaited(cfg: MemcacheSpec.Config, steps: seq<Step>)
    requires Exec(cfg, steps).Some?
  {
    steps == [] ||
    (NeverDeletesAwaited(cfg, steps[..|steps| - 1]) && !DeletesAwaited(Exec(cfg, steps[..|steps| - 1]).value, steps[|steps| - 1]))
  }

  /**
    When listed ids have their payloads, for every interleaving: everything listed or going to be
    has its payload all through a run exactly if no thread ever deletes the payload of an id that
    another thread has set again and is going to list.
  */
  lemma {:induction false} BackedIff(cfg: MemcacheSpec.Config, steps: seq<Step>)
    requires Exec(cfg, steps).Some?
    ensures AlwaysBacked(cfg, steps) <==> NeverDeletesAwaited(cfg, steps)
  {
    if steps != [] {
      var before, step := steps[..|steps| - 1], steps[|steps| - 1];
      BackedIff(cfg, before);
      if AlwaysBacked(cfg, before) {
        EveryInterleaving(cfg, before);
        AlwaysUnlisted(cfg, before);
        BackedStepIff(cfg, Exec(cfg, before).value, step);
      }
    }
  }

  // ---- Ids in use once ---------------------------------------------------------------------

  /** Every id is in one place: in the index, or with one thread. */
  ghost predicate OnePlace(s: State) {
    && (forall t, id :: t in s.threads && AnswersFor(s.threads[t], id) ==> id !in s.index)
    && (forall t, u, id :: t in s.threads && u in s.threads && AnswersFor(s.threads[t], id) && AnswersFor(s.threads[u], id) ==> t == u)
  }

  /** A payload is only set for an id that is neither listed nor still in the hands of a thread. */
  ghost predicate SetsUnused(s: State, step: Step) {
    step.SetPayload? ==> !Accounted(s, step.id)
  }

  ghost predicate AlwaysUnused(cfg: MemcacheSpec.Config, steps: seq<Step>)
    requires Exec(cfg, steps).Some?
  {
    steps == [] ||
    (AlwaysUnused(cfg, steps[..|steps| - 1]) && SetsUnused(Exec(cfg, steps[..|steps| - 1]).value, steps[|steps| - 1]))
  }

  lemma OnePlaceStep(cfg: MemcacheSpec.Config, s: State, step: Step)
    requires Exclusive(s) && OnePlace(s) && Distinct(s.index) && Enabled(s, step) && SetsUnused(s, step)
    ensures OnePlace(Do(cfg, s, step))
  {
    if step.SaveIndex? {
      SaveDistributes(cfg, s, step.t);
      assert AnswersFor(s.threads[step.t], s.threads[step.t].id);
    }
  }

  lemma OnePlaceDeletes(s: State, step: Step)
    requires OnePlace(s)
    ensures !DeletesAwaited(s, step)
  {
    if DeletesAwaited(s, step) {
      var gone := s.threads[step.t].evicted[0];
      var u :| u in s.threads && WillList(s.threads[u], gone);
      assert AnswersFor(s.threads[u], gone) && AnswersFor(s.threads[step.t], gone);
    }
  }

  lemma {:induction false} UnusedIsOnePlace(cfg: MemcacheSpec.Config, steps: seq<Step>)
    requires Exec(cfg, steps).Some? && AlwaysUnused(cfg, steps)
    ensures OnePlace(Exec(cfg, steps).value) && NeverDeletesAwaited(cfg, steps)
  {
    if steps != [] {
      var before, step := steps[..|steps| - 1], steps[|steps| - 1];
      UnusedIsOnePlace(cfg, before);
      EveryInterleaving(cfg, before);
      OnePlaceStep(cfg, Exec(cfg, before).value, step);
      OnePlaceDeletes(Exec(cfg, before).value, step);
    }
  }

  /**
    When no id is stored again while it is listed or a thread is still busy with it: after every
    interleaving every listed id has its payload, and with no thread inside the payloads are
    exactly those of the listed ids.
  */
  lemma ListedHavePayloads(cfg: MemcacheSpec.Config, steps: seq<Step>)
    requires Exec(cfg, steps).Some? && AlwaysUnused(cfg, steps)
    ensures var s := Exec(cfg, steps).value;
            IdSet(s.index) <= s.docs && (s.threads == map[] ==> s.docs == IdSet(s.index))
  {
    UnusedIsOnePlace(cfg, steps);
    BackedIff(cfg, steps);
    assert Backed(Exec(cfg, steps).value);
    if Exec(cfg, steps).value.threads == map[] {
      QuietStore(cfg, steps);
    }
  }

  /** The ids whose payloads were set, in order. */
  function Given(steps: seq<Step>): seq<string> {
    if steps == [] then []
    else
      var step := steps[|steps| - 1];
      Given(steps[..|steps| - 1]) + if step.SetPayload? then [step.id] else []
  }

  /** Only a payload that is set brings an id in. */
  lemma AccountedBefore(cfg: MemcacheSpec.Config, s: State, step: Step, id: string)
    requires Exclusive(s) && Enabled(s, step) && Accounted(Do(cfg, s, step), id)
    ensures Accounted(s, id) || (step.SetPayload? && step.id == id)
  {
    var s' := Do(cfg, s, step);
    if step.SaveIndex? {
      var p := s.threads[step.t];
      var ids := PrependUnique(s.index, p.id);
      IdsWithoutMembers(s.index, p.id);
      assert ids == MemcacheSpec.KeptIds(cfg, ids) + MemcacheSpec.EvictedIds(cfg, ids);
      assert AnswersFor(p, p.id);
      assert id in ids ==> Accounted(s, id);
    }
    if id !in s'.index {
      var u :| u in s'.threads && AnswersFor(s'.threads[u], id);
      if u != step.t {
        assert u in s.threads && AnswersFor(s.threads[u], id);
      }
    }
  }

  lemma GivenStep(cfg: MemcacheSpec.Config, s: State, step: Step, given: seq<string>)
    requires Exclusive(s) && Enabled(s, step) && forall id :: Accounted(s, id) ==> id in given
    ensures var s' := Do(cfg, s, step);
            forall id :: Accounted(s', id) ==> id in given + if step.SetPayload? then [step.id] else []
  {
    var s' := Do(cfg, s, step);
    var given' := given + if step.SetPayload? then [step.id] else [];
    forall id | Accounted(s', id) ensures id in given' {
      AccountedBefore(cfg, s, step, id);
      assert step.SetPayload? ==> given'[|given|] == step.id;
    }
  }

  lemma DistinctLast(ids: seq<string>, last: string)
    requires Distinct(ids + [last])
    ensures Distinct(ids) && last !in ids
  {
    forall k | 0 <= k < |ids| ensures (ids + [last])[k] == ids[k] != last {
      assert (ids + [last])[|ids|] == last;
    }
  }

  /** With fresh ids, as request ids are, no id is ever stored again. */
  lemma {:induction false} FreshIdsAreUnused(cfg: MemcacheSpec.Config, steps: seq<Step>)
    requires Exec(cfg, steps).Some? && Distinct(Given(steps))
    ensures AlwaysUnused(cfg, steps)
    ensures forall id :: Accounted(Exec(cfg, steps).value, id) ==> id in Given(steps)
  {
    if steps != [] {
      var before, step := steps[..|steps| - 1], steps[|steps| - 1];
      if step.SetPayload? {
        DistinctLast(Given(before), step.id);
      } else {
        assert Given(steps) == Given(before);
      }
      FreshIdsAreUnused(cfg, before);
      EveryInterleaving(cfg, before);
      GivenStep(cfg, Exec(cfg, before).value, step, Given(before));
    }
  }

  /** So in every interleaving of stores of fresh ids, every listed id has its payload, and at rest nothing else has one. */
  lemma FreshIdsHavePayloads(cfg: MemcacheSpec.Config, steps: seq<Step>)
    requires Exec(cfg, steps).Some? && Distinct(Given(steps))
    ensures var s := Exec(cfg, steps).value;
            IdSet(s.index) <= s.docs && (s.threads == map[] ==> s.docs == IdSet(s.index))
  {
    FreshIdsAreUnused(cfg, steps);
    ListedHavePayloads(cfg, steps);
  }

  // ---- A run that loses a payload ----------------------------------------------------------

  lemma ExecSnoc(cfg: MemcacheSpec.Config, steps: seq<Step>, step: Step)
    requires Exec(cfg, steps).Some? && Enabled(Exec(cfg, steps).value, step)
    ensures Exec(cfg, steps + [step]) == Some(Do(cfg, Exec(cfg, steps).value, step))
  {
    assert (steps + [step])[..|steps|] == steps;
  }

  /** The run reaches `s'` by one more step. */
  lemma StepTo(cfg: MemcacheSpec.Config, steps: seq<Step>, s: State, step: Step, s': State)
    requires Exec(cfg, steps) == Some(s) && Enabled(s, step)
    requires var d := Do(cfg, s, step);
             d.docs == s'.docs && d.index == s'.index && d.lock == s'.lock && d.threads == s'.threads && d.saves == s'.saves
    ensures Exec(cfg, steps + [step]) == Some(s')
  {
    ExecSnoc(cfg, steps, step);
  }

  lemma OneKept(ttl: nat, first: string, id: string)
    requires first != id
    ensures var cfg := MemcacheSpec.Config(1, ttl);
            && MemcacheSpec.KeptIds(cfg, PrependUnique([first], id)) == [id]
            && MemcacheSpec.EvictedIds(cfg, PrependUnique([first], id)) == [first]
            && MemcacheSpec.KeptIds(cfg, PrependUnique([], id)) == [id]
            && MemcacheSpec.EvictedIds(cfg, PrependUnique([], id)) == []
  {
    assert [first][1..] == [] && IdsWithout([first], id) == [first] + IdsWithout([], id);
    assert PrependUnique([first], id) == [id, first] && PrependUnique([], id) == [id];
  }

  /** Thread 0 stores `a`. */
  function StoredFirst(a: string): seq<Step> {
    [SetPayload(0, a)] + [Lock(0)] + [LoadIndex(0)] + [SaveIndex(0)] + [Unlock(0)]
  }

  /** Thread 1 evicts it by listing `b`, and before it deletes the payload, thread 2 sets it again. */
  function SetAgain(a: string, b: string): seq<Step> {
    StoredFirst(a) + [SetPayload(1, b)] + [Lock(1)] + [LoadIndex(1)] + [SaveIndex(1)] + [SetPayload(2, a)]
  }

  /** A thread that has set its payload lists its id, which evicts another one. */
  function Lists(t: nat): seq<Step> {
    [Lock(t)] + [LoadIndex(t)] + [SaveIndex(t)] + [DeleteNext(t)] + [Unlock(t)]
  }

  /** Thread 1 deletes, and then thread 2 lists `a`. */
  function Losing(a: string, b: string): seq<Step> {
    SetAgain(a, b) + [DeleteNext(1)] + [Unlock(1)] + Lists(2)
  }

  lemma StoredFirstRuns(ttl: nat, a: string)
    requires a != ""
    ensures Exec(MemcacheSpec.Config(1, ttl), StoredFirst(a)) == Some(State({a}, [a], None, map[], [a]))
  {
    var cfg := MemcacheSpec.Config(1, ttl);
    OneKept(ttl, "", a);
    var run := [SetPayload(0, a)];
    assert [] + run == run;
    StepTo(cfg, [], INITIAL, SetPayload(0, a), State({a}, [], None, map[0 := Waiting(a)], []));
    StepTo(cfg, run, State({a}, [], None, map[0 := Waiting(a)], []), Lock(0),
           State({a}, [], Some(0), map[0 := Holding(a)], []));
    run := run + [Lock(0)];
    StepTo(cfg, run, State({a}, [], Some(0), map[0 := Holding(a)], []), LoadIndex(0),
           State({a}, [], Some(0), map[0 := Loaded(a, [])], []));
    run := run + [LoadIndex(0)];
    StepTo(cfg, run, State({a}, [], Some(0), map[0 := Loaded(a, [])], []), SaveIndex(0),
           State({a}, [a], Some(0), map[0 := Deleting([])], [a]));
    run := run + [SaveIndex(0)];
    StepTo(cfg, run, State({a}, [a], Some(0), map[0 := Deleting([])], [a]), Unlock(0), State({a}, [a], None, map[], [a]));
  }

  lemma SetAgainRuns(ttl: nat, a: string, b: string)
    requires a != "" && b != "" && a != b
    ensures Exec(MemcacheSpec.Config(1, ttl), SetAgain(a, b))
         == Some(State({a, b}, [b], Some(1), map[1 := Deleting([a]), 2 := Waiting(a)], [a] + [b]))
  {
    var cfg := MemcacheSpec.Config(1, ttl);
    OneKept(ttl, a, b);
    StoredFirstRuns(ttl, a);
    var run := StoredFirst(a);
    StepTo(cfg, run, State({a}, [a], None, map[], [a]), SetPayload(1, b),
           State({a, b}, [a], None, map[1 := Waiting(b)], [a]));
    run := run + [SetPayload(1, b)];
    StepTo(cfg, run, State({a, b}, [a], None, map[1 := Waiting(b)], [a]), Lock(1),
           State({a, b}, [a], Some(1), map[1 := Holding(b)], [a]));
    run := run + [Lock(1)];
    StepTo(cfg, run, State({a, b}, [a], Some(1), map[1 := Holding(b)], [a]), LoadIndex(1),
           State({a, b}, [a], Some(1), map[1 := Loaded(b, [a])], [a]));
    run := run + [LoadIndex(1)];
    StepTo(cfg, run, State({a, b}, [a], Some(1), map[1 := Loaded(b, [a])], [a]), SaveIndex(1),
           State({a, b}, [b], Some(1), map[1 := Deleting([a])], [a] + [b]));
    run := run + [SaveIndex(1)];
    StepTo(cfg, run, State({a, b}, [b], Some(1), map[1 := Deleting([a])], [a] + [b]), SetPayload(2, a),
           State({a, b}, [b], Some(1), map[1 := Deleting([a]), 2 := Waiting(a)], [a] + [b]));
  }

  lemma ListsRuns(ttl: nat, steps: seq<Step>, t: nat, docs: set<string>, first: string, id: string, saves: seq<string>)
    requires Exec(MemcacheSpec.Config(1, ttl), steps) == Some(State(docs, [first], None, map[t := Waiting(id)], saves))
    requires first != id
    ensures Exec(MemcacheSpec.Config(1, ttl), steps + Lists(t)) == Some(State(docs - {first}, [id], None, map[], saves + [id]))
  {
    var cfg := MemcacheSpec.Config(1, ttl);
    OneKept(ttl, first, id);
    assert [first][1..] == [];
    var run := steps + [Lock(t)];
    StepTo(cfg, steps, State(docs, [first], None, map[t := Waiting(id)], saves), Lock(t),
           State(docs, [first], Some(t), map[t := Holding(id)], saves));
    StepTo(cfg, run, State(docs, [first], Some(t), map[t := Holding(id)], saves), LoadIndex(t),
           State(docs, [first], Some(t), map[t := Loaded(id, [first])], saves));
    run := run + [LoadIndex(t)];
    StepTo(cfg, run, State(docs, [first], Some(t), map[t := Loaded(id, [first])], saves), SaveIndex(t),
           State(docs, [id], Some(t), map[t := Deleting([first])], saves + [id]));
    run := run + [SaveIndex(t)];
    StepTo(cfg, run, State(docs, [id], Some(t), map[t := Deleting([first])], saves + [id]), DeleteNext(t),
           State(docs - {first}, [id], Some(t), map[t := Deleting([])], saves + [id]));
    run := run + [DeleteNext(t)];
    StepTo(cfg, run, State(docs - {first}, [id], Some(t), map[t := Deleting([])], saves + [id]), Unlock(t),
           State(docs - {first}, [id], None, map[], saves + [id]));
    assert run + [Unlock(t)] == steps + Lists(t);
  }

  /** Three stores with a limit of one, the third of the first id again: no thread is inside, one id is listed, and no payload is left. */
  lemma LosesPayload(ttl: nat, a: string, b: string)
    requires a != "" && b != "" && a != b
    ensures Exec(MemcacheSpec.Config(1, ttl), Losing(a, b)) == Some(State({}, [a], None, map[], [a] + [b] + [a]))
  {
    var cfg := MemcacheSpec.Config(1, ttl);
    SetAgainRuns(ttl, a, b);
    assert {a, b} - {a} == {b} && [a][1..] == [];
    var run := SetAgain(a, b);
    StepTo(cfg, run, State({a, b}, [b], Some(1), map[1 := Deleting([a]), 2 := Waiting(a)], [a] + [b]), DeleteNext(1),
           State({b}, [b], Some(1), map[1 := Deleting([]), 2 := Waiting(a)], [a] + [b]));
    run := run + [DeleteNext(1)];
    StepTo(cfg, run, State({b}, [b], Some(1), map[1 := Deleting([]), 2 := Waiting(a)], [a] + [b]), Unlock(1),
           State({b}, [b], None, map[2 := Waiting(a)], [a] + [b]));
    ListsRuns(ttl, run + [Unlock(1)], 2, {b}, b, a, [a] + [b]);
    assert {b} - {b} == {};
  }

  // ---- One thread alone --------------------------------------------------------------------

  /** A thread that is deleting deletes all it has to. */
  function Drain(cfg: MemcacheSpec.Config, s: State, t: nat): (s': State)
    requires t in s.threads && s.threads[t].Deleting?
    ensures t in s'.threads && s'.threads[t] == Deleting([])
    decreases if t in s.threads && s.threads[t].Deleting? then |s.threads[t].evicted| else 0
  {
    if s.threads[t].evicted == [] then s else Drain(cfg, Do(cfg, s, DeleteNext(t)), t)
  }

  /** Thread `t` stores `id` from beginning to end with nobody else moving. */
  function Alone(cfg: MemcacheSpec.Config, s: State, t: nat, id: string): State
    requires t !in s.threads && s.lock.None? && id != ""
  {
    var saved := Do(cfg, Do(cfg, Do(cfg, Do(cfg, s, SetPayload(t, id)), Lock(t)), LoadIndex(t)), SaveIndex(t));
    Do(cfg, Drain(cfg, saved, t), Unlock(t))
  }

  lemma {:induction false} DrainDeletes(cfg: MemcacheSpec.Config, s: State, t: nat)
    requires t in s.threads && s.threads[t].Deleting?
    ensures Drain(cfg, s, t) == s.(docs := s.docs - IdSet(s.threads[t].evicted), threads := s.threads[t := Deleting([])])
    decreases |s.threads[t].evicted|
  {
    var evicted := s.threads[t].evicted;
    if evicted == [] {
      assert s.docs - IdSet([]) == s.docs && s.threads[t := Deleting([])] == s.threads;
    } else {
      var next := Do(cfg, s, DeleteNext(t));
      DrainDeletes(cfg, next, t);
      assert IdSet(evicted) == {evicted[0]} + IdSet(evicted[1..]);
      assert next.docs - IdSet(evicted[1..]) == s.docs - IdSet(evicted);
      assert next.threads[t := Deleting([])] == s.threads[t := Deleting([])];
    }
  }

  /** An undisturbed thread does to the payload ids and to the index what one `Store` call does. */
  lemma AloneIsStore(cfg: MemcacheSpec.Config, s: State, t: nat, b: MemcacheSpec.Backend, call: MemcacheSpec.StoreAt)
    requires t !in s.threads && s.lock.None? && call.metadata.id != ""
    requires s.docs == b.docs.Keys && s.index == MemcacheSpec.LoadIndex(b, call.loadAt)
    ensures var s', b' := Alone(cfg, s, t, call.metadata.id), MemcacheSpec.Store(cfg, b, call);
            && s'.docs == b'.docs.Keys && s'.index == b'.index.value.ids
            && s'.threads == s.threads && s'.lock.None? && s'.saves == s.saves + [call.metadata.id]
  {
    var id := call.metadata.id;
    var saved := Do(cfg, Do(cfg, Do(cfg, Do(cfg, s, SetPayload(t, id)), Lock(t)), LoadIndex(t)), SaveIndex(t));
    DrainDeletes(cfg, saved, t);
    assert (s.threads[t := Deleting([])]) - {t} == s.threads;
  }

  lemma {:induction false} DrainRuns(cfg: MemcacheSpec.Config, steps: seq<Step>, t: nat) returns (all: seq<Step>)
    requires Exec(cfg, steps).Some?
    requires var s := Exec(cfg, steps).value; t in s.threads && s.threads[t].Deleting?
    ensures Exec(cfg, all) == Some(Drain(cfg, Exec(cfg, steps).value, t))
    decreases |Exec(cfg, steps).value.threads[t].evicted|
  {
    if Exec(cfg, steps).value.threads[t].evicted == [] {
      all := steps;
    } else {
      ExecSnoc(cfg, steps, DeleteNext(t));
      all := DrainRuns(cfg, steps + [DeleteNext(t)], t);
    }
  }

  /** Storing alone is one of the runs of the machine. */
  lemma AloneRuns(cfg: MemcacheSpec.Config, steps: seq<Step>, t: nat, id: string) returns (all: seq<Step>)
    requires Exec(cfg, steps).Some?
    requires var s := Exec(cfg, steps).value; t !in s.threads && s.lock.None? && id != ""
    ensures Exec(cfg, all) == Some(Alone(cfg, Exec(cfg, steps).value, t, id))
  {
    var a := steps + [SetPayload(t, id)];
    var b := a + [Lock(t)];
    var c := b + [LoadIndex(t)];
    ExecSnoc(cfg, steps, SetPayload(t, id));
    ExecSnoc(cfg, a, Lock(t));
    ExecSnoc(cfg, b, LoadIndex(t));
    ExecSnoc(cfg, c, SaveIndex(t));
    var drained := DrainRuns(cfg, c + [SaveIndex(t)], t);
    ExecSnoc(cfg, drained, Unlock(t));
    all := drained + [Unlock(t)];
  }
}
