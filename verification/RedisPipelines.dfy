/**
  Any number of redis pipelines at once. A pipeline is not a transaction: the commands of other
  clients run between its commands. Each command is atomic.
*/
module RedisPipelines {
  import opened Common
  import opened Listing
  import RedisLaws
  import RedisSpec

  /** The next command of a pipeline that has begun. */
  datatype Phase = Push(id: string) | Trim | Expire

  /** `pushes` is every id pushed so far, in order. */
  datatype State = State(docs: set<string>, index: seq<string>, pipelines: map<nat, Phase>, pushes: seq<string>)

  datatype Step = SetPayload(p: nat, id: string) | Advance(p: nat)

  const INITIAL := State({}, [], map[], [])

  predicate Enabled(s: State, step: Step) {
    match step
    case SetPayload(p, id) => p !in s.pipelines && id != ""
    case Advance(p) => p in s.pipelines
  }

  function Do(maxEntries: int, s: State, step: Step): State
    requires Enabled(s, step)
  {
    match step
    case SetPayload(p, id) => s.(docs := s.docs + {id}, pipelines := s.pipelines[p := Push(id)])
    case Advance(p) =>
      match s.pipelines[p]
      case Push(id) =>
        s.(index := [id] + s.index, pushes := s.pushes + [id],
           pipelines := s.pipelines[p := if maxEntries > 0 then Trim else Expire])
      case Trim => s.(index := RedisSpec.Trimmed(s.index, maxEntries), pipelines := s.pipelines[p := Expire])
      case Expire => s.(pipelines := s.pipelines - {p})
  }

  function Exec(maxEntries: int, steps: seq<Step>): Option<State> {
    if steps == [] then Some(INITIAL)
    else
      var before := Exec(maxEntries, steps[..|steps| - 1]);
      var step := steps[|steps| - 1];
      if before.Some? && Enabled(before.value, step) then Some(Do(maxEntries, before.value, step)) else None
  }

  /** The pipelines between their push and their trim. */
  function Untrimmed(s: State): set<nat> {
    set p | p in s.pipelines && s.pipelines[p].Trim?
  }

  function Min(a: int, b: int): int {
    if a < b then a else b
  }

  ghost predicate Inv(maxEntries: int, s: State) {
    && s.index <= Reverse(s.pushes)
    && (if maxEntries > 0
        then Min(maxEntries, |s.pushes|) <= |s.index| <= maxEntries + |Untrimmed(s)|
        else |s.index| == |s.pushes|)
    && (forall id :: id in s.pushes ==> id in s.docs)
    && (forall p :: p in s.pipelines && s.pipelines[p].Push? ==> s.pipelines[p].id in s.docs)
  }

  lemma PushStep(maxEntries: int, s: State, p: nat)
    requires Inv(maxEntries, s) && p in s.pipelines && s.pipelines[p].Push?
    ensures Inv(maxEntries, Do(maxEntries, s, Advance(p)))
  {
    var id := s.pipelines[p].id;
    var s' := Do(maxEntries, s, Advance(p));
    ReverseConcat(s.pushes, [id]);
    ReverseLength(s.pushes);
    assert Reverse([id]) == [id];
    assert s'.index <= [id] + Reverse(s.pushes);
    assert Untrimmed(s') == if maxEntries > 0 then Untrimmed(s) + {p} else Untrimmed(s);
  }

  lemma TrimStep(maxEntries: int, s: State, p: nat)
    requires Inv(maxEntries, s) && p in s.pipelines && s.pipelines[p].Trim?
    ensures Inv(maxEntries, Do(maxEntries, s, Advance(p)))
  {
    assert Untrimmed(Do(maxEntries, s, Advance(p))) == Untrimmed(s) - {p};
  }

  lemma StepKeepsInv(maxEntries: int, s: State, step: Step)
    requires Inv(maxEntries, s) && Enabled(s, step)
    ensures Inv(maxEntries, Do(maxEntries, s, step))
  {
    if step.SetPayload? {
      assert Untrimmed(Do(maxEntries, s, step)) == Untrimmed(s);
    } else if s.pipelines[step.p].Push? {
      PushStep(maxEntries, s, step.p);
    } else if s.pipelines[step.p].Trim? {
      TrimStep(maxEntries, s, step.p);
    } else {
      assert Untrimmed(Do(maxEntries, s, step)) == Untrimmed(s);
    }
  }

  /**
    Safety under every interleaving: the index is always a prefix of the pushes, newest first; it
    never loses one of the newest `maxEntries` pushes, and exceeds `maxEntries` by no more than
    the pipelines that have pushed and not yet trimmed. Every pushed id has its payload.
  */
  lemma {:induction false} EveryInterleaving(maxEntries: int, steps: seq<Step>)
    requires Exec(maxEntries, steps).Some?
    ensures Inv(maxEntries, Exec(maxEntries, steps).value)
  {
    if steps != [] {
      EveryInterleaving(maxEntries, steps[..|steps| - 1]);
      StepKeepsInv(maxEntries, Exec(maxEntries, steps[..|steps| - 1]).value, steps[|steps| - 1]);
    }
  }

  /** When no pipeline is under way the index is exactly the newest pushes, as if they had run one after another. */
  lemma QuietIndex(maxEntries: int, steps: seq<Step>)
    requires Exec(maxEntries, steps).Some? && Exec(maxEntries, steps).value.pipelines == map[]
    ensures var s := Exec(maxEntries, steps).value;
            s.index == RedisSpec.Trimmed(Reverse(s.pushes), maxEntries)
  {
    var s := Exec(maxEntries, steps).value;
    EveryInterleaving(maxEntries, steps);
    ReverseLength(s.pushes);
    assert Untrimmed(s) == {};
  }

  // ---- One pipeline alone ------------------------------------------------------------------

  /** The steps of pipeline `p` storing `id`. */
  function Alone(maxEntries: int, p: nat, id: string): seq<Step> {
    if maxEntries > 0 then [SetPayload(p, id), Advance(p), Advance(p), Advance(p)]
    else [SetPayload(p, id), Advance(p), Advance(p)]
  }

  lemma ExecSnoc(maxEntries: int, steps: seq<Step>, step: Step)
    requires Exec(maxEntries, steps).Some? && Enabled(Exec(maxEntries, steps).value, step)
    ensures Exec(maxEntries, steps + [step]) == Some(Do(maxEntries, Exec(maxEntries, steps).value, step))
  {
    assert (steps + [step])[..|steps|] == steps;
  }

  lemma AloneRuns(maxEntries: int, steps: seq<Step>, p: nat, id: string)
    requires Exec(maxEntries, steps).Some? && p !in Exec(maxEntries, steps).value.pipelines && id != ""
    ensures var s, s' := Exec(maxEntries, steps).value, Exec(maxEntries, steps + Alone(maxEntries, p, id));
            && s'.Some? && s'.value.docs == s.docs + {id}
            && s'.value.index == RedisSpec.Trimmed([id] + s.index, maxEntries)
            && s'.value.pipelines == s.pipelines
  {
    var s := Exec(maxEntries, steps).value;
    var a := steps + [SetPayload(p, id)];
    var c := a + [Advance(p)];
    ExecSnoc(maxEntries, steps, SetPayload(p, id));
    ExecSnoc(maxEntries, a, Advance(p));
    ExecSnoc(maxEntries, c, Advance(p));
    assert s.pipelines[p := Expire] - {p} == s.pipelines;
    if maxEntries > 0 {
      ExecSnoc(maxEntries, c + [Advance(p)], Advance(p));
      assert steps + Alone(maxEntries, p, id) == c + [Advance(p)] + [Advance(p)];
    } else {
      assert steps + Alone(maxEntries, p, id) == c + [Advance(p)];
    }
  }

  /** An undisturbed pipeline does to the payload ids and to the index what one `Store` call does, when the index does not expire. */
  lemma AloneIsStore(cfg: RedisSpec.Config, steps: seq<Step>, p: nat, b: RedisSpec.Backend, md: Metadata, clock: Clock)
    requires Exec(cfg.maxEntries, steps).Some? && p !in Exec(cfg.maxEntries, steps).value.pipelines && md.id != ""
    requires var s := Exec(cfg.maxEntries, steps).value;
             s.docs == b.docs.Keys && s.index == if b.index.Some? then b.index.value.ids else []
    requires b.index.Some? && b.index.value.deadline.Some? ==> forall k: nat :: k < 4 ==> clock(k) < b.index.value.deadline.value
    ensures var s', b' := Exec(cfg.maxEntries, steps + Alone(cfg.maxEntries, p, md.id)), RedisSpec.Store(cfg, b, md, clock);
            && s'.Some? && s'.value.docs == b'.docs.Keys
            && b'.index.Some? && s'.value.index == b'.index.value.ids
            && s'.value.pipelines == Exec(cfg.maxEntries, steps).value.pipelines
  {
    AloneRuns(cfg.maxEntries, steps, p, md.id);
    RedisLaws.StoreEffect(cfg, b, md, clock);
  }
}
