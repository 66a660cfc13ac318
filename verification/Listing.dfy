/** What the remote backends share: answers and times of server commands, and the loop that reads a list of documents. */
module Listing {
  import opened Common

  /**
    How a remote server answers one command: as asked, not at all, or by taking effect with the
    answer lost. A read that brings back something undecodable counts as failed.
  */
  datatype Answer = Answered | Failed | AnswerLost

  /** The answers to the commands of one call, by their number. */
  type Answers = nat -> Answer

  /** The times at which the commands of one call are executed, by their number. */
  type Clock = nat -> int

  const ALL_ANSWERED: Answers := (k: nat) => Answered

  datatype Reading<+T> = Hit(value: T) | Miss | Unavailable

  /** The document under an id at a time, if it is there and alive. */
  type Getter = (string, int) -> Option<Metadata>

  function ReadingOf(get: Getter, id: string, now: int, answer: Answer): Reading<Metadata> {
    if !answer.Answered? then Unavailable
    else if get(id, now).Some? then Hit(get(id, now).value) else Miss
  }

  /** The documents of the ids from position `i` on that are hits; position `k` is read at `clock(k)`. */
  function Found(get: Getter, ids: seq<string>, i: nat, clock: Clock, answers: Answers): seq<Metadata>
    decreases |ids| - i
  {
    if i >= |ids| then []
    else
      var r := ReadingOf(get, ids[i], clock(i), answers(i));
      if r.Hit? then [r.value] + Found(get, ids, i + 1, clock, answers) else Found(get, ids, i + 1, clock, answers)
  }

  lemma FoundNext(get: Getter, ids: seq<string>, i: nat, clock: Clock, answers: Answers, docs: seq<Metadata>)
    requires i < |ids|
    ensures var r := ReadingOf(get, ids[i], clock(i), answers(i));
            var more := if r.Hit? then docs + [r.value] else docs;
            docs + Found(get, ids, i, clock, answers) == more + Found(get, ids, i + 1, clock, answers)
  {
  }

  /** Exactly the reads from position `i` up to `n` are hits. */
  ghost predicate HitsUpTo(get: Getter, ids: seq<string>, i: nat, n: nat, clock: Clock) {
    i <= n <= |ids| && forall k :: i <= k < |ids| ==> (get(ids[k], clock(k)).Some? <==> k < n)
  }

  lemma {:induction false} FoundLength(get: Getter, ids: seq<string>, i: nat, n: nat, clock: Clock)
    requires HitsUpTo(get, ids, i, n, clock)
    ensures |Found(get, ids, i, clock, ALL_ANSWERED)| == n - i
    decreases |ids| - i
  {
    if i < |ids| {
      FoundLength(get, ids, i + 1, if i < n then n else i + 1, clock);
    }
  }

  lemma {:induction false} FoundAt(get: Getter, ids: seq<string>, i: nat, n: nat, clock: Clock, k: nat)
    requires HitsUpTo(get, ids, i, n, clock) && i <= k < n
    ensures |Found(get, ids, i, clock, ALL_ANSWERED)| == n - i
    ensures get(ids[k], clock(k)) == Some(Found(get, ids, i, clock, ALL_ANSWERED)[k - i])
    decreases |ids| - i
  {
    FoundLength(get, ids, i, n, clock);
    if i < k {
      FoundAt(get, ids, i + 1, n, clock, k);
    }
  }

  /** What is found among ids of which exactly the first `n` are hits. */
  lemma FoundFirst(get: Getter, ids: seq<string>, n: nat, clock: Clock)
    requires HitsUpTo(get, ids, 0, n, clock)
    ensures var shown := Found(get, ids, 0, clock, ALL_ANSWERED);
            |shown| == n && forall k :: 0 <= k < n ==> get(ids[k], clock(k)) == Some(shown[k])
  {
    FoundLength(get, ids, 0, n, clock);
    forall k | 0 <= k < n
      ensures get(ids[k], clock(k)) == Some(Found(get, ids, 0, clock, ALL_ANSWERED)[k])
    {
      FoundAt(get, ids, 0, n, clock, k);
    }
  }

  /** The documents are those read at the positions `at`, which are all those from `i` on that are answered and have one. */
  ghost predicate ReadAtAll(get: Getter, ids: seq<string>, i: nat, clock: Clock, answers: Answers, docs: seq<Metadata>, at: seq<nat>) {
    && |docs| == |at|
    && (forall k :: 0 <= k < |at| ==> i <= at[k] < |ids| && answers(at[k]).Answered? && get(ids[at[k]], clock(at[k])) == Some(docs[k]))
    && (forall j, k :: 0 <= j < k < |at| ==> at[j] < at[k])
    && (forall p :: i <= p < |ids| && p !in at ==> !answers(p).Answered? || get(ids[p], clock(p)).None?)
  }

  lemma ReadAtCons(get: Getter, ids: seq<string>, i: nat, clock: Clock, answers: Answers, docs: seq<Metadata>, at: seq<nat>, doc: Metadata)
    requires i < |ids| && answers(i).Answered? && get(ids[i], clock(i)) == Some(doc)
    requires ReadAtAll(get, ids, i + 1, clock, answers, docs, at)
    ensures ReadAtAll(get, ids, i, clock, answers, [doc] + docs, [i] + at)
  {
    var docs', at' := [doc] + docs, [i] + at;
    assert forall k :: 0 < k < |at'| ==> at'[k] == at[k - 1] && docs'[k] == docs[k - 1];
    assert forall p :: p in at' <==> p == i || p in at;
  }

  lemma ReadAtSkip(get: Getter, ids: seq<string>, i: nat, clock: Clock, answers: Answers, docs: seq<Metadata>, at: seq<nat>)
    requires i < |ids| && (!answers(i).Answered? || get(ids[i], clock(i)).None?)
    requires ReadAtAll(get, ids, i + 1, clock, answers, docs, at)
    ensures ReadAtAll(get, ids, i, clock, answers, docs, at)
  {
  }

  lemma FoundUnfolds(get: Getter, ids: seq<string>, i: nat, clock: Clock, answers: Answers)
    requires i < |ids|
    ensures var r, rest := ReadingOf(get, ids[i], clock(i), answers(i)), Found(get, ids, i + 1, clock, answers);
            && Found(get, ids, i, clock, answers) == (if r.Hit? then [r.value] + rest else rest)
            && (r.Hit? ==> answers(i).Answered? && get(ids[i], clock(i)) == Some(r.value))
            && (!r.Hit? ==> !answers(i).Answered? || get(ids[i], clock(i)).None?)
  {
  }

  /**
    What is found is what was read, whatever failed: exactly the positions, from `i` on, that are
    answered and have a document, in order.
  */
  lemma {:induction false} FoundWhere(get: Getter, ids: seq<string>, i: nat, clock: Clock, answers: Answers) returns (at: seq<nat>)
    requires i <= |ids|
    ensures ReadAtAll(get, ids, i, clock, answers, Found(get, ids, i, clock, answers), at)
    decreases |ids| - i
  {
    if i == |ids| {
      at := [];
    } else {
      var docs := Found(get, ids, i + 1, clock, answers);
      var rest := FoundWhere(get, ids, i + 1, clock, answers);
      var r := ReadingOf(get, ids[i], clock(i), answers(i));
      FoundUnfolds(get, ids, i, clock, answers);
      if r.Hit? {
        at := [i] + rest;
        ReadAtCons(get, ids, i, clock, answers, docs, rest, r.value);
      } else {
        at := rest;
        ReadAtSkip(get, ids, i, clock, answers, docs, rest);
      }
    }
  }
}
