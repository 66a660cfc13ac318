/** Values shared by every storage backend. */
module Common {
  datatype Option<+T> = None | Some(value: T)

  /** Why a `Store` call fails: refused before it touches the backend, or failed by the backend. */
  datatype StoreError = NilMetadata | EmptyId | MarshalFailed | BackendFailed

  datatype StoreResult = Stored | Refused(error: StoreError)

  /**
    The stored document of one request. Its fields are opaque here: `json` is what the JSON
    encoder makes of it, `None` when the encoder fails (user data may hold any value).
  */
  datatype Metadata = Metadata(id: string, json: Option<string>)

  /** The checks that every backend's `Store` makes first, in the order it makes them. */
  function Check(metadata: Option<Metadata>): StoreResult {
    if metadata.None? then Refused(NilMetadata)
    else if metadata.value.id == "" then Refused(EmptyId)
    else if metadata.value.json.None? then Refused(MarshalFailed)
    else Stored
  }

  /** What `Check` accepts, and which of several reasons to refuse it gives. */
  lemma CheckAccepts(metadata: Option<Metadata>)
    ensures Check(metadata) == Stored <==> metadata.Some? && metadata.value.id != "" && metadata.value.json.Some?
    ensures Check(metadata) == Refused(NilMetadata) <==> metadata.None?
    ensures Check(metadata) == Refused(EmptyId) <==> metadata.Some? && metadata.value.id == ""
    ensures Check(metadata) == Refused(MarshalFailed) <==> metadata.Some? && metadata.value.id != "" && metadata.value.json.None?
  {
  }

  /** The first `n` elements of `s`, or all of them when there are fewer. */
  function Take<T>(s: seq<T>, n: nat): seq<T> {
    if n <= |s| then s[..n] else s
  }

  /** The last `n` elements of `s`, or all of them when there are fewer. */
  function LastN<T>(s: seq<T>, n: nat): seq<T> {
    if n <= |s| then s[|s| - n..] else s
  }

  function Reverse<T>(s: seq<T>): seq<T> {
    if s == [] then [] else Reverse(s[1..]) + [s[0]]
  }

  predicate IsSuffix<T(==)>(r: seq<T>, s: seq<T>) {
    |r| <= |s| && r == s[|s| - |r|..]
  }

  lemma SplitAt<T>(s: seq<T>, k: nat)
    requires k < |s|
    ensures s == s[..k] + ([s[k]] + s[k + 1..]) && ([s[k]] + s[k + 1..])[1..] == s[k + 1..]
  {
  }

  ghost predicate Distinct<T>(s: seq<T>) {
    forall i, j :: 0 <= i < j < |s| ==> s[i] != s[j]
  }

  lemma {:induction false} ReverseAt<T>(s: seq<T>, k: nat)
    requires k < |s|
    ensures |Reverse(s)| == |s| && Reverse(s)[k] == s[|s| - 1 - k]
  {
    if |s| > 1 {
      ReverseAt(s[1..], if k < |s| - 1 then k else 0);
    }
  }

  lemma {:induction false} ReverseLength<T>(s: seq<T>)
    ensures |Reverse(s)| == |s|
  {
    if s != [] {
      ReverseAt(s, 0);
    }
  }

  lemma {:induction false} ReverseConcat<T>(s: seq<T>, t: seq<T>)
    ensures Reverse(s + t) == Reverse(t) + Reverse(s)
  {
    if s == [] {
      assert s + t == t;
    } else {
      assert (s + t)[1..] == s[1..] + t;
      ReverseConcat(s[1..], t);
    }
  }
}
