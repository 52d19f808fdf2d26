/**
 The cache that keeps one speech recognizer across dictation sessions. Each
 session resolves the current model revision and asks for a decoding mode; the
 cache reuses the loaded recognizer or drops it and loads another.
 */
module RecognizerCache {
  import opened Wrappers

  datatype Decoding = Greedy | Hotwords

  /**
   What the cache relies on: how two stamps compare, and what a load of the
   model files in a directory gives for a decoding.
   */
  datatype Model<!R, !S, !F, !E> = Model(matches: (S, S) -> bool, open: (string, F, Decoding) -> Result<R, E>)

  /** A verified current revision: its directory and the stamp of its files. */
  datatype Revision<S> = Revision(directory: string, stamp: S)

  datatype Loaded<R, S> = Loaded(directory: string, stamp: S, decoding: Decoding, recognizer: R)

  /** One session start: what the current revision resolves to, the model files then, and the decoding asked for. */
  datatype Call<S, F, E> = Call(current: Result<Revision<S>, E>, files: F, decoding: Decoding)

  /** A load with its fallback: custom words that fail to load leave plain recognition. */
  function Fresh<R, S, F, E>(m: Model<R, S, F, E>, directory: string, files: F, decoding: Decoding): Result<R, E> {
    if m.open(directory, files, decoding).Err? && decoding.Hotwords? then m.open(directory, files, Greedy)
    else m.open(directory, files, decoding)
  }

  /** The decodings that are loaded one after the other: a second one only after custom words that failed. */
  function Attempts<R, S, F, E>(m: Model<R, S, F, E>, directory: string, files: F, decoding: Decoding): seq<Decoding> {
    if decoding == Hotwords && m.open(directory, files, Hotwords).Err? then [Hotwords, Greedy] else [decoding]
  }

  predicate Fits<R, S, F, E>(m: Model<R, S, F, E>, loaded: Loaded<R, S>, asked: Revision<S>, decoding: Decoding) {
    loaded.directory == asked.directory && m.matches(loaded.stamp, asked.stamp) && loaded.decoding == decoding
  }

  predicate Reuses<R, S, F, E>(m: Model<R, S, F, E>, slot: Option<Loaded<R, S>>, call: Call<S, F, E>) {
    slot.Some? && call.current.Ok? && Fits(m, slot.value, call.current.value, call.decoding)
  }

  /** The slot and the answer after one call. */
  function Got<R, S, F, E>(m: Model<R, S, F, E>, slot: Option<Loaded<R, S>>, call: Call<S, F, E>)
    : (Option<Loaded<R, S>>, Result<R, E>)
  {
    match call.current
    case Err(error) => (None, Err(error))
    case Ok(asked) =>
      if Reuses(m, slot, call) then (slot, Ok(slot.value.recognizer))
      else
        match Fresh(m, asked.directory, call.files, call.decoding)
        case Err(error) => (None, Err(error))
        case Ok(recognizer) => (Some(Loaded(asked.directory, asked.stamp, call.decoding, recognizer)), Ok(recognizer))
  }

  class Cache<R, S, F, E> {
    const model: Model<R, S, F, E>
    var slot: Option<Loaded<R, S>>
    /** The decodings of all loads so far. */
    ghost var loads: seq<Decoding>

    constructor (model: Model<R, S, F, E>)
      ensures this.model == model && slot == None && loads == []
    {
      this.model := model;
      slot, loads := None, [];
    }

    /** Loads one recognizer. No other may be held meanwhile. */
    method Load(directory: string, files: F, decoding: Decoding) returns (result: Result<R, E>)
      requires slot.None?
      modifies this`loads
      ensures result == model.open(directory, files, decoding)
      ensures loads == old(loads) + [decoding]
    {
      ghost var before := loads;
      loads := before + [decoding];
      result := model.open(directory, files, decoding);
    }

    method LoadWithFallback(directory: string, files: F, decoding: Decoding) returns (result: Result<R, E>)
      requires slot.None?
      modifies this`loads
      ensures result == Fresh(model, directory, files, decoding)
      ensures loads == old(loads) + Attempts(model, directory, files, decoding)
    {
      result := Load(directory, files, decoding);
      if result.Err? && decoding.Hotwords? {
        result := Load(directory, files, Greedy);
      }
    }

    method Get(call: Call<S, F, E>) returns (answer: Result<R, E>)
      modifies this
      ensures (slot, answer) == Got(model, old(slot), call)
      ensures loads == old(loads)
                       + if call.current.Err? || Reuses(model, old(slot), call) then []
                         else Attempts(model, call.current.value.directory, call.files, call.decoding)
    {
      if call.current.Err? {
        slot := None;
        return Err(call.current.error);
      }
      var Revision(directory, stamp) := call.current.value;
      if slot.Some? && slot.value.directory == directory && model.matches(slot.value.stamp, stamp)
         && slot.value.decoding == call.decoding {
        return Ok(slot.value.recognizer);
      }
      slot := None;
      answer := LoadWithFallback(directory, call.files, call.decoding);
      if answer.Ok? {
        slot := Some(Loaded(directory, stamp, call.decoding, answer.value));
      }
    }
  }

  // ------------------------------------------------------------------ runs

  /** The slot after the first `n` calls. */
  function After<R, S, F, E>(m: Model<R, S, F, E>, calls: seq<Call<S, F, E>>, n: nat): Option<Loaded<R, S>>
    requires n <= |calls|
  {
    if n == 0 then None else Got(m, After(m, calls, n - 1), calls[n - 1]).0
  }

  function Answer<R, S, F, E>(m: Model<R, S, F, E>, calls: seq<Call<S, F, E>>, n: nat): Result<R, E>
    requires n < |calls|
  {
    Got(m, After(m, calls, n), calls[n]).1
  }

  /** Matching stamps of one directory mean equal model files. */
  ghost predicate Truthful<R, S, F, E>(m: Model<R, S, F, E>, calls: seq<Call<S, F, E>>) {
    forall i, j :: 0 <= i < j < |calls| && SameRevision(m, calls[i], calls[j]) ==> calls[i].files == calls[j].files
  }

  predicate SameRevision<R, S, F, E>(m: Model<R, S, F, E>, a: Call<S, F, E>, b: Call<S, F, E>) {
    a.current.Ok? && b.current.Ok? && a.current.value.directory == b.current.value.directory
    && m.matches(a.current.value.stamp, b.current.value.stamp)
  }

  /** Call `i` loads the recognizer it answers. */
  predicate LoadsAt<R, S, F, E>(m: Model<R, S, F, E>, calls: seq<Call<S, F, E>>, i: nat)
    requires i < |calls|
  {
    Answer(m, calls, i).Ok? && !Reuses(m, After(m, calls, i), calls[i])
  }

  /** The call that loaded what the slot holds before call `n`; every call since reused it. */
  lemma {:induction false} LoadedBy<R, S, F, E>(m: Model<R, S, F, E>, calls: seq<Call<S, F, E>>, n: nat)
    returns (i: nat)
    requires n <= |calls| && After(m, calls, n).Some?
    ensures i < n && calls[i].current.Ok? && LoadsAt(m, calls, i)
    ensures forall k: nat :: i < k < n ==> Reuses(m, After(m, calls, k), calls[k])
    ensures var asked := calls[i].current.value;
            var result := Fresh(m, asked.directory, calls[i].files, calls[i].decoding);
            && result.Ok?
            && After(m, calls, n) == Some(Loaded(asked.directory, asked.stamp, calls[i].decoding, result.value))
  {
    if Reuses(m, After(m, calls, n - 1), calls[n - 1]) {
      i := LoadedBy(m, calls, n - 1);
    } else {
      i := n - 1;
    }
  }

  // ---------------------------------------------------------- main results

  /**
   Every answer is what a fresh load for the asked directory and decoding would give, or the
   error of a revision that does not resolve; and the slot is empty exactly after an error.
   */
  lemma EveryAnswerIsFresh<R, S, F, E>(m: Model<R, S, F, E>, calls: seq<Call<S, F, E>>, n: nat)
    requires Truthful(m, calls) && n < |calls|
    ensures calls[n].current.Err? ==> Answer(m, calls, n) == Err(calls[n].current.error)
    ensures calls[n].current.Ok? ==>
              var directory, files := calls[n].current.value.directory, calls[n].files;
              Answer(m, calls, n)
              == if calls[n].decoding == Hotwords && m.open(directory, files, Hotwords).Err?
                 then m.open(directory, files, Greedy) else m.open(directory, files, calls[n].decoding)
    ensures After(m, calls, n + 1).None? <==> Answer(m, calls, n).Err?
    ensures Answer(m, calls, n).Ok? ==> After(m, calls, n + 1).value.recognizer == Answer(m, calls, n).value
  {
    if Reuses(m, After(m, calls, n), calls[n]) {
      var i := LoadedBy(m, calls, n);
      assert SameRevision(m, calls[i], calls[n]);
    }
  }

  /**
   A call reuses exactly when some earlier call loaded for its directory, a stamp that matches its
   own and its decoding, and every call between reused that recognizer too.
   */
  lemma {:induction false} ReusesExactly<R, S, F, E>(m: Model<R, S, F, E>, calls: seq<Call<S, F, E>>, n: nat)
    requires n < |calls|
    ensures Reuses(m, After(m, calls, n), calls[n]) <==>
            exists i: nat :: i < n && LoadsAt(m, calls, i) && SameRevision(m, calls[i], calls[n])
                     && calls[i].decoding == calls[n].decoding
                     && forall k: nat :: i < k < n ==> Reuses(m, After(m, calls, k), calls[k])
  {
    if Reuses(m, After(m, calls, n), calls[n]) {
      var i := LoadedBy(m, calls, n);
      assert SameRevision(m, calls[i], calls[n]);
    }
    forall i: nat | i < n && LoadsAt(m, calls, i) && SameRevision(m, calls[i], calls[n])
                    && calls[i].decoding == calls[n].decoding
                    && (forall k: nat :: i < k < n ==> Reuses(m, After(m, calls, k), calls[k]))
      ensures Reuses(m, After(m, calls, n), calls[n])
    {
      KeptFrom(m, calls, i, n);
    }
  }

  lemma {:induction false} KeptFrom<R, S, F, E>(m: Model<R, S, F, E>, calls: seq<Call<S, F, E>>, i: nat, n: nat)
    requires i < n <= |calls| && LoadsAt(m, calls, i)
    requires forall k: nat :: i < k < n ==> Reuses(m, After(m, calls, k), calls[k])
    ensures After(m, calls, n) == After(m, calls, i + 1)
    ensures calls[i].current.Ok? && After(m, calls, n).Some?
    ensures var loaded := After(m, calls, n).value;
            Revision(loaded.directory, loaded.stamp) == calls[i].current.value && loaded.decoding == calls[i].decoding
  {
    if i + 1 < n {
      KeptFrom(m, calls, i, n - 1);
    }
  }
}
