/** The quiz-attempt log: an append-only list of attempts mirrored, in full, under one storage key. */
module Attempts {
  import opened Wrappers
  import opened Types
  import opened Storage

  const AttemptsKey: string := "quizAttempts"

  datatype AttemptLog = AttemptLog(attempts: seq<QuizAttempt>, store: Store)

  /** The initial load: a stored, non-empty value that parses is adopted; an absent or empty value,
      or one that fails to parse, leaves the list empty. */
  function Load(store: Store, codec: Codec<seq<QuizAttempt>>): (r: seq<QuizAttempt>)
    ensures AttemptsKey !in store || store[AttemptsKey] == "" ==> r == []
    ensures AttemptsKey in store && codec.decode(store[AttemptsKey]).Some? && store[AttemptsKey] != "" ==>
      r == codec.decode(store[AttemptsKey]).value
    ensures AttemptsKey in store && codec.decode(store[AttemptsKey]).None? ==> r == []
  {
    match GetItem(store, AttemptsKey)
    case None => []
    case Some(stored) =>
      if stored == "" then []
      else codec.decode(stored).GetOr([])
  }

  /** The log a session opens with. */
  function Open(store: Store, codec: Codec<seq<QuizAttempt>>): (log: AttemptLog)
    ensures log.store == store && log.attempts == Load(store, codec)
  {
    AttemptLog(Load(store, codec), store)
  }

  /** `addAttempt`: the attempt goes at the end, the earlier ones stay as they were, and the whole
      new list is written under the key; no other key changes. */
  function Add(log: AttemptLog, attempt: QuizAttempt, codec: Codec<seq<QuizAttempt>>): (log': AttemptLog)
    ensures |log'.attempts| == |log.attempts| + 1
    ensures log'.attempts[..|log.attempts|] == log.attempts && log'.attempts[|log.attempts|] == attempt
    ensures GetItem(log'.store, AttemptsKey) == Some(codec.encode(log'.attempts))
    ensures forall k :: k != AttemptsKey ==> GetItem(log'.store, k) == GetItem(log.store, k)
  {
    var attempts := log.attempts + [attempt];
    AttemptLog(attempts, SetItem(log.store, AttemptsKey, codec.encode(attempts)))
  }

  /** `clearAttempts`: the list empties and the key goes; no other key changes. */
  function Clear(log: AttemptLog): (log': AttemptLog)
    ensures log'.attempts == []
    ensures AttemptsKey !in log'.store
    ensures forall k :: k != AttemptsKey ==> GetItem(log'.store, k) == GetItem(log.store, k)
  {
    AttemptLog([], RemoveItem(log.store, AttemptsKey))
  }

  /** The stored copy reads back as the list held in memory. */
  ghost predicate InSync(log: AttemptLog, codec: Codec<seq<QuizAttempt>>) {
    Load(log.store, codec) == log.attempts
  }

  /** After an add, a later session loads exactly the list the add produced. */
  lemma AddPersists(log: AttemptLog, attempt: QuizAttempt, codec: Codec<seq<QuizAttempt>>)
    requires Lossless(codec)
    ensures InSync(Add(log, attempt, codec), codec)
  {
    var attempts := log.attempts + [attempt];
    assert codec.decode(codec.encode(attempts)) == Some(attempts) && |codec.encode(attempts)| > 0;
  }

  /** After a clear, a later session loads nothing. */
  lemma ClearPersists(log: AttemptLog, codec: Codec<seq<QuizAttempt>>)
    ensures InSync(Clear(log), codec)
  {
  }

  /** Adding attempts one after another appends them in order after the earlier ones. */
  function AddAll(log: AttemptLog, added: seq<QuizAttempt>, codec: Codec<seq<QuizAttempt>>): (log': AttemptLog)
    ensures log'.attempts == log.attempts + added
  {
    if |added| == 0 then log
    else
      var init, last := added[..|added| - 1], added[|added| - 1];
      var prev := AddAll(log, init, codec);
      assert init + [last] == added;
      Add(prev, last, codec)
  }

  /** After any non-empty run of adds, a later session reloads every attempt, in order, after the
      ones the log held. */
  lemma AddAllPersists(log: AttemptLog, added: seq<QuizAttempt>, codec: Codec<seq<QuizAttempt>>)
    requires Lossless(codec)
    requires |added| > 0
    ensures InSync(AddAll(log, added, codec), codec)
  {
    AddPersists(AddAll(log, added[..|added| - 1], codec), added[|added| - 1], codec);
  }
}
