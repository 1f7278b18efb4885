/**
 The stored collections and the use cases that write them: committing an action,
 and creating an agreement under a number nobody has.
 */
module AgreementRepository {
  import opened Wrappers
  import opened AgreementStore
  import opened AgreementCommit

  const MAX_NUMBER_ATTEMPTS: nat := 5

  /**
   How a transaction ends: with an answer, with nothing written because the version moved on, or
   refused by an index.
   */
  datatype Ended = Answered(outcome: Outcome) | Overtaken | Refused(error: WriteError)

  datatype CreateError = NumbersExhausted | Failed(error: WriteError)

  /** The number the `i`th attempt is made with: the agreement's own, then those drawn. */
  function Attempted(s: Snapshot, drawn: nat -> Number, i: nat): Snapshot {
    if i == 0 then s else s.(number := drawn(i - 1))
  }

  class Agreements {
    var store: Store

    constructor ()
      ensures store == Store(map[], map[], multiset{})
    {
      store := Store(map[], map[], multiset{});
    }

    /** The version an idempotency key is recorded with; `actionExecution` is part of it. */
    method FindVersionByIdempotencyKey(number: Number, idempotencyKey: string) returns (found: Option<Key>)
      ensures found.None? <==> !HasKey(store, number, idempotencyKey)
      ensures found.Some? ==>
        found.value.number == number && IsRecordedAt(store, number, idempotencyKey, found.value.version)
    {
      if HasKey(store, number, idempotencyKey) {
        var key :| key in store.versions && key.number == number &&
          IsRecordedAt(store, number, idempotencyKey, key.version);
        found := Some(key);
      } else {
        found := None;
      }
    }

    method FindCompletedAction(r: Request) returns (found: Lookup)
      requires OneVersionPerKey(store)
      ensures found == FindCompleted(store, r)
    {
      var key := FindVersionByIdempotencyKey(r.number, r.idempotencyKey);
      if key.None? {
        return Nothing;
      }
      found := if store.versions[key.value].execution.value.name == r.action then SameAction else OtherAction;
    }

    method ReplaceCurrentAgreement(next: Snapshot, expectedVersion: nat) returns (modified: nat)
      modifies this
      ensures modified == if next.number in old(store).current &&
        old(store).current[next.number].version == expectedVersion then 1 else 0
      ensures store == if modified == 1 then old(store).(current := old(store).current[next.number := next])
        else old(store)
    {
      modified := 0;
      if next.number in store.current && store.current[next.number].version == expectedVersion {
        store := store.(current := store.current[next.number := next]);
        modified := 1;
      }
    }

    /** Both unique indexes are asked before a version is stored. */
    method InsertAgreementVersion(number: Number, version: Version) returns (refused: Option<WriteError>)
      modifies this
      ensures var key := Key(number, version.snapshot.version);
        refused == if key in old(store).versions then Some(DuplicateVersion)
          else if version.execution.Some? &&
            HasKey(old(store), number, version.execution.value.idempotencyKey) then Some(DuplicateKey)
          else None
      ensures store == if refused.Some? then old(store)
        else old(store).(versions := old(store).versions[Key(number, version.snapshot.version) := version])
    {
      var key := Key(number, version.snapshot.version);
      if key in store.versions {
        return Some(DuplicateVersion);
      }
      if version.execution.Some? && HasKey(store, number, version.execution.value.idempotencyKey) {
        return Some(DuplicateKey);
      }
      store := store.(versions := store.versions[key := version]);
      refused := None;
    }

    method SaveEvents(batch: multiset<Event>)
      modifies this
      ensures store == old(store).(events := old(store).events + batch)
    {
      store := store.(events := store.events + batch);
    }

    /** One transaction: what it wrote is undone unless it wrote all of it. */
    method CommitActionTransaction(r: Request, current: Snapshot, next: Snapshot, pay: bool) returns (ended: Ended)
      requires OneVersionPerKey(store) && r.number == current.number == next.number
      modifies this
      ensures var found := FindCompleted(old(store), r);
        if found != Nothing then
          store == old(store) && ended == Answered(if found == SameAction then AlreadyCompleted else KeyReused)
        else
          match Commit(old(store), r, current, next, pay)
          case Ok(written) => store == written && ended == Answered(Committed(next.version, pay))
          case Err(e) => store == old(store) && ended == if e == ConcurrentUpdate then Overtaken else Refused(e)
    {
      var before := store;
      var found := FindCompletedAction(r);
      if found != Nothing {
        return Answered(if found == SameAction then AlreadyCompleted else KeyReused);
      }
      var modified := ReplaceCurrentAgreement(next, current.version);
      if modified != 1 {
        return Overtaken;
      }
      SameKeys(before, store, r.number, r.idempotencyKey);
      var refused := InsertAgreementVersion(current.number, Version(next, Some(Execution(r.action, r.idempotencyKey))));
      if refused.Some? {
        store := before;
        return Refused(refused.value);
      }
      SaveEvents(ActionEvents(current, next, pay));
      ended := Answered(Committed(next.version, pay));
    }

    /**
     A commit that meets no other request does what its three steps do one after another:
     it checks and writes, and if overtaken looks once more for its own key.
     */
    method CommitAgreementAction(
      rules: Rules, ghost s: State, ghost c: nat, r: Request, current: Snapshot, next: Snapshot, pay: bool)
      returns (outcome: Outcome)
      requires OneVersionPerKey(store) && r.number == current.number == next.number
      requires s.store == store && c in s.clients && s.clients[c] == Loaded(r, current) &&
        rules.follows(current, r.action, next)
      modifies this
      ensures
        var end := Apply(rules, Apply(rules, Apply(rules, s, Check(c, next, pay)), Write(c)), Resolve(c));
        store == end.store && end.clients[c] == Done(r, outcome)
    {
      var ended := CommitActionTransaction(r, current, next, pay);
      if ended.Answered? {
        return ended.outcome;
      }
      var found := FindCompletedAction(r);
      if found != Nothing {
        return if found == SameAction then AlreadyCompleted else KeyReused;
      }
      outcome := if r.number in store.current then Stale else NotFound;
    }

    method PersistAgreement(s: Snapshot) returns (refused: Option<WriteError>)
      modifies this
      ensures match Persist(old(store), s)
        case Ok(written) => refused == None && store == written
        case Err(e) => refused == Some(e) && store == old(store)
    {
      if s.number in store.current {
        return Some(NumberTaken);
      }
      if SourceIsTaken(store, s.source) {
        return Some(SourceTaken);
      }
      var before := store;
      store := store.(current := store.current[s.number := s]);
      refused := InsertAgreementVersion(s.number, Version(s, None));
      if refused.Some? {
        store := before;
        return;
      }
      SaveEvents(CreationEvents(s));
    }

    /**
     Only a number that is taken is drawn again: the agreement is stored under the first
     free one of five, and not at all if its source has one already or no number was free.
     */
    method PersistWithAgreementNumberRetry(s: Snapshot, drawn: nat -> Number) returns (r: Result<Snapshot, CreateError>)
      modifies this
      ensures r.Ok? ==> exists i: nat ::
        && i < 5 && r.value == Attempted(s, drawn, i)
        && (forall j: nat :: j < i ==> Attempted(s, drawn, j).number in old(store).current)
        && Persist(old(store), r.value) == Ok(store)
      ensures r.Err? ==> store == old(store)
      ensures r == Err(NumbersExhausted) <==> forall i: nat :: i < 5 ==>
        Attempted(s, drawn, i).number in old(store).current
      ensures r.Err? && r.error.Failed? && Counted(store) ==>
        r.error.error == SourceTaken && SourceIsTaken(store, s.source)
    {
      var candidate := s;
      var attempt := 0;
      while attempt < MAX_NUMBER_ATTEMPTS
        invariant attempt <= MAX_NUMBER_ATTEMPTS && store == old(store)
        invariant candidate == Attempted(s, drawn, attempt)
        invariant forall j: nat :: j < attempt ==> Attempted(s, drawn, j).number in store.current
      {
        var refused := PersistAgreement(candidate);
        if refused.None? {
          return Ok(candidate);
        }
        if refused.value != NumberTaken {
          return Err(Failed(refused.value));
        }
        candidate := candidate.(number := drawn(attempt));
        attempt := attempt + 1;
      }
      r := Err(NumbersExhausted);
    }

    method FindAgreementBySourceIdentity(source: string) returns (found: Option<Snapshot>)
      ensures found.None? <==> !SourceIsTaken(store, source)
      ensures found.Some? ==>
        found.value.source == source && exists n :: n in store.current && store.current[n] == found.value
    {
      if SourceIsTaken(store, source) {
        var n :| n in store.current && store.current[n].source == source;
        found := Some(store.current[n]);
      } else {
        found := None;
      }
    }

    /**
     A source ends with the agreement it had, with one another request created meanwhile,
     or with the one created here: requests for it collapse onto one agreement.
     */
    method CreateAgreement(
      s: Snapshot, drawn: nat -> Number, meanwhile: Store)
      returns (r: Result<Snapshot, CreateError>)
      requires Counted(meanwhile)
      modifies this
      ensures r.Ok? ==> r.value.source == s.source && exists n :: n in store.current && store.current[n] == r.value
      ensures SourceIsTaken(old(store), s.source) ==> r.Ok? && store == old(store)
      ensures !SourceIsTaken(old(store), s.source) && SourceIsTaken(meanwhile, s.source) && r.Ok? ==> store == meanwhile
      ensures !SourceIsTaken(old(store), s.source) && !SourceIsTaken(meanwhile, s.source) && r.Ok? ==>
        Persist(meanwhile, r.value) == Ok(store)
      ensures r.Err? ==> r == Err(NumbersExhausted) && store == meanwhile
    {
      var existing := FindAgreementBySourceIdentity(s.source);
      if existing.Some? {
        return Ok(existing.value);
      }
      store := meanwhile;
      r := PersistWithAgreementNumberRetry(s, drawn);
      if r.Ok? {
        assert r.value.number in store.current;
      } else if r.error.Failed? {
        existing := FindAgreementBySourceIdentity(s.source);
        r := Ok(existing.value);
      }
    }
  }

  lemma SameKeys(before: Store, after: Store, number: Number, idempotencyKey: string)
    requires before.versions == after.versions
    ensures HasKey(before, number, idempotencyKey) <==> HasKey(after, number, idempotencyKey)
  {
  }
}
