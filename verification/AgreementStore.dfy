/**
 Stored agreements: the current documents, their versions with the two unique
 indexes, the events saved beside them, and the transactions that write all three.
 */
module AgreementStore {
  import opened Wrappers
  import AgreementIdentity

  type Number = string
  type Time = int

  /** An agreement as it is stored; `content` is all that no rule here looks at. */
  datatype Snapshot = Snapshot(
    number: Number,
    version: nat,
    source: string,
    state: string,
    configVersion: string,
    acceptedAt: Option<Time>,
    updatedAt: Time,
    identity: AgreementIdentity.Agreement,
    content: string)

  datatype Key = Key(number: Number, version: nat)

  datatype Execution = Execution(name: string, idempotencyKey: string)

  datatype Version = Version(snapshot: Snapshot, execution: Option<Execution>)

  /** What is saved for delivery, by the version it tells of. */
  datatype Event =
    | Lifecycle(key: Key, state: string)
    | StatusChanged(key: Key, state: string)
    | Created(key: Key)
    | PaymentRequested(key: Key)

  /** Versions are keyed as their unique index on number and version keys them. */
  datatype Store = Store(current: map<Number, Snapshot>, versions: map<Key, Version>, events: multiset<Event>)

  datatype Request = Request(number: Number, action: string, idempotencyKey: string)

  /*** Reading ***/

  /** The version recorded under an idempotency key is the number's `k`. */
  predicate IsRecordedAt(store: Store, number: Number, idempotencyKey: string, k: nat) {
    && Key(number, k) in store.versions
    && store.versions[Key(number, k)].execution.Some?
    && store.versions[Key(number, k)].execution.value.idempotencyKey == idempotencyKey
  }

  predicate HasKey(store: Store, number: Number, idempotencyKey: string) {
    exists key :: key in store.versions && key.number == number &&
      IsRecordedAt(store, number, idempotencyKey, key.version)
  }

  datatype Lookup = Nothing | SameAction | OtherAction

  /** The version some idempotency key was recorded with, if any; the unique index leaves no choice. */
  ghost function FindCompleted(store: Store, r: Request): Lookup {
    if !HasKey(store, r.number, r.idempotencyKey) then Nothing
    else
      var k :| IsRecordedAt(store, r.number, r.idempotencyKey, k);
      if store.versions[Key(r.number, k)].execution.value.name == r.action then SameAction else OtherAction
  }

  /*** Writing ***/

  function LifecycleEvents(s: Snapshot): multiset<Event> {
    multiset{Lifecycle(Key(s.number, s.version), s.state), StatusChanged(Key(s.number, s.version), s.state)}
  }

  function ActionEvents(current: Snapshot, next: Snapshot, pay: bool): multiset<Event> {
    (if current.state == next.state then multiset{} else LifecycleEvents(next)) +
    (if pay then multiset{PaymentRequested(Key(next.number, next.version))} else multiset{})
  }

  function CreationEvents(s: Snapshot): multiset<Event> {
    LifecycleEvents(s) + multiset{Created(Key(s.number, s.version))}
  }

  datatype WriteError = ConcurrentUpdate | DuplicateVersion | DuplicateKey | NumberTaken | SourceTaken

  predicate SourceIsTaken(store: Store, source: string) {
    exists n :: n in store.current && store.current[n].source == source
  }

  /** One creation transaction: a new number, a new source, its first version and its events. */
  function Persist(store: Store, s: Snapshot): Result<Store, WriteError> {
    if s.number in store.current then Err(NumberTaken)
    else if SourceIsTaken(store, s.source) then Err(SourceTaken)
    else if Key(s.number, s.version) in store.versions then Err(DuplicateVersion)
    else Ok(Store(
      store.current[s.number := s],
      store.versions[Key(s.number, s.version) := Version(s, None)],
      store.events + CreationEvents(s)))
  }

  /** What a commit writes, its own check of the key aside: replace, insert and save, or nothing at all. */
  function Commit(store: Store, r: Request, current: Snapshot, next: Snapshot, pay: bool): Result<Store, WriteError> {
    var key := Key(current.number, next.version);
    if next.number !in store.current || store.current[next.number].version != current.version then Err(ConcurrentUpdate)
    else if key in store.versions then Err(DuplicateVersion)
    else if HasKey(store, current.number, r.idempotencyKey) then Err(DuplicateKey)
    else Ok(Store(
      store.current[next.number := next],
      store.versions[key := Version(next, Some(Execution(r.action, r.idempotencyKey)))],
      store.events + ActionEvents(current, next, pay)))
  }
}
